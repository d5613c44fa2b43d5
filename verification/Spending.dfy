/** Spending outputs and undoing it (src/core.h, src/core.cpp, src/main.cpp). */
module Spending {
  import opened Wrappers
  import opened Words
  import opened VarInt
  import opened TxOuts
  import opened CoinsFormat

  /** CTxInUndo, whose height is not signed. */
  datatype Undo = Undo(txout: TxOut, coinBase: bool, height: Word, version: int)

  /** What spending output n leaves, and the record that undoes it. */
  function Spent(c: Coins, n: nat): (Coins, Undo)
    requires Available(c.vout, n)
  {
    var vout := Cleaned(c.vout[n := NULL_OUT]);
    var undo :=
      if vout == [] then Undo(c.vout[n], c.coinBase, c.height % UINT, c.version) else Undo(c.vout[n], false, 0, 0);
    (c.(vout := vout), undo)
  }

  function Nulls(n: nat): (r: seq<TxOut>)
    ensures |r| == n
  {
    seq(n, _ => NULL_OUT)
  }

  /** What putting output n back makes of the coins in view, and whether it was plausible. */
  ghost function Restored(view: Coins, undo: Undo, n: nat): (Coins, bool) {
    var last := undo.height != 0;
    var base := if last then Coins(undo.coinBase, [], AsInt(undo.height), undo.version) else view;
    var clean := (last <==> Pruned(view.vout)) && !Available(base.vout, n);
    var vout := if |base.vout| < n + 1 then base.vout + Nulls(n + 1 - |base.vout|) else base.vout;
    (base.(vout := vout[n := undo.txout]), clean)
  }

  /** The total of the outputs that are not spent. */
  function Total(vout: seq<TxOut>): int {
    if |vout| == 0 then 0
    else Total(vout[..|vout| - 1]) + if vout[|vout| - 1].IsNull() then 0 else vout[|vout| - 1].value
  }

  // ----- one spend -----

  lemma {:induction false} TotalOfCleaned(vout: seq<TxOut>)
    ensures Total(Cleaned(vout)) == Total(vout)
  {
    if |vout| > 0 && vout[|vout| - 1].IsNull() { TotalOfCleaned(vout[..|vout| - 1]); }
  }

  lemma {:induction false} TotalOfNulled(vout: seq<TxOut>, n: nat)
    requires Available(vout, n)
    ensures Total(vout[n := NULL_OUT]) + vout[n].value == Total(vout)
  {
    var k := |vout| - 1;
    if n == k {
      assert vout[n := NULL_OUT][..k] == vout[..k];
    } else {
      TotalOfNulled(vout[..k], n);
      assert vout[n := NULL_OUT][..k] == vout[..k][n := NULL_OUT];
    }
  }

  /** No value appears or is lost. */
  lemma SpendConserves(c: Coins, n: nat)
    requires Available(c.vout, n)
    ensures Total(Spent(c, n).0.vout) + Spent(c, n).1.txout.value == Total(c.vout)
  {
    TotalOfCleaned(c.vout[n := NULL_OUT]);
    TotalOfNulled(c.vout, n);
  }

  /** Output n is spent and no other one is touched. */
  lemma SpendTakesOne(c: Coins, n: nat, i: nat)
    requires Available(c.vout, n)
    ensures Available(Spent(c, n).0.vout, i) <==> i != n && Available(c.vout, i)
    ensures i != n && Available(c.vout, i) ==> Spent(c, n).0.vout[i] == c.vout[i]
  {
    var nulled := c.vout[n := NULL_OUT];
    var vout := Cleaned(nulled);
    if i < |c.vout| && i >= |vout| { assert nulled[i].IsNull(); }
    if i < |vout| { assert vout[i] == nulled[i]; }
  }

  /** No spent output at the end, and spent ones as SetNull leaves them. */
  ghost predicate Clean(vout: seq<TxOut>) {
    Canonical(vout) && Cleaned(vout) == vout
  }

  lemma CleanedIsClean(vout: seq<TxOut>)
    requires Canonical(vout)
    ensures Clean(Cleaned(vout))
  {
  }

  lemma CleanEnd(vout: seq<TxOut>)
    ensures Cleaned(vout) == vout <==> vout == [] || !vout[|vout| - 1].IsNull()
  {
  }

  lemma SpentIsClean(c: Coins, n: nat)
    requires Clean(c.vout) && Available(c.vout, n)
    ensures Clean(Spent(c, n).0.vout)
  {
    CleanedIsClean(c.vout[n := NULL_OUT]);
  }

  lemma PrunedIsEmpty(vout: seq<TxOut>)
    requires Clean(vout)
    ensures Pruned(vout) <==> vout == []
  {
    if |vout| > 0 { assert Available(vout, |vout| - 1); }
  }

  /** The outputs come back, however many were dropped at the end. */
  lemma OutputsComeBack(vout: seq<TxOut>, n: nat)
    requires Clean(vout) && Available(vout, n)
    ensures var left := Cleaned(vout[n := NULL_OUT]);
      !Available(left, n) &&
      (if |left| < n + 1 then left + Nulls(n + 1 - |left|) else left)[n := vout[n]] == vout
  {
    var nulled := vout[n := NULL_OUT];
    var left := Cleaned(nulled);
    CleanEnd(vout);
    if n < |vout| - 1 { CleanEnd(nulled); }
    forall i | |left| <= i < n ensures vout[i] == NULL_OUT { assert nulled[i].IsNull(); }
  }

  const NO_COINS := Coins(false, [], 0, 0)

  /** What the database may give for coins: entirely spent ones may be gone. */
  ghost predicate Seen(after: Coins, view: Coins) {
    view == after || (Pruned(after.vout) && view == NO_COINS)
  }

  /** Something is left exactly when another output was available. */
  lemma LeavesOthers(c: Coins, n: nat)
    requires Clean(c.vout) && Available(c.vout, n)
    ensures Spent(c, n).0.vout != [] <==> exists m: nat :: m != n && Available(c.vout, m)
  {
    var left := Spent(c, n).0.vout;
    SpentIsClean(c, n);
    PrunedIsEmpty(left);
    if left != [] {
      var m :| 0 <= m < |left| && Available(left, m);
      SpendTakesOne(c, n, m);
    }
    if m: nat :| m != n && Available(c.vout, m) { SpendTakesOne(c, n, m); }
  }

  /** The record undoes the spending, as far as the program can tell and in fact, exactly when another output was
      available or the height was not 0. */
  lemma UndoExactly(c: Coins, n: nat, view: Coins)
    requires Clean(c.vout) && Available(c.vout, n) && IsInt(c.height)
    requires Seen(Spent(c, n).0, view)
    ensures Restored(view, Spent(c, n).1, n) == (c, true) <==>
      (exists m: nat :: m != n && Available(c.vout, m)) || c.height != 0
  {
    LeavesOthers(c, n);
    UndoneIfLeft(c, n, view);
  }

  /** Coins of height 0 whose only output is spent: the record lacks their version and kind, and the program takes
      them for missing ones. */
  lemma LastAtHeightZero(out: TxOut, version: int)
    requires !out.IsNull()
    ensures var c := Coins(true, [out], 0, version);
      && Clean(c.vout) && Available(c.vout, 0) && Spent(c, 0).0.vout == []
      && Restored(NO_COINS, Spent(c, 0).1, 0) == (Coins(false, [out], 0, 0), false)
  {
    var c := Coins(true, [out], 0, version);
    assert Cleaned([]) == [] && c.vout[0 := NULL_OUT] == [NULL_OUT] && [NULL_OUT][..0] == [];
    assert Spent(c, 0).1 == Undo(out, true, 0, version);
    assert ([] + Nulls(1))[0 := out] == [out];
  }

  lemma UndoneIfLeft(c: Coins, n: nat, view: Coins)
    requires Clean(c.vout) && Available(c.vout, n) && IsInt(c.height)
    requires Seen(Spent(c, n).0, view)
    ensures Restored(view, Spent(c, n).1, n) == (c, true) <==> Spent(c, n).0.vout != [] || c.height != 0
    ensures Restored(view, Spent(c, n).1, n).1 <==> Spent(c, n).0.vout != [] || c.height != 0
  {
    if Spent(c, n).0.vout == [] {
      SpentIsClean(c, n);
      PrunedIsEmpty(Spent(c, n).0.vout);
      LastComesBack(c, n, view);
    } else {
      OneComesBack(c, n, view);
    }
  }

  lemma OneComesBack(c: Coins, n: nat, view: Coins)
    requires Clean(c.vout) && Available(c.vout, n)
    requires Seen(Spent(c, n).0, view) && Spent(c, n).0.vout != []
    ensures Restored(view, Spent(c, n).1, n) == (c, true)
  {
    SpentIsClean(c, n);
    PrunedIsEmpty(Spent(c, n).0.vout);
    OutputsComeBack(c.vout, n);
  }

  lemma LastComesBack(c: Coins, n: nat, view: Coins)
    requires Clean(c.vout) && Available(c.vout, n) && IsInt(c.height)
    requires Seen(Spent(c, n).0, view) && Spent(c, n).0.vout == []
    ensures Restored(view, Spent(c, n).1, n) == (c, true) <==> c.height != 0
    ensures Restored(view, Spent(c, n).1, n).1 <==> c.height != 0
  {
    LastOutput(c, n);
    IntFromBits(c.height);
    assert Pruned(view.vout) && Spent(c, n).1 == Undo(c.vout[n], c.coinBase, c.height % UINT, c.version);
    if c.height != 0 {
      var vout := [] + Nulls(n + 1);
      assert vout == Nulls(n + 1);
      assert Restored(view, Spent(c, n).1, n).0 == Coins(c.coinBase, vout[n := c.vout[n]], c.height, c.version);
    }
  }

  lemma LastOutput(c: Coins, n: nat)
    requires Clean(c.vout) && Available(c.vout, n) && Spent(c, n).0.vout == []
    ensures |c.vout| == n + 1 && Nulls(n + 1)[n := c.vout[n]] == c.vout
  {
    CleanEnd(c.vout);
    SpendTakesOne(c, n, |c.vout| - 1);
    OutputsComeBack(c.vout, n);
    assert [] + Nulls(n + 1) == Nulls(n + 1);
  }

  // ----- runs -----

  /** Every output is available when its turn comes. */
  ghost predicate Spendable(c: Coins, ns: seq<nat>)
    decreases |ns|, 0
  {
    |ns| > 0 ==>
      var k := |ns| - 1;
      Spendable(c, ns[..k]) && Available(SpendAll(c, ns[..k]).0.vout, ns[k])
  }

  /** What spending in turn leaves, and the records. */
  ghost function SpendAll(c: Coins, ns: seq<nat>): (r: (Coins, seq<Undo>))
    requires Spendable(c, ns)
    ensures |r.1| == |ns|
    decreases |ns|, 1
  {
    if |ns| == 0 then (c, [])
    else
      var k := |ns| - 1;
      var before := SpendAll(c, ns[..k]);
      var after := Spent(before.0, ns[k]);
      (after.0, before.1 + [after.1])
  }

  lemma InFrontOrLast(ns: seq<nat>, i: nat)
    requires |ns| > 0
    ensures i in ns <==> i in ns[..|ns| - 1] || i == ns[|ns| - 1]
  {
    assert ns == ns[..|ns| - 1] + [ns[|ns| - 1]];
  }

  lemma {:induction false} StillAvailable(c: Coins, ns: seq<nat>, i: nat)
    requires Spendable(c, ns)
    ensures Available(SpendAll(c, ns).0.vout, i) <==> Available(c.vout, i) && i !in ns
    decreases |ns|
  {
    if |ns| > 0 {
      var k := |ns| - 1;
      StillAvailable(c, ns[..k], i);
      SpendTakesOne(SpendAll(c, ns[..k]).0, ns[k], i);
      InFrontOrLast(ns, i);
    }
  }

  ghost predicate AllDifferent(ns: seq<nat>) {
    forall i, j :: 0 <= i < j < |ns| ==> ns[i] != ns[j]
  }

  lemma DifferentMore(front: seq<nat>, n: nat)
    ensures AllDifferent(front + [n]) <==> AllDifferent(front) && n !in front
  {
    var ns := front + [n];
    if AllDifferent(ns) {
      forall i, j | 0 <= i < j < |front| ensures front[i] != front[j] { assert ns[i] != ns[j]; }
      forall i | 0 <= i < |front| ensures front[i] != n { assert ns[i] != ns[|front|]; }
    }
  }

  /** A run of spends succeeds exactly when its outputs are available at first and no two are the same. */
  lemma {:induction false} SpendableExactly(c: Coins, ns: seq<nat>)
    ensures Spendable(c, ns) <==> AllDifferent(ns) && forall n :: n in ns ==> Available(c.vout, n)
    decreases |ns|
  {
    if |ns| > 0 {
      var k := |ns| - 1;
      var front := ns[..k];
      assert ns == front + [ns[k]];
      SpendableExactly(c, front);
      DifferentMore(front, ns[k]);
      if Spendable(c, front) { StillAvailable(c, front, ns[k]); }
    }
  }

  function UndoTotal(us: seq<Undo>): int {
    if |us| == 0 then 0 else UndoTotal(us[..|us| - 1]) + us[|us| - 1].txout.value
  }

  /** Nothing is left in spent outputs. */
  lemma {:induction false} NothingLeft(vout: seq<TxOut>)
    requires Pruned(vout)
    ensures Total(vout) == 0
  {
    if |vout| > 0 {
      var k := |vout| - 1;
      assert !Available(vout, k) && forall i :: 0 <= i < k ==> !Available(vout, i) && vout[..k][i] == vout[i];
      NothingLeft(vout[..k]);
    }
  }

  /** Over a run, what is left and what the records hold is what was there; when everything is spent, the records
      hold all of it. */
  lemma {:induction false} RunConserves(c: Coins, ns: seq<nat>)
    requires Spendable(c, ns)
    ensures Total(SpendAll(c, ns).0.vout) + UndoTotal(SpendAll(c, ns).1) == Total(c.vout)
    ensures Pruned(SpendAll(c, ns).0.vout) ==> UndoTotal(SpendAll(c, ns).1) == Total(c.vout)
    decreases |ns|
  {
    if Pruned(SpendAll(c, ns).0.vout) { NothingLeft(SpendAll(c, ns).0.vout); }
    if |ns| > 0 {
      var k := |ns| - 1;
      RunConserves(c, ns[..k]);
      SpendConserves(SpendAll(c, ns[..k]).0, ns[k]);
      var us := SpendAll(c, ns).1;
      assert us[..k] == SpendAll(c, ns[..k]).1;
    }
  }

  /** Undoes a run in reverse order. */
  ghost function RestoreAll(view: Coins, us: seq<Undo>, ns: seq<nat>): (Coins, bool)
    requires |us| == |ns|
    decreases |ns|
  {
    if |ns| == 0 then (view, true)
    else
      var k := |ns| - 1;
      var one := Restored(view, us[k], ns[k]);
      var others := RestoreAll(one.0, us[..k], ns[..k]);
      (others.0, one.1 && others.1)
  }

  lemma {:induction false} SpendAllIsClean(c: Coins, ns: seq<nat>)
    requires Clean(c.vout) && Spendable(c, ns)
    ensures Clean(SpendAll(c, ns).0.vout) && SpendAll(c, ns).0.height == c.height
    decreases |ns|
  {
    if |ns| > 0 {
      var k := |ns| - 1;
      SpendAllIsClean(c, ns[..k]);
      SpentIsClean(SpendAll(c, ns[..k]).0, ns[k]);
    }
  }

  /** The records of a run lead back to where it began, as far as the program can tell and in fact, exactly when
      an output was never spent or the height was not 0. */
  lemma RunIsUndone(c: Coins, ns: seq<nat>, view: Coins)
    requires Clean(c.vout) && c.vout != [] && IsInt(c.height)
    requires Spendable(c, ns) && Seen(SpendAll(c, ns).0, view)
    ensures RestoreAll(view, SpendAll(c, ns).1, ns) == (c, true) <==>
      (exists m: nat :: m !in ns && Available(c.vout, m)) || c.height != 0
  {
    LeavesOthersOfAll(c, ns);
    RunUndoneIfLeft(c, ns, view);
  }

  lemma LeavesOthersOfAll(c: Coins, ns: seq<nat>)
    requires Clean(c.vout) && Spendable(c, ns)
    ensures SpendAll(c, ns).0.vout != [] <==> exists m: nat :: m !in ns && Available(c.vout, m)
  {
    var left := SpendAll(c, ns).0.vout;
    SpendAllIsClean(c, ns);
    PrunedIsEmpty(left);
    if left != [] {
      var m :| 0 <= m < |left| && Available(left, m);
      StillAvailable(c, ns, m);
    }
    if m: nat :| m !in ns && Available(c.vout, m) { StillAvailable(c, ns, m); }
  }

  lemma {:induction false} RunUndoneIfLeft(c: Coins, ns: seq<nat>, view: Coins)
    requires Clean(c.vout) && c.vout != [] && IsInt(c.height)
    requires Spendable(c, ns) && Seen(SpendAll(c, ns).0, view)
    ensures RestoreAll(view, SpendAll(c, ns).1, ns) == (c, true) <==> SpendAll(c, ns).0.vout != [] || c.height != 0
    decreases |ns|
  {
    if |ns| == 0 {
      PrunedIsEmpty(c.vout);
    } else {
      var k := |ns| - 1;
      var before := SpendAll(c, ns[..k]).0;
      SpendAllIsClean(c, ns[..k]);
      UndoneIfLeft(before, ns[k], view);
      var us := SpendAll(c, ns).1;
      assert us[..k] == SpendAll(c, ns[..k]).1;
      if SpendAll(c, ns).0.vout != [] || c.height != 0 { RunUndoneIfLeft(c, ns[..k], before); }
    }
  }

  // ----- the stored record -----

  /** The code of height and kind, in 32 bits. */
  function HeightCode(u: Undo): Word {
    u.height * 2 % UINT + if u.coinBase then 1 else 0
  }

  /** CTxInUndo::Serialize. */
  function WriteUndo(codec: Codec, u: Undo): seq<Byte> {
    Encode(HeightCode(u)) + (if u.height > 0 then Encode(u.version) else []) + codec.put(u.txout)
  }

  /** CTxInUndo::Unserialize, into a new record. */
  function ReadUndo(codec: Codec, s: seq<Byte>): Option<Parsed<Undo>> {
    var code := ReadAs(UINT, s);
    if code.None? then None
    else ReadUndoBody(codec, code.value.rest, code.value.value / 2, code.value.value % 2 == 1)
  }

  /** What follows the code. */
  function ReadUndoBody(codec: Codec, s: seq<Byte>, height: Word, coinBase: bool): Option<Parsed<Undo>> {
    var version := if height > 0 then ReadInt(s) else Some(Parsed(0, s));
    if version.None? then None
    else
      var out := codec.get(version.value.rest);
      if out.None? then None
      else Some(Parsed(Undo(out.value.value, coinBase, height, version.value.value), out.value.rest))
  }

  lemma CodeOfHeight(u: Undo)
    ensures HeightCode(u) / 2 == u.height % 0x8000_0000 && (HeightCode(u) % 2 == 1 <==> u.coinBase)
    ensures u.height % 0x8000_0000 == u.height <==> u.height < 0x8000_0000
  {
  }

  lemma UndoIsReadFrom(codec: Codec, u: Undo, t: seq<Byte>)
    ensures ReadUndo(codec, WriteUndo(codec, u) + t) ==
      ReadUndoBody(codec, (if u.height > 0 then Encode(u.version) else []) + (codec.put(u.txout) + t),
                   u.height % 0x8000_0000, u.coinBase)
  {
    var rest := (if u.height > 0 then Encode(u.version) else []) + (codec.put(u.txout) + t);
    assert WriteUndo(codec, u) + t == Encode(HeightCode(u)) + rest;
    RoundTrip(UINT, HeightCode(u), rest);
    CodeOfHeight(u);
  }

  /** A record survives exactly when its height has 31 bits, and it holds a version only together with a height,
      and none below 0. */
  lemma UndoRoundTrip(codec: Codec, u: Undo, t: seq<Byte>)
    requires Inverse(codec) && Recordable(u.txout) && IsInt(u.version)
    ensures ReadUndo(codec, WriteUndo(codec, u) + t) == Some(Parsed(u, t)) <==>
      (0 < u.height < 0x8000_0000 && u.version >= 0) || (u.height == 0 && u.version == 0)
  {
    var out := codec.put(u.txout) + t;
    UndoIsReadFrom(codec, u, t);
    CodeOfHeight(u);
    assert codec.get(out) == Some(Parsed(u.txout, t));
    if u.height > 0 { StoredIsRead(u.version, out); } else { assert [] + out == out; }
  }

  /** At a height of 2^31 the code is that of height 0, so the reader takes the version for the output. */
  lemma UndoAtLimit(codec: Codec, u: Undo, t: seq<Byte>)
    requires u.height == 0x8000_0000
    ensures HeightCode(u) == HeightCode(u.(height := 0))
    ensures ReadUndo(codec, WriteUndo(codec, u) + t) ==
      ReadUndoBody(codec, Encode(u.version) + (codec.put(u.txout) + t), 0, u.coinBase)
    ensures ReadUndo(codec, WriteUndo(codec, u) + t) != Some(Parsed(u, t))
  {
    UndoIsReadFrom(codec, u, t);
  }

  // ----- spending, storing the record, reading it and restoring -----

  /** Whether the record that is read back restores the coins. */
  ghost predicate RestoresStored(codec: Codec, c: Coins, n: nat, view: Coins, t: seq<Byte>)
    requires Available(c.vout, n)
  {
    var r := ReadUndo(codec, WriteUndo(codec, Spent(c, n).1) + t);
    r.Some? && Restored(view, r.value.value, n) == (c, true)
  }

  /** A record read back restores the coins exactly when another output was available, or the height was positive
      and the version was not negative. */
  lemma StoredUndoExactly(codec: Codec, c: Coins, n: nat, view: Coins, t: seq<Byte>)
    requires Inverse(codec) && Clean(c.vout) && Available(c.vout, n) && Recordable(c.vout[n])
    requires IsInt(c.height) && IsInt(c.version) && Seen(Spent(c, n).0, view)
    ensures RestoresStored(codec, c, n, view, t) <==>
      (exists m: nat :: m != n && Available(c.vout, m)) || (c.height > 0 && c.version >= 0)
  {
    var u := Spent(c, n).1;
    LeavesOthers(c, n);
    UndoRoundTrip(codec, u, t);
    UndoneIfLeft(c, n, view);
    IntFromBits(c.height);
    if Spent(c, n).0.vout == [] && !(c.height > 0 && c.version >= 0) { LostRecord(codec, c, n, view, t); }
  }

  /** The height or the version that is read is another one. */
  lemma LostRecord(codec: Codec, c: Coins, n: nat, view: Coins, t: seq<Byte>)
    requires Inverse(codec) && Clean(c.vout) && Available(c.vout, n) && Recordable(c.vout[n])
    requires IsInt(c.height) && IsInt(c.version) && Seen(Spent(c, n).0, view)
    requires Spent(c, n).0.vout == [] && !(c.height > 0 && c.version >= 0)
    ensures !RestoresStored(codec, c, n, view, t)
  {
    var u := Spent(c, n).1;
    UndoIsReadFrom(codec, u, t);
    CodeOfHeight(u);
    SpentIsClean(c, n);
    PrunedIsEmpty(Spent(c, n).0.vout);
    if u.height > 0 { StoredIsRead(u.version, codec.put(u.txout) + t); }
  }
}
