/** The unspent outputs of one transaction and their serialized form (src/core.h, src/core.cpp). */
module CoinsFormat {
  import opened Wrappers
  import opened Words
  import opened VarInt
  import opened TxOuts
  import opened Arithmetic
  import Amount

  /** How an output is written and read. */
  datatype Codec = Codec(put: TxOut -> seq<Byte>, get: seq<Byte> -> Option<Parsed<TxOut>>)

  /** A value of 64 bits that survives its compression, as amounts of money do, and a script whose length fits. */
  predicate Recordable(out: TxOut) {
    IsLong(out.value) && Amount.Recoverable(out.value % ULONG) && Countable(out.script)
  }

  /** What is written is read back, whatever follows it. */
  ghost predicate Inverse(codec: Codec) {
    forall out: TxOut, t: seq<Byte> :: Recordable(out) ==> codec.get(codec.put(out) + t) == Some(Parsed(out, t))
  }

  /** The codec that the program uses. */
  function Compressor(curve: Curve): Codec {
    Codec(out => WriteTxOut(curve, out), s => ReadTxOut(curve, s))
  }

  lemma CompressorIsInverse(curve: Curve)
    requires Sound(curve)
    ensures Inverse(Compressor(curve))
  {
    forall out: TxOut, t: seq<Byte> | Recordable(out)
      ensures Compressor(curve).get(Compressor(curve).put(out) + t) == Some(Parsed(out, t))
    {
      TxOutRoundTrip(curve, out, t);
    }
  }

  datatype Coins = Coins(coinBase: bool, vout: seq<TxOut>, height: int, version: int)

  /** The values of the types: integers of 32 bits, and as many outputs as such integers can count
      together with the first two and a padding. */
  predicate Representable(c: Coins) {
    IsInt(c.height) && IsInt(c.version) && FewOutputs(c.vout)
  }

  predicate FewOutputs(vout: seq<TxOut>) {
    |vout| < UINT - 16
  }

  // ----- outputs -----

  /** IsAvailable. */
  predicate Available(vout: seq<TxOut>, i: nat) {
    i < |vout| && !vout[i].IsNull()
  }

  /** IsPruned. */
  ghost predicate Pruned(vout: seq<TxOut>) {
    forall i :: 0 <= i < |vout| ==> !Available(vout, i)
  }

  /** Without the spent outputs at the end. */
  function Cleaned(vout: seq<TxOut>): (r: seq<TxOut>)
    ensures |r| <= |vout| && r == vout[..|r|]
    ensures r == [] || !r[|r| - 1].IsNull()
    ensures forall i :: |r| <= i < |vout| ==> vout[i].IsNull()
  {
    if |vout| > 0 && vout[|vout| - 1].IsNull() then Cleaned(vout[..|vout| - 1]) else vout
  }

  /** What an output is read back as. */
  function Normal(out: TxOut): TxOut {
    if out.IsNull() then NULL_OUT else out
  }

  function Normalised(vout: seq<TxOut>): (r: seq<TxOut>)
    ensures |r| == |vout|
  {
    seq(|vout|, i requires 0 <= i < |vout| => Normal(vout[i]))
  }

  /** Spent outputs look as SetNull leaves them. */
  ghost predicate Canonical(vout: seq<TxOut>) {
    forall i :: 0 <= i < |vout| && vout[i].IsNull() ==> vout[i] == NULL_OUT
  }

  /** Every output that is not spent can be recorded. */
  ghost predicate Storable(vout: seq<TxOut>) {
    forall i :: 0 <= i < |vout| && !vout[i].IsNull() ==> Recordable(vout[i])
  }

  /** The same outputs at the same places, and no others. */
  ghost predicate SameOutputs(a: seq<TxOut>, b: seq<TxOut>) {
    && (forall i :: 0 <= i < |a| || 0 <= i < |b| ==> (Available(a, i) <==> Available(b, i)))
    && (forall i :: 0 <= i < |a| && i < |b| && Available(a, i) ==> a[i] == b[i])
  }

  lemma SameOutputsCleaned(a: seq<TxOut>, b: seq<TxOut>)
    requires SameOutputs(a, b)
    ensures Normalised(Cleaned(a)) == Normalised(Cleaned(b))
  {
    var x, y := Cleaned(a), Cleaned(b);
    if |x| > 0 { assert Available(a, |x| - 1); }
    if |y| > 0 { assert Available(b, |y| - 1); }
    forall i | 0 <= i < |x| ensures Normal(x[i]) == Normal(y[i]) {
      assert Available(a, i) <==> Available(b, i);
    }
  }

  lemma CanonicalIsNormal(vout: seq<TxOut>)
    requires Canonical(vout)
    ensures Normalised(vout) == vout && Canonical(Cleaned(vout))
  {
  }

  // ----- the bit mask -----

  function Bit(f: bool, weight: nat): nat {
    if f then weight else 0
  }

  /** The number of these bits, the first one lowest. */
  function Number(b: seq<bool>): (n: nat)
    ensures n < Pow2(|b|)
  {
    if |b| == 0 then 0 else Bit(b[0], 1) + 2 * Number(b[1..])
  }

  /** The n lowest bits of a number, the lowest one first. */
  function Bits(c: nat, n: nat): (b: seq<bool>)
    ensures |b| == n
  {
    if n == 0 then [] else [c % 2 == 1] + Bits(c / 2, n - 1)
  }

  lemma {:induction false} BitsOfNumber(b: seq<bool>)
    ensures Bits(Number(b), |b|) == b
  {
    if |b| > 0 {
      BitsOfNumber(b[1..]);
      assert Number(b) / 2 == Number(b[1..]);
    }
  }

  lemma {:induction false} NumberIsZero(b: seq<bool>)
    ensures Number(b) == 0 <==> forall i :: 0 <= i < |b| ==> !b[i]
  {
    if |b| > 0 {
      NumberIsZero(b[1..]);
      assert forall i :: 1 <= i < |b| ==> b[i] == b[1..][i - 1];
      if Number(b[1..]) == 0 && !b[0] {
        forall i | 0 <= i < |b| ensures !b[i] { if i > 0 { assert !b[1..][i - 1]; } }
      }
      if forall i :: 0 <= i < |b| ==> !b[i] { assert forall i :: 0 <= i < |b[1..]| ==> !b[1..][i]; }
    }
  }

  /** Setting one more bit. */
  lemma {:induction false} NumberAppend(b: seq<bool>, f: bool)
    ensures Number(b + [f]) == Number(b) + Bit(f, Pow2(|b|))
  {
    if |b| > 0 {
      NumberAppend(b[1..], f);
      assert (b + [f])[1..] == b[1..] + [f];
    }
  }

  /** Testing one bit. */
  lemma {:induction false} BitAt(c: nat, n: nat, p: nat)
    requires p < n
    ensures Bits(c, n)[p] <==> c / Pow2(p) % 2 == 1
  {
    if p > 0 {
      BitAt(c / 2, n - 1, p - 1);
      HalfFirst(c, Pow2(p - 1));
    }
  }

  lemma HalfFirst(c: nat, d: nat)
    requires d > 0
    ensures c / 2 / d == c / (2 * d)
  {
    var q, r := c / 2 / d, c / 2 % d;
    assert c == (q * d + r) * 2 + c % 2;
    assert q * (2 * d) == q * d * 2;
    QuotientIsUnique(c, 2 * d, q, 2 * r + c % 2);
  }

  /** The availabilities of the outputs that byte b of the mask stands for. */
  function Eight(vout: seq<TxOut>, b: nat): (r: seq<bool>)
    ensures |r| == 8
  {
    seq(8, i requires 0 <= i < 8 => Available(vout, 2 + 8 * b + i))
  }

  function MaskByte(vout: seq<TxOut>, b: nat): Byte {
    assert Pow2(8) == 256;
    Number(Eight(vout, b))
  }

  /** The mask without trailing zero bytes, among its first n bytes. */
  function MaskSize(vout: seq<TxOut>, n: nat): (m: nat)
    ensures m <= n
    ensures m == 0 || MaskByte(vout, m - 1) != 0
    ensures forall b :: m <= b < n ==> MaskByte(vout, b) == 0
  {
    if n == 0 || MaskByte(vout, n - 1) != 0 then n else MaskSize(vout, n - 1)
  }

  function NonzeroBytes(vout: seq<TxOut>, n: nat): (k: nat)
    ensures k <= n
  {
    if n == 0 then 0 else NonzeroBytes(vout, n - 1) + if MaskByte(vout, n - 1) != 0 then 1 else 0
  }

  /** How many bytes the mask can have. */
  function AllBytes(vout: seq<TxOut>): nat {
    if |vout| <= 2 then 0 else (|vout| - 2 + 7) / 8
  }

  function Mask(vout: seq<TxOut>, m: nat): (s: seq<Byte>)
    ensures |s| == m
  {
    seq(m, b requires 0 <= b < m => MaskByte(vout, b))
  }

  /** A byte of the mask is zero when nothing it stands for is available. */
  lemma ZeroByte(vout: seq<TxOut>, b: nat)
    ensures MaskByte(vout, b) == 0 <==> forall j :: 2 + 8 * b <= j < 10 + 8 * b ==> !Available(vout, j)
  {
    var e := Eight(vout, b);
    NumberIsZero(e);
    if MaskByte(vout, b) == 0 {
      forall j | 2 + 8 * b <= j < 10 + 8 * b ensures !Available(vout, j) { assert !e[j - 2 - 8 * b]; }
    }
  }

  lemma {:induction false} ZeroBytesDoNotCount(vout: seq<TxOut>, m: nat, n: nat)
    requires m <= n && forall b :: m <= b < n ==> MaskByte(vout, b) == 0
    ensures NonzeroBytes(vout, n) == NonzeroBytes(vout, m)
    decreases n
  {
    if m < n { ZeroBytesDoNotCount(vout, m, n - 1); }
  }

  lemma ByteOf(i: nat, size: nat)
    requires 2 <= i < size
    ensures var b := (i - 2) / 8;
      2 + 8 * b <= i < 10 + 8 * b && b < (size - 2 + 7) / 8
  {
  }

  /** Outputs beyond the mask are not available. */
  lemma BeyondMask(vout: seq<TxOut>, i: nat)
    requires i >= 2 + 8 * MaskSize(vout, AllBytes(vout))
    ensures !Available(vout, i)
  {
    if i < |vout| {
      ByteOf(i, |vout|);
      ZeroByte(vout, (i - 2) / 8);
    }
  }

  // ----- the stream -----

  function First(vout: seq<TxOut>): bool { Available(vout, 0) }

  function Second(vout: seq<TxOut>): bool { Available(vout, 1) }

  /** The header code. */
  function Code(coinBase: bool, first: bool, second: bool, nonzero: nat): nat
    requires first || second || nonzero > 0
  {
    8 * (nonzero - if first || second then 0 else 1) + Bit(coinBase, 1) + Bit(first, 2) + Bit(second, 4)
  }

  function WriteOuts(codec: Codec, vout: seq<TxOut>): seq<Byte>
  {
    if |vout| == 0 then []
    else (if vout[0].IsNull() then [] else codec.put(vout[0])) + WriteOuts(codec, vout[1..])
  }

  lemma SomethingIsMasked(vout: seq<TxOut>)
    requires !Pruned(vout)
    ensures First(vout) || Second(vout) || NonzeroBytes(vout, AllBytes(vout)) > 0
  {
    var i :| 0 <= i < |vout| && Available(vout, i);
    if i >= 2 {
      var m := MaskSize(vout, AllBytes(vout));
      if m == 0 { BeyondMask(vout, i); } else { ZeroBytesDoNotCount(vout, m, AllBytes(vout)); }
    }
  }

  function CodeOf(c: Coins): nat
    requires !Pruned(c.vout)
  {
    SomethingIsMasked(c.vout);
    Code(c.coinBase, First(c.vout), Second(c.vout), NonzeroBytes(c.vout, AllBytes(c.vout)))
  }

  lemma CodeFits(c: Coins)
    requires !Pruned(c.vout) && FewOutputs(c.vout)
    ensures CodeOf(c) < UINT
  {
  }

  function WriteOutputs(codec: Codec, vout: seq<TxOut>): seq<Byte>
  {
    Mask(vout, MaskSize(vout, AllBytes(vout))) + WriteOuts(codec, vout)
  }

  function Write(codec: Codec, c: Coins): seq<Byte>
    requires !Pruned(c.vout)
  {
    Encode(c.version) + Encode(CodeOf(c)) + WriteOutputs(codec, c.vout) + Encode(c.height)
  }

  /** Reads bytes of the mask until `left` of them have been nonzero. */
  function ReadMask(s: seq<Byte>, left: nat, avail: seq<bool>): Option<Parsed2>
    decreases |s|
  {
    if left == 0 then Some(Parsed2(avail, s))
    else if |s| == 0 then None
    else ReadMask(s[1..], if s[0] != 0 then left - 1 else left, avail + Bits(s[0], 8))
  }

  datatype Parsed2 = Parsed2(avail: seq<bool>, rest: seq<Byte>)

  function ReadOuts(codec: Codec, s: seq<Byte>, avail: seq<bool>): Option<Parsed<seq<TxOut>>>
    decreases |avail|
  {
    if |avail| == 0 then Some(Parsed([], s))
    else if !avail[0] then
      var others := ReadOuts(codec, s, avail[1..]);
      if others.None? then None else Some(Parsed([NULL_OUT] + others.value.value, others.value.rest))
    else
      var out := codec.get(s);
      if out.None? then None
      else
        var others := ReadOuts(codec, out.value.rest, avail[1..]);
        if others.None? then None else Some(Parsed([out.value.value] + others.value.value, others.value.rest))
  }

  /** The mask and the outputs, after a header with this code. */
  function ReadOutputs(codec: Codec, s: seq<Byte>, code: nat): Option<Parsed<seq<TxOut>>> {
    var first, second := code / 2 % 2 == 1, code / 4 % 2 == 1;
    var nonzero := code / 8 + if first || second then 0 else 1;
    var mask := ReadMask(s, nonzero, [first, second]);
    if mask.None? then None else ReadOuts(codec, mask.value.rest, mask.value.avail)
  }

  function ReadBody(codec: Codec, s: seq<Byte>, version: int, code: nat): Option<Parsed<Coins>> {
    var outs := ReadOutputs(codec, s, code);
    if outs.None? then None
    else
      var height := ReadInt(outs.value.rest);
      if height.None? then None
      else Some(Parsed(Coins(code % 2 == 1, Cleaned(outs.value.value), height.value.value, version), height.value.rest))
  }

  function Read(codec: Codec, s: seq<Byte>): Option<Parsed<Coins>> {
    var version := ReadInt(s);
    if version.None? then None
    else
      var header := ReadAs(UINT, version.value.rest);
      if header.None? then None
      else ReadBody(codec, header.value.rest, version.value.value, header.value.value)
  }

  // ----- round trip -----

  lemma CodeUnpacks(coinBase: bool, first: bool, second: bool, nonzero: nat)
    requires first || second || nonzero > 0
    ensures var code := Code(coinBase, first, second, nonzero);
      && (code % 2 == 1 <==> coinBase) && (code / 2 % 2 == 1 <==> first) && (code / 4 % 2 == 1 <==> second)
      && code / 8 + (if first || second then 0 else 1) == nonzero
  {
    var k := nonzero - if first || second then 0 else 1;
    BitsUnpack(k, Bit(coinBase, 1), Bit(first, 1), Bit(second, 1));
  }

  lemma BitsUnpack(k: nat, a: nat, b: nat, c: nat)
    requires a < 2 && b < 2 && c < 2
    ensures var code := 8 * k + a + 2 * b + 4 * c;
      code % 2 == a && code / 2 % 2 == b && code / 4 % 2 == c && code / 8 == k
  {
    var code := 8 * k + a + 2 * b + 4 * c;
    QuotientIsUnique(code, 8, k, a + 2 * b + 4 * c);
    QuotientIsUnique(code, 4, 2 * k + c, a + 2 * b);
    QuotientIsUnique(code, 2, 4 * k + b + 2 * c, a);
    QuotientIsUnique(4 * k + b + 2 * c, 2, 2 * k + c, b);
    QuotientIsUnique(2 * k + c, 2, k, c);
  }

  /** The availabilities that the first m bytes of the mask stand for, after the first two outputs. */
  function Avail(vout: seq<TxOut>, m: nat): (a: seq<bool>)
    ensures |a| == 2 + 8 * m
  {
    seq(2 + 8 * m, i requires 0 <= i < 2 + 8 * m => Available(vout, i))
  }

  lemma AvailStep(vout: seq<TxOut>, b: nat)
    ensures Avail(vout, b + 1) == Avail(vout, b) + Bits(MaskByte(vout, b), 8)
  {
    BitsOfNumber(Eight(vout, b));
  }

  /** Reading stops exactly at the end of the mask, wherever zero bytes occur inside it. */
  lemma MaskIsRead(vout: seq<TxOut>, b: nat, m: nat, t: seq<Byte>)
    requires b <= m && (m == 0 || MaskByte(vout, m - 1) != 0)
    ensures NonzeroBytes(vout, b) <= NonzeroBytes(vout, m)
    ensures ReadMask(Mask(vout, m)[b..] + t, NonzeroBytes(vout, m) - NonzeroBytes(vout, b), Avail(vout, b)) ==
      Some(Parsed2(Avail(vout, m), t))
  {
    forall k: nat | k < m ensures NonzeroBytes(vout, k) < NonzeroBytes(vout, m) { LastCounts(vout, k, m); }
    if b < m { LastCounts(vout, b, m); }
    BytesAreRead(vout, b, m, t, Mask(vout, m)[b..] + t, NonzeroBytes(vout, m) - NonzeroBytes(vout, b), Avail(vout, b));
  }

  /** Up to the end there is something left to count. */
  lemma {:induction false} BytesAreRead(vout: seq<TxOut>, b: nat, m: nat, t: seq<Byte>, s: seq<Byte>, left: nat,
                                        avail: seq<bool>)
    requires b <= m && forall k: nat :: k < m ==> NonzeroBytes(vout, k) < NonzeroBytes(vout, m)
    requires s == Mask(vout, m)[b..] + t && avail == Avail(vout, b)
    requires left == NonzeroBytes(vout, m) - NonzeroBytes(vout, b)
    ensures ReadMask(s, left, avail) == Some(Parsed2(Avail(vout, m), t))
    decreases m - b
  {
    if b == m {
      assert s == t;
    } else {
      var c, rest := MaskByte(vout, b), Mask(vout, m)[b + 1..] + t;
      assert NonzeroBytes(vout, b) < NonzeroBytes(vout, m);
      MaskSplit(vout, b, m, t);
      CountStep(vout, b);
      AvailStep(vout, b);
      ReadMaskStep(c, rest, left, avail);
      BytesAreRead(vout, b + 1, m, t, rest, if c != 0 then left - 1 else left, avail + Bits(c, 8));
    }
  }

  lemma MaskSplit(vout: seq<TxOut>, b: nat, m: nat, t: seq<Byte>)
    requires b < m
    ensures Mask(vout, m)[b..] + t == [MaskByte(vout, b)] + (Mask(vout, m)[b + 1..] + t)
  {
    var mask := Mask(vout, m);
    assert mask[b..] == [mask[b]] + mask[b + 1..];
  }

  lemma CountStep(vout: seq<TxOut>, b: nat)
    ensures NonzeroBytes(vout, b + 1) == NonzeroBytes(vout, b) + if MaskByte(vout, b) != 0 then 1 else 0
  {
  }

  lemma ReadMaskStep(c: Byte, s: seq<Byte>, left: nat, avail: seq<bool>)
    requires left > 0
    ensures ReadMask([c] + s, left, avail) == ReadMask(s, if c != 0 then left - 1 else left, avail + Bits(c, 8))
  {
    assert ([c] + s)[1..] == s;
  }

  lemma {:induction false} LastCounts(vout: seq<TxOut>, b: nat, m: nat)
    requires b < m && MaskByte(vout, m - 1) != 0
    ensures NonzeroBytes(vout, b) < NonzeroBytes(vout, m)
    decreases m
  {
    if b < m - 1 {
      NonzeroGrows(vout, b, m - 1);
    }
  }

  lemma {:induction false} NonzeroGrows(vout: seq<TxOut>, b: nat, m: nat)
    requires b <= m
    ensures NonzeroBytes(vout, b) <= NonzeroBytes(vout, m)
    decreases m
  {
    if b < m { NonzeroGrows(vout, b, m - 1); }
  }

  lemma {:induction false} NothingIsWritten(codec: Codec, vout: seq<TxOut>)
    requires Pruned(vout)
    ensures WriteOuts(codec, vout) == []
  {
    if |vout| > 0 {
      assert !Available(vout, 0);
      forall i | 0 <= i < |vout| - 1 ensures !Available(vout[1..], i) { assert !Available(vout, i + 1); }
      NothingIsWritten(codec, vout[1..]);
    }
  }

  function SelectedOut(vout: seq<TxOut>, i: nat): TxOut {
    if Available(vout, i) then vout[i] else NULL_OUT
  }

  /** The outputs that availabilities select, and null ones in between. */
  function Selected(vout: seq<TxOut>, n: nat): (r: seq<TxOut>)
    ensures |r| == n
  {
    seq(n, i requires 0 <= i < n => SelectedOut(vout, i))
  }

  lemma ReadOutsTake(codec: Codec, s: seq<Byte>, avail: seq<bool>, out: TxOut, rest: seq<Byte>, outs: seq<TxOut>,
                     t: seq<Byte>)
    requires |avail| > 0 && avail[0] && codec.get(s) == Some(Parsed(out, rest))
    requires ReadOuts(codec, rest, avail[1..]) == Some(Parsed(outs, t))
    ensures ReadOuts(codec, s, avail) == Some(Parsed([out] + outs, t))
  {
  }

  lemma ReadOutsSkip(codec: Codec, s: seq<Byte>, avail: seq<bool>, outs: seq<TxOut>, t: seq<Byte>)
    requires |avail| > 0 && !avail[0]
    requires ReadOuts(codec, s, avail[1..]) == Some(Parsed(outs, t))
    ensures ReadOuts(codec, s, avail) == Some(Parsed([NULL_OUT] + outs, t))
  {
  }

  function Tail(vout: seq<TxOut>): seq<TxOut> {
    if |vout| == 0 then [] else vout[1..]
  }

  lemma AvailableTail(vout: seq<TxOut>, i: nat)
    ensures Available(Tail(vout), i) == Available(vout, i + 1)
    ensures SelectedOut(Tail(vout), i) == SelectedOut(vout, i + 1)
  {
  }

  lemma SelectedStep(vout: seq<TxOut>, n: nat)
    requires n > 0
    ensures Selected(vout, n) == [SelectedOut(vout, 0)] + Selected(Tail(vout), n - 1)
  {
    forall i | 0 < i < n ensures Selected(vout, n)[i] == Selected(Tail(vout), n - 1)[i - 1] {
      AvailableTail(vout, i - 1);
    }
  }

  lemma WriteOutsStep(codec: Codec, vout: seq<TxOut>, t: seq<Byte>)
    ensures Available(vout, 0) ==>
      WriteOuts(codec, vout) + t == codec.put(vout[0]) + (WriteOuts(codec, Tail(vout)) + t)
    ensures !Available(vout, 0) ==> WriteOuts(codec, vout) + t == WriteOuts(codec, Tail(vout)) + t
  {
    if Available(vout, 0) {
      assert WriteOuts(codec, vout) == codec.put(vout[0]) + WriteOuts(codec, vout[1..]);
      Associates(codec.put(vout[0]), WriteOuts(codec, vout[1..]), t);
    } else if |vout| > 0 {
      assert WriteOuts(codec, vout) == WriteOuts(codec, vout[1..]);
    }
  }

  lemma StorableTail(vout: seq<TxOut>)
    requires Storable(vout)
    ensures Storable(Tail(vout))
  {
  }

  /** The outputs are read back at their places. */
  lemma {:induction false} OutsAreRead(codec: Codec, vout: seq<TxOut>, avail: seq<bool>, t: seq<Byte>)
    requires Inverse(codec) && Storable(vout)
    requires forall i :: 0 <= i < |avail| ==> (avail[i] <==> Available(vout, i))
    requires forall i :: |avail| <= i < |vout| ==> !Available(vout, i)
    ensures ReadOuts(codec, WriteOuts(codec, vout) + t, avail) == Some(Parsed(Selected(vout, |avail|), t))
    decreases |avail|
  {
    var s := WriteOuts(codec, vout) + t;
    if |avail| == 0 {
      NothingIsWritten(codec, vout);
      assert s == t;
    } else {
      var vout', avail' := Tail(vout), avail[1..];
      forall i | 0 <= i < |avail'| ensures avail'[i] <==> Available(vout', i) { AvailableTail(vout, i); }
      forall i | |avail'| <= i < |vout'| ensures !Available(vout', i) { AvailableTail(vout, i); }
      StorableTail(vout);
      WriteOutsStep(codec, vout, t);
      OutsAreRead(codec, vout', avail', t);
      SelectedStep(vout, |avail|);
      var s' := WriteOuts(codec, vout') + t;
      if avail[0] {
        assert codec.get(codec.put(vout[0]) + s') == Some(Parsed(vout[0], s'));
        ReadOutsTake(codec, s, avail, vout[0], s', Selected(vout', |avail'|), t);
      } else {
        ReadOutsSkip(codec, s, avail, Selected(vout', |avail'|), t);
      }
    }
  }

  /** What coins are read back as. */
  function Recovered(c: Coins): Coins {
    Coins(c.coinBase, Normalised(Cleaned(c.vout)), Stored(c.height), Stored(c.version))
  }

  lemma SelectedIsSame(vout: seq<TxOut>, n: nat)
    requires forall i :: n <= i < |vout| ==> !Available(vout, i)
    ensures Cleaned(Selected(vout, n)) == Normalised(Cleaned(vout))
  {
    var r := Selected(vout, n);
    SelectedOutputs(vout, n);
    SameOutputsCleaned(r, vout);
    CanonicalIsNormal(r);
    CanonicalIsNormal(Cleaned(r));
  }

  lemma SelectedOutputs(vout: seq<TxOut>, n: nat)
    requires forall i :: n <= i < |vout| ==> !Available(vout, i)
    ensures SameOutputs(Selected(vout, n), vout) && Canonical(Selected(vout, n))
  {
    var r := Selected(vout, n);
    forall i | 0 <= i < n ensures r[i] == SelectedOut(vout, i) {}
    forall i | 0 <= i < |r| || 0 <= i < |vout| ensures Available(r, i) <==> Available(vout, i) {
      if i < n { assert r[i] == SelectedOut(vout, i); }
    }
  }

  lemma MaskIsReadWhole(vout: seq<TxOut>, t: seq<Byte>)
    ensures var n := AllBytes(vout);
      var m := MaskSize(vout, n);
      ReadMask(Mask(vout, m) + t, NonzeroBytes(vout, n), [First(vout), Second(vout)]) ==
        Some(Parsed2(Avail(vout, m), t))
  {
    var n := AllBytes(vout);
    var m := MaskSize(vout, n);
    ZeroBytesDoNotCount(vout, m, n);
    assert Avail(vout, 0) == [First(vout), Second(vout)] && Mask(vout, m)[0..] == Mask(vout, m);
    MaskIsRead(vout, 0, m, t);
  }

  lemma ReadOutputsIs(codec: Codec, s: seq<Byte>, code: nat, first: bool, second: bool, nonzero: nat,
                      avail: seq<bool>, rest: seq<Byte>, outs: Option<Parsed<seq<TxOut>>>)
    requires (code / 2 % 2 == 1 <==> first) && (code / 4 % 2 == 1 <==> second)
    requires code / 8 + (if first || second then 0 else 1) == nonzero
    requires ReadMask(s, nonzero, [first, second]) == Some(Parsed2(avail, rest))
    requires ReadOuts(codec, rest, avail) == outs
    ensures ReadOutputs(codec, s, code) == outs
  {
  }

  lemma CodeOfUnpacks(c: Coins)
    requires !Pruned(c.vout)
    ensures var code := CodeOf(c);
      && (code % 2 == 1 <==> c.coinBase) && (code / 2 % 2 == 1 <==> First(c.vout)) &&
        (code / 4 % 2 == 1 <==> Second(c.vout))
      && code / 8 + (if First(c.vout) || Second(c.vout) then 0 else 1) == NonzeroBytes(c.vout, AllBytes(c.vout))
  {
    SomethingIsMasked(c.vout);
    CodeUnpacks(c.coinBase, First(c.vout), Second(c.vout), NonzeroBytes(c.vout, AllBytes(c.vout)));
  }

  lemma OutsOfMaskAreRead(codec: Codec, vout: seq<TxOut>, t: seq<Byte>)
    requires Inverse(codec) && Storable(vout)
    ensures var m := MaskSize(vout, AllBytes(vout));
      ReadOuts(codec, WriteOuts(codec, vout) + t, Avail(vout, m)) == Some(Parsed(Selected(vout, 2 + 8 * m), t))
  {
    var m := MaskSize(vout, AllBytes(vout));
    forall i | 2 + 8 * m <= i < |vout| ensures !Available(vout, i) { BeyondMask(vout, i); }
    OutsAreRead(codec, vout, Avail(vout, m), t);
  }

  /** The mask and the outputs are read back under any header code that says what the mask needs. */
  lemma OutputsAreReadFor(codec: Codec, vout: seq<TxOut>, code: nat, t: seq<Byte>)
    requires Inverse(codec) && Storable(vout)
    requires (code / 2 % 2 == 1 <==> First(vout)) && (code / 4 % 2 == 1 <==> Second(vout))
    requires code / 8 + (if First(vout) || Second(vout) then 0 else 1) == NonzeroBytes(vout, AllBytes(vout))
    ensures var m := MaskSize(vout, AllBytes(vout));
      ReadOutputs(codec, Mask(vout, m) + (WriteOuts(codec, vout) + t), code) ==
        Some(Parsed(Selected(vout, 2 + 8 * m), t))
  {
    OutsOfMaskAreRead(codec, vout, t);
    MaskThenOuts(codec, vout, code, WriteOuts(codec, vout) + t);
  }

  lemma MaskThenOuts(codec: Codec, vout: seq<TxOut>, code: nat, outs: seq<Byte>)
    requires (code / 2 % 2 == 1 <==> First(vout)) && (code / 4 % 2 == 1 <==> Second(vout))
    requires code / 8 + (if First(vout) || Second(vout) then 0 else 1) == NonzeroBytes(vout, AllBytes(vout))
    ensures var m := MaskSize(vout, AllBytes(vout));
      ReadOutputs(codec, Mask(vout, m) + outs, code) == ReadOuts(codec, outs, Avail(vout, m))
  {
    var m := MaskSize(vout, AllBytes(vout));
    MaskIsReadWhole(vout, outs);
    ReadOutputsIs(codec, Mask(vout, m) + outs, code, First(vout), Second(vout), NonzeroBytes(vout, AllBytes(vout)),
                  Avail(vout, m), outs, ReadOuts(codec, outs, Avail(vout, m)));
  }

  lemma OutputsAreRead(codec: Codec, c: Coins, t: seq<Byte>)
    requires Inverse(codec) && Storable(c.vout) && !Pruned(c.vout)
    ensures ReadOutputs(codec, WriteOutputs(codec, c.vout) + t, CodeOf(c)) ==
      Some(Parsed(Selected(c.vout, 2 + 8 * MaskSize(c.vout, AllBytes(c.vout))), t))
  {
    CodeOfUnpacks(c);
    OutputsAreReadFor(codec, c.vout, CodeOf(c), t);
    Associates(Mask(c.vout, MaskSize(c.vout, AllBytes(c.vout))), WriteOuts(codec, c.vout), t);
  }

  lemma BodyIsRead(codec: Codec, c: Coins, t: seq<Byte>)
    requires Inverse(codec) && Storable(c.vout) && !Pruned(c.vout) && Representable(c)
    ensures ReadBody(codec, WriteOutputs(codec, c.vout) + (Encode(c.height) + t), Stored(c.version), CodeOf(c)) ==
      Some(Parsed(Recovered(c), t))
  {
    var m := MaskSize(c.vout, AllBytes(c.vout));
    OutputsAreRead(codec, c, Encode(c.height) + t);
    StoredIsRead(c.height, t);
    forall i | 2 + 8 * m <= i < |c.vout| ensures !Available(c.vout, i) { BeyondMask(c.vout, i); }
    SelectedIsSame(c.vout, 2 + 8 * m);
    CodeOfUnpacks(c);
  }

  lemma Regrouped(a: seq<Byte>, b: seq<Byte>, c: seq<Byte>, d: seq<Byte>, t: seq<Byte>)
    ensures a + b + c + d + t == a + (b + (c + (d + t)))
  {
  }

  /** Reading what was written gives the coins without their spent outputs at the end. */
  lemma ReadWrite(codec: Codec, c: Coins, t: seq<Byte>)
    requires Inverse(codec) && Storable(c.vout) && !Pruned(c.vout) && Representable(c)
    ensures Read(codec, Write(codec, c) + t) == Some(Parsed(Recovered(c), t))
  {
    var s := WriteOutputs(codec, c.vout) + (Encode(c.height) + t);
    Regrouped(Encode(c.version), Encode(CodeOf(c)), WriteOutputs(codec, c.vout), Encode(c.height), t);
    StoredIsRead(c.version, Encode(CodeOf(c)) + s);
    CodeFits(c);
    RoundTrip(UINT, CodeOf(c), s);
    BodyIsRead(codec, c, t);
  }

  /** Coins survive exactly when their spent outputs are as SetNull leaves them and none is at the end,
      and the version and the height are not negative. */
  lemma SurvivesExactly(codec: Codec, c: Coins, t: seq<Byte>)
    requires Inverse(codec) && Storable(c.vout) && !Pruned(c.vout) && Representable(c)
    ensures Read(codec, Write(codec, c) + t) == Some(Parsed(c, t)) <==>
      Canonical(c.vout) && !c.vout[|c.vout| - 1].IsNull() && c.version >= 0 && c.height >= 0
  {
    ReadWrite(codec, c, t);
    RecoveredIsSame(c);
  }

  /** Coins of version -1: what is written is one byte, and what is read is version 127. */
  lemma NegativeVersionIsLost(codec: Codec, out: TxOut, t: seq<Byte>)
    requires Inverse(codec) && Recordable(out)
    ensures var c := Coins(false, [out], 0, -1);
      Available(c.vout, 0) && Read(codec, Write(codec, c) + t) == Some(Parsed(c.(version := 127), t))
  {
    var c := Coins(false, [out], 0, -1);
    assert Available(c.vout, 0);
    ReadWrite(codec, c, t);
    NormalisedCleaned(c.vout);
  }

  lemma RecoveredIsSame(c: Coins)
    requires |c.vout| > 0
    ensures Recovered(c) == c <==>
      Canonical(c.vout) && !c.vout[|c.vout| - 1].IsNull() && c.version >= 0 && c.height >= 0
  {
    NormalisedCleaned(c.vout);
  }

  lemma NormalisedCleaned(vout: seq<TxOut>)
    requires |vout| > 0
    ensures Normalised(Cleaned(vout)) == vout <==> Canonical(vout) && !vout[|vout| - 1].IsNull()
  {
    var r := Normalised(Cleaned(vout));
    if Canonical(vout) && !vout[|vout| - 1].IsNull() {
      CanonicalIsNormal(vout);
      assert Cleaned(vout) == vout;
    }
    if r == vout {
      forall i | 0 <= i < |vout| && vout[i].IsNull() ensures vout[i] == NULL_OUT {
        assert vout[i] == Normal(Cleaned(vout)[i]);
      }
    }
  }
}
