/** CCoins (src/core.h, src/core.cpp). */
module CoinsCode {
  import opened Wrappers
  import opened Words
  import opened Arithmetic
  import opened VarInt
  import opened TxOuts
  import opened CoinsFormat
  import opened Spending

  class CCoins {
    var coinBase: bool
    var vout: seq<TxOut>
    var height: int
    var version: int

    ghost function View(): Coins
      reads this
    {
      Coins(coinBase, vout, height, version)
    }

    constructor ()
      ensures View() == Coins(false, [], 0, 0)
    {
      coinBase, vout, height, version := false, [], 0, 0;
    }

    /** Removes spent outputs at the end. */
    method Cleanup()
      modifies this`vout
      ensures vout == Cleaned(old(vout))
    {
      while |vout| > 0 && vout[|vout| - 1].IsNull()
        invariant Cleaned(vout) == Cleaned(old(vout))
        decreases |vout|
      {
        vout := vout[..|vout| - 1];
      }
    }

    /** Whether byte b of the mask is zero. */
    method IsZeroByte(b: nat) returns (zero: bool)
      ensures zero <==> MaskByte(vout, b) == 0
    {
      zero := true;
      var i := 0;
      while i < 8 && 2 + b * 8 + i < |vout|
        invariant i <= 8
        invariant zero <==> forall j :: 2 + 8 * b <= j < 2 + 8 * b + i ==> !Available(vout, j)
      {
        if !vout[2 + b * 8 + i].IsNull() {
          assert Available(vout, 2 + 8 * b + i);
          zero := false;
        }
        i := i + 1;
      }
      ZeroByte(vout, b);
    }

    /** The length of the mask and how many of its bytes are not zero. */
    method CalcMaskSize() returns (bytes: nat, nonzero: nat)
      requires FewOutputs(vout)
      ensures bytes == MaskSize(vout, AllBytes(vout)) && nonzero == NonzeroBytes(vout, AllBytes(vout))
    {
      bytes, nonzero := 0, 0;
      var b := 0;
      ghost var n := AllBytes(vout);
      ByteFits(vout, b);
      while 2 + b * 8 < |vout|
        invariant FewOutputs(vout) && b <= n && (2 + b * 8 < |vout| <==> b < n)
        invariant bytes == MaskSize(vout, b) && nonzero == NonzeroBytes(vout, b)
      {
        var zero := IsZeroByte(b);
        if !zero {
          bytes := b + 1;
          nonzero := nonzero + 1;
        }
        b := b + 1;
        ByteFits(vout, b);
      }
    }

    method HeaderCode(nonzero: nat) returns (code: nat)
      requires !Pruned(vout) && nonzero == NonzeroBytes(vout, AllBytes(vout))
      ensures code == CodeOf(View())
      ensures FewOutputs(vout) ==> code < UINT
    {
      if FewOutputs(vout) { CodeFits(View()); }
      var first := |vout| > 0 && !vout[0].IsNull();
      var second := |vout| > 1 && !vout[1].IsNull();
      SomethingIsMasked(vout);
      assert first || second || nonzero > 0;
      code := 8 * (nonzero - (if first || second then 0 else 1)) + (if coinBase then 1 else 0)
        + (if first then 2 else 0) + (if second then 4 else 0);
    }

    /** Byte b of the mask, bit by bit. */
    method AvailableByte(b: nat) returns (c: Byte)
      ensures c == MaskByte(vout, b)
    {
      var n := 0;
      var i := 0;
      ghost var e := Eight(vout, b);
      while i < 8 && 2 + b * 8 + i < |vout|
        invariant i <= 8 && n == Number(e[..i])
      {
        NumberOfMore(e, i);
        assert e[i] == Available(vout, 2 + 8 * b + i);
        if !vout[2 + b * 8 + i].IsNull() { n := n + Pow2(i); }
        i := i + 1;
      }
      forall j | i <= j < 8 ensures !e[j] { assert !Available(vout, 2 + 8 * b + j); }
      NumberOfPadded(e, i);
      assert Pow2(8) == 256;
      c := n;
    }

    /** Marks output n spent, if it is available, and keeps what is needed to undo that. */
    method Spend(n: nat) returns (ok: bool, undo: Undo)
      modifies this`vout
      ensures ok <==> Available(old(vout), n)
      ensures !ok ==> View() == old(View())
      ensures ok ==> (View(), undo) == Spent(old(View()), n)
    {
      undo := Undo(NULL_OUT, false, 0, 0);
      if n >= |vout| { return false, undo; }
      if vout[n].IsNull() { return false, undo; }
      undo := undo.(txout := vout[n]);
      vout := vout[n := NULL_OUT];
      Cleanup();
      if |vout| == 0 {
        undo := undo.(height := height % UINT);
        undo := undo.(coinBase := coinBase);
        undo := undo.(version := version);
      }
      ok := true;
    }

    /** Puts output n back (the inner loop of DisconnectBlock); `clean` tells whether that was plausible. */
    method Restore(undo: Undo, n: nat) returns (clean: bool)
      modifies this
      ensures (View(), clean) == Restored(old(View()), undo, n)
    {
      clean := true;
      var pruned := IsPruned();
      if undo.height != 0 {
        if !pruned { clean := false; }
        vout := [];
        coinBase := undo.coinBase;
        height := AsInt(undo.height);
        version := undo.version;
      } else {
        if pruned { clean := false; }
      }
      if n < |vout| && !vout[n].IsNull() { clean := false; }
      if |vout| < n + 1 { vout := vout + Nulls(n + 1 - |vout|); }
      vout := vout[n := undo.txout];
    }

    method IsPruned() returns (pruned: bool)
      ensures pruned <==> Pruned(vout)
    {
      var i := 0;
      while i < |vout|
        invariant i <= |vout| && forall j :: 0 <= j < i ==> !Available(vout, j)
      {
        if !vout[i].IsNull() {
          assert Available(vout, i);
          return false;
        }
        i := i + 1;
      }
      pruned := true;
    }

    /** Writes coins that are not entirely spent. */
    method Serialize(codec: Codec) returns (s: seq<Byte>)
      requires !Pruned(vout) && FewOutputs(vout)
      ensures s == Write(codec, View())
    {
      var size, nonzero := CalcMaskSize();
      var code := HeaderCode(nonzero);
      s := Encode(version) + Encode(code);
      var mask := SerializeMask(size);
      var outs := SerializeOuts(codec);
      s := s + (mask + outs) + Encode(height);
    }

    method SerializeMask(size: nat) returns (s: seq<Byte>)
      ensures s == Mask(vout, size)
    {
      s := [];
      var b := 0;
      while b < size
        invariant b <= size && s == Mask(vout, b)
      {
        var c := AvailableByte(b);
        s := s + [c];
        b := b + 1;
      }
    }

    method SerializeOuts(codec: Codec) returns (s: seq<Byte>)
      ensures s == WriteOuts(codec, vout)
    {
      s := [];
      var i := 0;
      while i < |vout|
        invariant i <= |vout| && s + WriteOuts(codec, vout[i..]) == WriteOuts(codec, vout)
      {
        assert vout[i..][1..] == vout[i + 1..];
        if !vout[i].IsNull() { s := s + codec.put(vout[i]); }
        i := i + 1;
      }
    }

    /** The length of what Serialize writes. */
    method GetSerializeSize(codec: Codec) returns (size: nat)
      requires !Pruned(vout) && FewOutputs(vout)
      ensures size == |Write(codec, View())|
    {
      var maskSize, nonzero := CalcMaskSize();
      var code := HeaderCode(nonzero);
      var versionSize := GetSizeOfVarInt(version);
      var codeSize := GetSizeOfVarInt(code);
      size := versionSize + codeSize + maskSize;
      var i := 0;
      while i < |vout|
        invariant i <= |vout|
        invariant size + |WriteOuts(codec, vout[i..])| == versionSize + codeSize + maskSize + |WriteOuts(codec, vout)|
      {
        assert vout[i..][1..] == vout[i + 1..];
        if !vout[i].IsNull() { size := size + |codec.put(vout[i])|; }
        i := i + 1;
      }
      var heightSize := GetSizeOfVarInt(height);
      size := size + heightSize;
    }

    /** Reads coins; the rest of the stream, or nothing when it ends too early. */
    method Unserialize(codec: Codec, s: seq<Byte>) returns (r: Option<seq<Byte>>)
      modifies this
      ensures r.Some? <==> Read(codec, s).Some?
      ensures r.Some? ==> View() == Read(codec, s).value.value && r.value == Read(codec, s).value.rest
    {
      var v := ReadVarSigned(s);
      if v.None? { return None; }
      version := v.value.value;
      var h := ReadVarInt(UINT, v.value.rest);
      if h.None? { return None; }
      r := UnserializeBody(codec, h.value.rest, h.value.value);
    }

    method UnserializeBody(codec: Codec, s: seq<Byte>, code: nat) returns (r: Option<seq<Byte>>)
      modifies this
      ensures r.Some? <==> ReadBody(codec, s, old(version), code).Some?
      ensures r.Some? ==>
        View() == ReadBody(codec, s, old(version), code).value.value &&
          r.value == ReadBody(codec, s, old(version), code).value.rest
    {
      coinBase := code % 2 == 1;
      var avail := [code / 2 % 2 == 1, code / 4 % 2 == 1];
      var left := code / 8 + if avail[0] || avail[1] then 0 else 1;
      var mask := UnserializeMask(s, left, avail);
      if mask.None? { return None; }
      var outs := UnserializeOuts(codec, mask.value.rest, mask.value.avail);
      if outs.None? { return None; }
      var g := ReadVarSigned(outs.value);
      if g.None? { return None; }
      height := g.value.value;
      Cleanup();
      r := Some(g.value.rest);
    }

    static method AppendBits(c: Byte, before: seq<bool>) returns (avail: seq<bool>)
      ensures avail == before + Bits(c, 8)
    {
      avail := before;
      var p := 0;
      while p < 8
        invariant p <= 8 && avail == before + Bits(c, 8)[..p]
      {
        BitAt(c, 8, p);
        avail := avail + [c / Pow2(p) % 2 == 1];
        p := p + 1;
      }
      assert Bits(c, 8)[..p] == Bits(c, 8);
    }

    static method UnserializeMask(s: seq<Byte>, nonzero: nat, first: seq<bool>) returns (r: Option<Parsed2>)
      ensures r == ReadMask(s, nonzero, first)
    {
      var rest, left, avail := s, nonzero, first;
      while left > 0
        invariant ReadMask(s, nonzero, first) == ReadMask(rest, left, avail)
        decreases |rest|
      {
        if |rest| == 0 { return None; }
        var c := rest[0];
        rest := rest[1..];
        avail := AppendBits(c, avail);
        if c != 0 { left := left - 1; }
      }
      r := Some(Parsed2(avail, rest));
    }

    method UnserializeOuts(codec: Codec, s: seq<Byte>, avail: seq<bool>) returns (r: Option<seq<Byte>>)
      modifies this`vout
      ensures r.Some? <==> ReadOuts(codec, s, avail).Some?
      ensures r.Some? ==>
        vout == ReadOuts(codec, s, avail).value.value && r.value == ReadOuts(codec, s, avail).value.rest
    {
      vout := seq(|avail|, _ => NULL_OUT);
      var rest := s;
      var i := 0;
      assert avail[i..] == avail;
      PrefixedNone(ReadOuts(codec, s, avail));
      while i < |avail|
        invariant i <= |avail| == |vout| && (forall j :: i <= j < |vout| ==> vout[j] == NULL_OUT)
        invariant ReadOuts(codec, s, avail) == Prefixed(vout[..i], ReadOuts(codec, rest, avail[i..]))
      {
        assert avail[i..][1..] == avail[i + 1..];
        var out := NULL_OUT;
        if avail[i] {
          var o := codec.get(rest);
          if o.None? { return None; }
          out := o.value.value;
          rest := o.value.rest;
        }
        PrefixedMore(vout[..i], out, ReadOuts(codec, rest, avail[i + 1..]));
        vout := vout[i := out];
        assert vout[..i + 1] == vout[..i] + [out];
        i := i + 1;
      }
      assert vout[..i] == vout;
      r := Some(rest);
    }
  }

  lemma ByteFits(vout: seq<TxOut>, b: nat)
    ensures 2 + b * 8 < |vout| <==> b < AllBytes(vout)
  {
  }

  lemma NumberOfMore(e: seq<bool>, i: nat)
    requires i < |e|
    ensures Number(e[..i + 1]) == Number(e[..i]) + Bit(e[i], Pow2(i))
  {
    assert e[..i + 1] == e[..i] + [e[i]];
    NumberAppend(e[..i], e[i]);
  }

  lemma {:induction false} NumberOfPadded(e: seq<bool>, i: nat)
    requires i <= |e| && forall j :: i <= j < |e| ==> !e[j]
    ensures Number(e) == Number(e[..i])
    decreases |e| - i
  {
    if i < |e| {
      NumberOfPadded(e, i + 1);
      NumberAppend(e[..i], e[i]);
      assert e[..i + 1] == e[..i] + [e[i]];
    } else {
      assert e[..i] == e;
    }
  }

  function Prefixed(a: seq<TxOut>, r: Option<Parsed<seq<TxOut>>>): Option<Parsed<seq<TxOut>>> {
    if r.None? then None else Some(Parsed(a + r.value.value, r.value.rest))
  }

  lemma PrefixedNone(r: Option<Parsed<seq<TxOut>>>)
    ensures Prefixed([], r) == r
  {
    if r.Some? { assert [] + r.value.value == r.value.value; }
  }

  lemma PrefixedMore(a: seq<TxOut>, out: TxOut, r: Option<Parsed<seq<TxOut>>>)
    ensures Prefixed(a, Prefixed([out], r)) == Prefixed(a + [out], r)
  {
    if r.Some? { assert a + ([out] + r.value.value) == a + [out] + r.value.value; }
  }
}
