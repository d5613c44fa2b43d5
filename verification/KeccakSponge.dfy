/** The streaming interface of src/keccak.c against the sponge construction of section 4 of FIPS 202
    with the padding pad10*1 of its section 5.1. A byte is its eight bits, the lowest one first. */
module KeccakSponge {
  import opened KeccakSpec
  import opened KeccakCode
  import opened Arithmetic
  import opened Buffers

  // ----- specification -----

  /** Section 5.1: what is added to m bits before they are cut into blocks of x bits. */
  function Pad10Star1(x: nat, m: nat): seq<bool>
    requires x > 0
  {
    var zeros: int := (-(m as int) - 2) % x;
    [true] + Zeros(zeros) + [true]
  }

  /** Section 3.1.2: bit 64*k + z of a string is bit z of lane k. */
  function XorLane(a: Lanes, block: seq<bool>, k: nat): Word
    requires k < 25
  {
    if 64 * k + 64 <= |block| then Xor(a[k], block[64 * k..64 * k + 64]) else a[k]
  }

  function XorBlock(a: Lanes, block: seq<bool>): Lanes {
    seq(25, k requires 0 <= k < 25 => XorLane(a, block, k))
  }

  /** Section 4: the whole blocks of r bits of a string are absorbed in turn. */
  function Absorb(f: Lanes -> Lanes, a: Lanes, bits: seq<bool>, r: nat): Lanes
    requires r > 0
    decreases |bits|
  {
    if |bits| < r then a else Absorb(f, f(XorBlock(a, bits[..r])), bits[r..], r)
  }

  const ZERO: Lanes := Mask({})

  /** The state after the padded message has been absorbed. */
  function Absorbed(f: Lanes -> Lanes, message: seq<bool>, r: nat): Lanes
    requires r > 0
  {
    Absorb(f, ZERO, message + Pad10Star1(r, |message|), r)
  }

  function LaneBytes(a: Lanes, i: nat): Byte
    requires i < 200
  {
    a[i / 8][8 * (i % 8)..8 * (i % 8) + 8]
  }

  /** The first d bytes of the string that a state stands for. */
  function Squeezed(a: Lanes, d: nat): seq<Byte>
    requires d <= 200
  {
    seq(d, i requires 0 <= i < d => LaneBytes(a, i))
  }

  // ----- the specification bit by bit -----

  /** The padding is a one, as few zeros as make whole blocks, and a one. */
  lemma PadBits(x: nat, m: nat)
    requires x > 0
    ensures var p := Pad10Star1(x, m);
      && 2 <= |p| < x + 2 && (m + |p|) % x == 0 && p[0] && p[|p| - 1]
      && forall i :: 0 < i < |p| - 1 ==> !p[i]
  {
    var n: int := -(m as int) - 2;
    assert n == n / x * x + n % x;
    assert m + 2 + n % x == -(n / x) * x;
    AddMultiple(0, x, -(n / x));
  }

  /** Bit 64*k + z of a block goes to bit z of lane k. */
  lemma BlockBits(a: Lanes, block: seq<bool>, k: nat, z: nat)
    requires k < 25 && z < 64
    ensures XorBlock(a, block)[k][z] ==
      if 64 * (k + 1) <= |block| then a[k][z] != block[64 * k + z] else a[k][z]
  {
    assert XorBlock(a, block)[k] == XorLane(a, block, k);
  }

  /** Bit i of the output is bit i % 64 of lane i / 64. */
  lemma SqueezedBits(a: Lanes, d: nat, i: nat)
    requires d <= 200 && i < 8 * d
    ensures Flatten(Squeezed(a, d))[i] == a[i / 64][i % 64]
  {
    assert i / 8 / 8 == i / 64 && 8 * (i / 8 % 8) + i % 8 == i % 64;
    assert Squeezed(a, d)[i / 8] == LaneBytes(a, i / 8);
  }

  // ----- absorbing -----

  lemma {:induction false} AbsorbBlock(f: Lanes -> Lanes, a: Lanes, x: seq<bool>, y: seq<bool>, r: nat)
    requires r > 0 && |x| % r == 0 && |y| == r
    ensures Absorb(f, a, x + y, r) == f(XorBlock(Absorb(f, a, x, r), y))
    decreases |x|
  {
    if |x| == 0 {
      assert x + y == y && y[..r] == y && y[r..] == [];
    } else {
      assert |x| >= r;
      assert (x + y)[..r] == x[..r] && (x + y)[r..] == x[r..] + y;
      AddMultiple(|x|, r, -1);
      AbsorbBlock(f, f(XorBlock(a, x[..r])), x[r..], y, r);
    }
  }

  // ----- padding -----

  /** The bits of eb: n bits of the last byte, then a one. */
  function LastBits(ub: Byte, n: nat): Byte
    requires n < 8
  {
    (ub + [true] + Zeros(7))[8 - n..16 - n]
  }

  const HIGH_BIT: Byte := [false, false, false, false, false, false, false, true]

  function NoBytes(n: nat): (s: seq<Byte>)
    ensures |s| == n
  {
    seq(n, _ => NO_BITS)
  }

  /** The bytes that close the message when ptr bytes are in the buffer. */
  function Tail(ub: Byte, n: nat, ptr: nat, lim: nat): (tmp: seq<Byte>)
    requires n < 8 && ptr < lim
  {
    var eb := LastBits(ub, n);
    if ptr == lim - 1 then
      if n == 7 then [eb] + NoBytes(lim - 1) + [HIGH_BIT] else [eb[7 := true]]
    else
      [eb] + NoBytes(lim - ptr - 2) + [HIGH_BIT]
  }

  function Padding(zeros: nat): (bits: seq<bool>)
    ensures |bits| == zeros + 2
  {
    [true] + Zeros(zeros) + [true]
  }

  lemma LongTail(ub: Byte, n: nat, k: nat)
    requires n < 8
    ensures Flatten([LastBits(ub, n)] + NoBytes(k) + [HIGH_BIT]) == ub[8 - n..] + Padding(8 * k + 14 - n)
  {
    var s := [LastBits(ub, n)] + NoBytes(k) + [HIGH_BIT];
    var t := ub[8 - n..] + Padding(8 * k + 14 - n);
    forall i | 0 <= i < 8 * k + 16 ensures Flatten(s)[i] == t[i] {
      if i < 8 {
      } else if i < 8 * k + 8 {
        assert s[i / 8] == NO_BITS;
      } else {
        assert s[i / 8] == HIGH_BIT;
      }
    }
  }

  lemma ShortTail(ub: Byte, n: nat)
    requires n < 7
    ensures Flatten([LastBits(ub, n)[7 := true]]) == ub[8 - n..] + Padding(6 - n)
  {
  }

  lemma PaddingIsPad10Star1(m: nat, zeros: nat, x: nat, q: nat)
    requires zeros < x && m + zeros + 2 == q * x
    ensures Padding(zeros) == Pad10Star1(x, m)
  {
    var k := -(q as int);
    assert k * x == -(q * x);
    QuotientIsUnique(-(m as int) - 2, x, k, zeros);
  }

  lemma TailFits(m: seq<Byte>, tmp: seq<Byte>, rest: seq<bool>, zeros: nat, lim: nat, q: nat)
    requires lim > 0 && zeros < 8 * lim && |m| + |tmp| == q * lim
    requires Flatten(tmp) == rest + Padding(zeros)
    ensures (|m| + |tmp|) % lim == 0
    ensures Flatten(m + tmp) == Flatten(m) + rest + Pad10Star1(8 * lim, |Flatten(m) + rest|)
  {
    var message := Flatten(m) + rest;
    AddMultiple(0, lim, q);
    assert q * (8 * lim) == 8 * (q * lim);
    PaddingIsPad10Star1(|message|, zeros, 8 * lim, q);
    FlattenAppend(m, tmp);
    assert Flatten(m) + (rest + Padding(zeros)) == message + Padding(zeros);
  }

  lemma SecondMultiple(q: nat, lim: nat)
    ensures (q + 1) * lim == q * lim + lim && (q + 2) * lim == q * lim + lim + lim
  {
  }

  lemma FullTailPads(m: seq<Byte>, ub: Byte, n: nat, lim: nat, q: nat)
    requires n < 8 && lim > 1 && |m| == q * lim + lim - 1
    ensures var tmp := Tail(ub, n, lim - 1, lim);
      var message := Flatten(m) + ub[8 - n..];
      && (|m| + |tmp|) % lim == 0
      && Flatten(m + tmp) == message + Pad10Star1(8 * lim, |message|)
  {
    var tmp := Tail(ub, n, lim - 1, lim);
    SecondMultiple(q, lim);
    if n < 7 {
      ShortTail(ub, n);
      TailFits(m, tmp, ub[8 - n..], 6 - n, lim, q + 1);
    } else {
      LongTail(ub, n, lim - 1);
      assert 8 * (lim - 1) + 14 - n == 8 * lim - 1 && |tmp| == lim + 1;
      TailFits(m, tmp, ub[8 - n..], 8 * lim - 1, lim, q + 2);
    }
  }

  /** The closing bytes are the remaining bits and the padding of the whole message. */
  lemma TailPads(m: seq<Byte>, ub: Byte, n: nat, lim: nat)
    requires n < 8 && lim > 1
    ensures var tmp := Tail(ub, n, |m| % lim, lim);
      var message := Flatten(m) + ub[8 - n..];
      && (|m| + |tmp|) % lim == 0
      && Flatten(m + tmp) == message + Pad10Star1(8 * lim, |message|)
  {
    var ptr := |m| % lim;
    var q := |m| / lim;
    assert |m| == q * lim + ptr;
    if ptr == lim - 1 { FullTailPads(m, ub, n, lim, q); } else { PartTailPads(m, ub, n, lim, q, ptr); }
  }

  lemma PartTailPads(m: seq<Byte>, ub: Byte, n: nat, lim: nat, q: nat, ptr: nat)
    requires n < 8 && ptr + 1 < lim && |m| == q * lim + ptr
    ensures var tmp := Tail(ub, n, ptr, lim);
      var message := Flatten(m) + ub[8 - n..];
      && (|m| + |tmp|) % lim == 0
      && Flatten(m + tmp) == message + Pad10Star1(8 * lim, |message|)
  {
    var k := lim - ptr - 2;
    SecondMultiple(q, lim);
    LongTail(ub, n, k);
    var tmp := Tail(ub, n, ptr, lim);
    assert |tmp| == k + 2;
    TailFits(m, tmp, ub[8 - n..], 8 * k + 14 - n, lim, q + 1);
  }

  // ----- the context -----

  lemma InputLane(a: Word, m: Word, b: Word)
    ensures Xor(Xor(a, b), m) == Xor(Xor(a, m), b)
  {
  }

  /** Adding a block to registers kept complemented adds it to the lanes. */
  lemma InputOfComplemented(before: seq<Word>, after: seq<Word>, block: seq<bool>)
    requires |before| == |after| == 25
    requires forall k :: 0 <= k < 25 ==> after[k] == XorLane(before, block, k)
    ensures Uncomplemented(after) == XorBlock(Uncomplemented(before), block)
  {
    var m := Mask(COMPLEMENTED);
    forall k | 0 <= k < 25 ensures Xored(after, m)[k] == XorBlock(Xored(before, m), block)[k] {
      if 64 * k + 64 <= |block| { InputLane(before[k], m[k], block[64 * k..64 * k + 64]); }
    }
  }

  /** Feeding one more whole block. */
  lemma AbsorbNext(f: Lanes -> Lanes, m: seq<Byte>, block: seq<Byte>, lim: nat)
    requires lim > 0 && |m| % lim == 0 && |block| == lim
    ensures Absorb(f, ZERO, Flatten(m + block), 8 * lim) ==
      f(XorBlock(Absorb(f, ZERO, Flatten(m), 8 * lim), Flatten(block)))
  {
    FlattenAppend(m, block);
    var q := |m| / lim;
    assert 8 * |m| == q * (8 * lim);
    AddMultiple(0, 8 * lim, q);
    AbsorbBlock(f, ZERO, Flatten(m), Flatten(block), 8 * lim);
  }

  /** Writes the closing bytes into tmp and says how many they are. */
  method BuildTail(tmp: array<Byte>, ub: Byte, n: nat, ptr: nat, lim: nat) returns (j: nat)
    requires n < 8 && ptr < lim && tmp.Length == lim + 1
    modifies tmp
    ensures j <= tmp.Length && tmp[..j] == Tail(ub, n, ptr, lim)
  {
    var eb := LastBits(ub, n);
    if ptr == lim - 1 {
      if n == 7 {
        tmp[0] := eb;
        forall i | 1 <= i < lim { tmp[i] := NO_BITS; }
        tmp[lim] := HIGH_BIT;
        j := 1 + lim;
      } else {
        tmp[0] := eb[7 := true];
        j := 1;
      }
    } else {
      j := lim - ptr;
      tmp[0] := eb;
      forall i | 1 <= i < j - 1 { tmp[i] := NO_BITS; }
      tmp[j - 1] := HIGH_BIT;
    }
  }

  lemma XorFlag(a: Word)
    ensures Xor(a, Flag(true)) == Not(a) && Xor(a, Flag(false)) == a
  {
  }

  /** Complements the six lanes that were kept complemented. */
  method FinalComplement(wide: array<Word>)
    requires wide.Length == 25
    modifies wide
    ensures wide[..] == Uncomplemented(old(wide[..]))
  {
    ghost var a := wide[..];
    wide[1] := Not(wide[1]);
    wide[2] := Not(wide[2]);
    wide[8] := Not(wide[8]);
    wide[12] := Not(wide[12]);
    wide[17] := Not(wide[17]);
    wide[20] := Not(wide[20]);
    forall k | 0 <= k < 25 ensures wide[k] == Uncomplemented(a)[k] { XorFlag(a[k]); }
  }

  function WordBytes(a: Word): seq<Byte> {
    seq(8, i requires 0 <= i < 8 => a[8 * i..8 * i + 8])
  }

  lemma WordIsLane(a: seq<Word>, j: nat)
    requires |a| == 25 && j < 200 && j % 8 == 0
    ensures forall i :: j <= i < j + 8 ==> WordBytes(a[j / 8])[i - j] == LaneBytes(a, i)
  {
    forall i | j <= i < j + 8 ensures WordBytes(a[j / 8])[i - j] == LaneBytes(a, i) {
      assert i / 8 == j / 8 && i % 8 == i - j;
    }
  }

  /** The digest: lanes in little-endian order, cut to d bytes. */
  method Digest(wide: array<Word>, tmp: array<Byte>, d: nat) returns (dst: seq<Byte>)
    requires wide.Length == 25 && d <= 64 && tmp.Length >= 72
    modifies tmp
    ensures dst == Squeezed(wide[..], d)
  {
    var j := 0;
    while j < d
      invariant j % 8 == 0 && j <= d + 7
      invariant forall i :: 0 <= i < j ==> tmp[i] == LaneBytes(wide[..], i)
    {
      var bytes := WordBytes(wide[j / 8]);
      WordIsLane(wide[..], j);
      CopyInto(tmp, j, bytes);
      j := j + 8;
    }
    dst := tmp[..d];
  }

  lemma StartOfComplemented(regs: seq<Word>)
    requires |regs| == 25 && forall k :: 0 <= k < 25 ==> regs[k] == Flag(k in COMPLEMENTED)
    ensures Uncomplemented(regs) == ZERO
  {
    forall k | 0 <= k < 25 ensures Uncomplemented(regs)[k] == ZERO[k] {
      XorFlags(k in COMPLEMENTED, k in COMPLEMENTED);
    }
  }

  lemma LaneOfBlock(buf: seq<Byte>, lim: nat, k: nat)
    requires lim <= |buf| && 8 * k + 8 <= lim
    ensures Flatten(buf[8 * k..8 * k + 8]) == Flatten(buf[..lim])[64 * k..64 * k + 64]
  {
    FlattenSlice(buf[..lim], 8 * k, 8 * k + 8);
    SliceOfPrefix(buf, lim, 8 * k, 8 * k + 8);
  }

  /** The registers of a context that has been fed nothing. */
  method ClearRegisters(wide: array<Word>)
    requires wide.Length == 25
    modifies wide
    ensures Uncomplemented(wide[..]) == ZERO
  {
    forall k | 0 <= k < 25 { wide[k] := Flag(false); }
    wide[1] := Flag(true);
    wide[2] := Flag(true);
    wide[8] := Flag(true);
    wide[12] := Flag(true);
    wide[17] := Flag(true);
    wide[20] := Flag(true);
    StartOfComplemented(wide[..]);
  }

  class Context {
    const buf: array<Byte>
    const wide: array<Word>
    var ptr: nat
    var lim: nat

    ghost predicate Shape()
      reads this
    {
      buf.Length == 144 && wide.Length == 25 && lim in {144, 136, 104, 72} && lim % 8 == 0
    }

    /** The context has been fed the bytes m, lim bytes a block. */
    ghost predicate Holds(f: Lanes -> Lanes, m: seq<Byte>)
      reads this, buf, wide
    {
      && Shape()
      && ptr < lim
      && buf[..ptr] == Rest(m, lim)
      && Uncomplemented(wide[..]) == Absorb(f, ZERO, Flatten(Whole(m, lim)), 8 * lim)
    }

    constructor (outSize: nat)
      requires outSize in {224, 256, 384, 512}
      ensures lim == 200 - outSize / 4 && Holds(KeccakF, [])
      ensures fresh(buf) && fresh(wide)
    {
      buf := new Byte[144](_ => NO_BITS);
      wide := new Word[25](_ => Flag(false));
      ptr, lim := 0, 144;
      new;
      Init(outSize);
    }

    /** INPUT_BUF. */
    method InputBuf()
      requires Shape()
      modifies wide
      ensures Uncomplemented(wide[..]) == XorBlock(Uncomplemented(old(wide[..])), Flatten(buf[..lim]))
    {
      ghost var before := wide[..];
      ghost var block := Flatten(buf[..lim]);
      var j := 0;
      ghost var lane := 0;
      while j < lim
        invariant j == 8 * lane <= lim
        invariant forall k :: 0 <= k < lane ==> wide[k] == XorLane(before, block, k)
        invariant forall k :: lane <= k < 25 ==> wide[k] == before[k]
      {
        var input := Flatten(buf[j..j + 8]);
        assert input == block[64 * lane..64 * lane + 64] by {
          LaneOfBlock(buf[..], lim, lane);
          assert buf[..][8 * lane..8 * lane + 8] == buf[j..j + 8] && buf[..][..lim] == buf[..lim];
        }
        assert j / 8 == lane;
        wide[j / 8] := Xor(wide[j / 8], input);
        j := j + 8;
        lane := lane + 1;
      }
      InputOfComplemented(before, wide[..], block);
    }

    /** A full buffer goes through the permutation. */
    method Permute(ghost m: seq<Byte>)
      requires Shape() && |m| % lim == 0
      requires Uncomplemented(wide[..]) == Absorb(KeccakF, ZERO, Flatten(m), 8 * lim)
      modifies wide
      ensures Uncomplemented(wide[..]) == Absorb(KeccakF, ZERO, Flatten(m + buf[..lim]), 8 * lim)
    {
      AbsorbNext(KeccakF, m, buf[..lim], lim);
      InputBuf();
      KeccakF1600(wide);
    }

    /** One pass of the loop of keccak_core: fills the buffer as far as the data and lim allow. */
    method Feed(chunk: seq<Byte>, ghost m: seq<Byte>)
      requires Holds(KeccakF, m) && |chunk| <= lim - ptr
      modifies this`ptr, buf, wide
      ensures Holds(KeccakF, m + chunk)
    {
      WholeBlocks(m, lim);
      CopyInto(buf, ptr, chunk);
      ptr := ptr + |chunk|;
      assert buf[..ptr] == Rest(m, lim) + chunk;
      if ptr == lim {
        FilledUp(m, chunk, lim);
        Permute(Whole(m, lim));
        ptr := 0;
      } else {
        PartlyFilled(m, chunk, lim);
      }
    }

    /** keccak_core. */
    method Core(data: seq<Byte>, ghost m: seq<Byte>)
      requires Holds(KeccakF, m)
      modifies this`ptr, buf, wide
      ensures Holds(KeccakF, m + data)
    {
      if |data| < lim - ptr {
        Feed(data, m);
        return;
      }
      var rest := data;
      ghost var fed := m;
      while |rest| > 0
        invariant Holds(KeccakF, fed) && fed + rest == m + data
      {
        var clen := lim - ptr;
        if clen > |rest| { clen := |rest|; }
        Feed(rest[..clen], fed);
        fed := fed + rest[..clen];
        rest := rest[clen..];
      }
      assert fed == m + data;
    }

    /** keccak_init. */
    method Init(outSize: nat)
      requires buf.Length == 144 && wide.Length == 25 && outSize in {224, 256, 384, 512}
      modifies this, wide
      ensures lim == 200 - outSize / 4
      ensures forall f :: Holds(f, [])
    {
      ClearRegisters(wide);
      ptr := 0;
      lim := 200 - outSize / 4;
      assert lim in {144, 136, 104, 72};
    }

    /** DEFCLOSE: closes the message with n more bits and starts again. */
    method Close(ub: Byte, n: nat, d: nat, ghost m: seq<Byte>) returns (dst: seq<Byte>)
      requires Holds(KeccakF, m) && n < 8 && d in {28, 32, 48, 64} && lim == 200 - 2 * d
      modifies this, buf, wide
      ensures dst == Squeezed(Absorbed(KeccakF, Flatten(m) + ub[8 - n..], 8 * old(lim)), d)
      ensures Holds(KeccakF, []) && lim == old(lim)
    {
      var tmp := new Byte[lim + 1](_ => NO_BITS);
      var j := BuildTail(tmp, ub, n, ptr, lim);
      WholeBlocks(m, lim);
      TailPads(m, ub, n, lim);
      Core(tmp[..j], m);
      assert Whole(m + tmp[..j], lim) == m + tmp[..j];
      FinalComplement(wide);
      dst := Digest(wide, tmp, d);
      Init(8 * d);
    }
  }

  /** A message in two pieces and n more bits: the digest does not depend on where it is cut. */
  method Hash(d: nat, a: seq<Byte>, b: seq<Byte>, ub: Byte, n: nat) returns (dst: seq<Byte>)
    requires d in {28, 32, 48, 64} && n < 8
    ensures dst == Squeezed(Absorbed(KeccakF, Flatten(a + b) + ub[8 - n..], 8 * (200 - 2 * d)), d)
  {
    var context := new Context(8 * d);
    context.Core(a, []);
    assert [] + a == a;
    context.Core(b, a);
    dst := context.Close(ub, n, d, a + b);
  }
}
