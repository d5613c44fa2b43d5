/** The streaming interface of BLAKE-224 and BLAKE-256 (src/blake.c): padding and the counter of message
    bits. The compression function is any function of the chaining value, a block of 512 bits and the
    64-bit counter. A byte is its eight bits, the highest one first. */
module Blake {
  import opened Arithmetic
  import opened Words
  import opened Buffers


  // ----- specification: "Hashing a message" in the BLAKE proposal -----

  /** Bit j of a number. */
  function BitAt(n: nat, j: nat): bool {
    n / Pow2(j) % 2 == 1
  }

  /** The k lowest bits of n, the highest one first. */
  function BigEndian(n: nat, k: nat): (bits: seq<bool>)
    ensures |bits| == k
  {
    seq(k, i requires 0 <= i < k => BitAt(n, k - 1 - i))
  }

  /** The message, a one, zeros up to bit 447 of a block, the last bit, and the length. */
  function Padded(message: seq<bool>, last: bool): seq<bool> {
    var zeros: int := (446 - |message|) % 512;
    message + [true] + Zeros(zeros) + [last] + BigEndian(|message| % ULONG, 64)
  }

  /** The message bits in the blocks up to block i; 0 if block i holds none. */
  function Counter(size: nat, i: nat): nat {
    if size <= 512 * i then 0 else (if size <= 512 * i + 512 then size else 512 * i + 512) % ULONG
  }

  /** The chaining value after the first k blocks of a padded message of that many bits. */
  function Chained<H>(c: (H, seq<bool>, nat) -> H, iv: H, size: nat, padded: seq<bool>, k: nat): H
    requires 512 * k <= |padded|
    decreases k
  {
    if k == 0 then iv
    else c(Chained(c, iv, size, padded, k - 1), padded[512 * (k - 1)..512 * k], Counter(size, k - 1))
  }

  /** The final chaining value for a message. */
  function Hashed<H>(c: (H, seq<bool>, nat) -> H, iv: H, message: seq<bool>, last: bool): H {
    var p := Padded(message, last);
    assert 512 * (|p| / 512) <= |p|;
    Chained(c, iv, |message|, p, |p| / 512)
  }

  /** The number that bits stand for, the highest one first. */
  function Value(bits: seq<bool>): nat {
    if |bits| == 0 then 0 else 2 * Value(bits[..|bits| - 1]) + if bits[|bits| - 1] then 1 else 0
  }

  lemma Quotients(n: nat, p: nat, q: nat)
    requires p > 0 && q > 0
    ensures p * q > 0 && n / (p * q) == n / p / q
  {
    assert n == n / p * p + n % p;
    DivideThrough(n / p, n % p, p, q);
  }

  /** The bits from j on are those of the number without its j lowest bits. */
  lemma HigherBit(n: nat, i: nat, j: nat, q: nat)
    requires q == n / Pow2(j)
    ensures BitAt(n, i + j) == BitAt(q, i)
  {
    Pow2Add(j, i);
    Quotients(n, Pow2(j), Pow2(i));
  }

  /** The length field stands for the length. */
  lemma {:induction false} ValueOfBigEndian(n: nat, k: nat)
    ensures Value(BigEndian(n, k)) == n % Pow2(k)
    decreases k
  {
    if k > 0 {
      var bits, half := BigEndian(n, k), BigEndian(n / 2, k - 1);
      forall i | 0 <= i < k - 1 ensures bits[i] == half[i] {
        assert Pow2(1) == 2;
        HigherBit(n, k - 2 - i, 1, n / 2);
      }
      assert bits[..k - 1] == half;
      ValueOfBigEndian(n / 2, k - 1);
      LastBitOf(n, k);
    }
  }

  lemma LastBitOf(n: nat, k: nat)
    requires k > 0
    ensures BitAt(n, 0) <==> n % 2 == 1
    ensures n % Pow2(k) == 2 * (n / 2 % Pow2(k - 1)) + n % 2
  {
    var p, h := Pow2(k - 1), n / 2;
    assert h == h / p * p + h % p;
    assert 2 * (h / p * p) == h / p * (2 * p);
    QuotientIsUnique(n, 2 * p, h / p, 2 * (h % p) + n % 2);
  }

  /** A padded message is whole blocks: the message, a one, fewer than 512 zeros, the last bit, and 64 bits that stand
      for the length. */
  lemma PaddedEnds(message: seq<bool>, last: bool)
    ensures var p := Padded(message, last);
      && |p| % 512 == 0 && |message| + 66 <= |p| < |message| + 66 + 512
      && p[..|message|] == message && p[|message|] && p[|p| - 65] == last
      && p[|message| + 1..|p| - 65] == Zeros(|p| - |message| - 66)
      && Value(p[|p| - 64..]) == |message| % 0x1_0000_0000_0000_0000
  {
    var n := 446 - |message|;
    var p := Padded(message, last);
    assert n == n / 512 * 512 + n % 512;
    assert |p| == |message| + 66 + n % 512 == (1 - n / 512) * 512;
    AddMultiple(0, 512, 1 - n / 512);
    assert p[|p| - 64..] == BigEndian(|message| % ULONG, 64);
    ValueOfBigEndian(|message| % ULONG, 64);
    Pow64();
    SmallRemainder(|message| % ULONG, ULONG);
  }

  lemma SmallRemainder(n: nat, d: nat)
    requires n < d
    ensures n % d == n
  {
  }

  lemma Pow64()
    ensures Pow2(64) == ULONG
  {
    Pow32();
    Pow2Add(32, 32);
  }

  // ----- what the streaming code computes -----

  /** The chaining value after k blocks of bytes when the counter begins at t and grows with every block. */
  function After<H>(c: (H, seq<bool>, nat) -> H, h: H, t: nat, m: seq<Byte>, k: nat): H
    requires 64 * k <= |m|
    decreases k
  {
    if k == 0 then h
    else c(After(c, h, t, m, k - 1), Flatten(m[64 * (k - 1)..64 * k]), (t + 512 * k) % ULONG)
  }

  lemma {:induction false} AfterPrefix<H>(c: (H, seq<bool>, nat) -> H, h: H, t: nat, m: seq<Byte>, x: seq<Byte>, k: nat)
    requires 64 * k <= |m|
    ensures After(c, h, t, m + x, k) == After(c, h, t, m, k)
  {
    if k > 0 {
      AfterPrefix(c, h, t, m, x, k - 1);
      assert (m + x)[64 * (k - 1)..64 * k] == m[64 * (k - 1)..64 * k];
    }
  }

  class Context<H> {
    const buf: array<Byte>
    var h: H
    var t0: nat
    var t1: nat
    var ptr: nat

    /** The counter. */
    function T(): nat
      reads this
    {
      t0 + t1 * UINT
    }

    /** The context has been fed the bytes m, having begun with the chaining value h0 and the counter t. */
    ghost predicate Holds(c: (H, seq<bool>, nat) -> H, h0: H, t: nat, m: seq<Byte>)
      reads this, buf
    {
      && buf.Length == 64 && t0 < UINT && t1 < UINT
      && ptr < 64 && buf[..ptr] == Rest(m, 64)
      && T() == (t + 512 * (|m| / 64)) % ULONG
      && h == After(c, h0, t, m, |m| / 64)
    }

    constructor (iv: H)
      ensures buf.Length == 64 && h == iv && t0 == t1 == ptr == 0
      ensures fresh(buf)
    {
      buf := new Byte[64];
      h := iv;
      t0, t1, ptr := 0, 0, 0;
    }

    /** A chain may be taken to begin at any state whose buffer is not full. */
    lemma BeginsAnew(c: (H, seq<bool>, nat) -> H)
      requires buf.Length == 64 && t0 < UINT && t1 < UINT && ptr < 64
      ensures Holds(c, h, T(), buf[..ptr])
    {
      Unfed(buf[..ptr], t0, t1);
    }

    /** The counter grows by a block, with a carry between its words. */
    method Count()
      requires t0 < UINT && t1 < UINT
      modifies this`t0, this`t1
      ensures t0 < UINT && t1 < UINT && T() == (old(T()) + 512) % ULONG
    {
      Carry(t0, t1);
      t0 := (t0 + 512) % UINT;
      if t0 < 512 { t1 := (t1 + 1) % UINT; }
    }

    /** COMPRESS32 on a full buffer, the counter having grown. */
    method Compress(c: (H, seq<bool>, nat) -> H)
      requires buf.Length == 64 && t0 < UINT && t1 < UINT
      modifies this`t0, this`t1, this`h
      ensures t0 < UINT && t1 < UINT && T() == (old(T()) + 512) % ULONG
      ensures h == c(old(h), Flatten(buf[..64]), T())
    {
      Count();
      assert buf[..64] == buf[..];
      h := c(h, Flatten(buf[..]), T());
    }

    /** One pass of the loop of blake32. */
    method Feed(c: (H, seq<bool>, nat) -> H, chunk: seq<Byte>, ghost h0: H, ghost t: nat, ghost m: seq<Byte>)
      requires Holds(c, h0, t, m) && |chunk| <= 64 - ptr
      modifies this, buf
      ensures Holds(c, h0, t, m + chunk)
    {
      WholeBlocks(m, 64);
      CopyInto(buf, ptr, chunk);
      ptr := ptr + |chunk|;
      assert buf[..ptr] == Rest(m, 64) + chunk;
      if ptr == 64 { EmptyBuffer(c, h0, t, m, chunk); } else { BlockBegun(c, h0, t, m, chunk); }
    }

    /** The buffer is full. */
    method EmptyBuffer(c: (H, seq<bool>, nat) -> H, ghost h0: H, ghost t: nat, ghost m: seq<Byte>,
                       ghost chunk: seq<Byte>)
      requires buf.Length == 64 && t0 < UINT && t1 < UINT && ptr == 64 && buf[..64] == Rest(m, 64) + chunk
      requires T() == (t + 512 * (|m| / 64)) % ULONG && h == After(c, h0, t, m, |m| / 64)
      modifies this
      ensures Holds(c, h0, t, m + chunk)
    {
      NextCount(t, |m| / 64);
      Compress(c);
      ptr := 0;
      BlockDone(c, h0, t, m, chunk);
    }

    /** blake32. */
    method Update(c: (H, seq<bool>, nat) -> H, data: seq<Byte>, ghost h0: H, ghost t: nat, ghost m: seq<Byte>)
      requires Holds(c, h0, t, m)
      modifies this, buf
      ensures Holds(c, h0, t, m + data)
    {
      if |data| < 64 - ptr {
        Feed(c, data, h0, t, m);
        return;
      }
      var rest := data;
      ghost var fed := m;
      while |rest| > 0
        invariant Holds(c, h0, t, fed) && fed + rest == m + data
      {
        var clen := 64 - ptr;
        if clen > |rest| { clen := |rest|; }
        Feed(c, rest[..clen], h0, t, fed);
        fed := fed + rest[..clen];
        rest := rest[clen..];
      }
      assert fed == m + data;
    }

    /** Takes back in advance what Count will add, so that it arrives at the bits of the message. */
    method AdjustCounter(bitLen: nat)
      requires t0 < UINT && t1 < UINT && t0 % 512 == 0 && bitLen < 512
      modifies this`t0, this`t1
      ensures t0 < UINT && t1 < UINT
      ensures (T() + 512) % ULONG == if bitLen == 0 then 0 else old(T()) + bitLen
    {
      CounterParts(t0, t1, bitLen);
      if bitLen == 0 {
        ResetCounter();
      } else if t0 == 0 {
        t0 := UINT - 512 + bitLen;
        t1 := (t1 - 1) % UINT;
      } else {
        t0 := t0 - (512 - bitLen);
      }
    }

    /** The counter of a block without message bits will be 0. */
    method ResetCounter()
      modifies this`t0, this`t1
      ensures t0 < UINT && t1 < UINT && (T() + 512) % ULONG == 0
    {
      CounterParts(0, 0, 0);
      t0 := UINT - 512;
      t1 := UINT - 1;
    }

    /** Feeds what completes the block in the buffer. */
    method LastBlock(c: (H, seq<bool>, nat) -> H, tail: seq<Byte>)
      requires buf.Length == 64 && t0 < UINT && t1 < UINT && ptr < 64 && |tail| == 64 - ptr
      modifies this, buf
      ensures h == c(old(h), Flatten(old(buf[..ptr]) + tail), (old(T()) + 512) % ULONG)
      ensures t0 < UINT && t1 < UINT && ptr == 0
    {
      ghost var x := buf[..ptr];
      ghost var start, t := h, T();
      BeginsAnew(c);
      Update(c, tail, start, t, x);
      HoldsBlock(c, start, t, x + tail);
    }

    /** A whole block has been compressed. */
    lemma HoldsBlock(c: (H, seq<bool>, nat) -> H, h0: H, t: nat, y: seq<Byte>)
      requires Holds(c, h0, t, y) && |y| == 64
      ensures ptr == 0 && h == c(h0, Flatten(y), (t + 512) % ULONG)
    {
      OneBlockAfter(c, h0, t, y);
      assert |buf[..ptr]| == 0;
    }

    /** blake32_close: ends the message with the n highest bits of ub. */
    method Close(c: (H, seq<bool>, nat) -> H, ub: Byte, n: nat, words: nat, ghost iv: H, ghost m: seq<Byte>)
      requires Holds(c, iv, 0, m) && n < 8 && words in {7, 8}
      modifies this, buf
      ensures h == Hashed(c, iv, Flatten(m) + ub[..n], words == 8)
    {
      var bitLen := 8 * ptr + n;
      var tl, th := t0 + bitLen, t1;
      WholeBlocks(m, 64);
      LengthAndCounter(m, n, t0, t1);
      AdjustCounter(bitLen);
      if bitLen <= 446 {
        CloseOne(c, ub, n, words == 8, th, tl, iv, m);
      } else {
        CloseTwo(c, ub, n, words == 8, th, tl, iv, m);
      }
    }

    /** The message ends in the block in the buffer. */
    method CloseOne(c: (H, seq<bool>, nat) -> H, ub: Byte, n: nat, last: bool, th: nat, tl: nat, ghost iv: H,
                    ghost m: seq<Byte>)
      requires Ready(c, iv, m, n, th, tl) && 8 * ptr + n <= 446
      modifies this, buf
      ensures h == Hashed(c, iv, Flatten(m) + ub[..n], last)
    {
      var tail := OneTail(ub, n, ptr, last, th, tl);
      ghost var field := BigEndian(th, 32) + BigEndian(tl, 32);
      FlattenAppend(buf[..ptr], tail);
      Regroup(ub[..n] + [true] + Zeros(446 - 8 * ptr - n) + [last], BigEndian(th, 32), BigEndian(tl, 32));
      OneBlockMore(c, iv, m, ub[..n], last, field, Flatten(buf[..ptr] + tail));
      LastBlock(c, tail);
    }

    /** The message ends in the block in the buffer, its length in one more. */
    method CloseTwo(c: (H, seq<bool>, nat) -> H, ub: Byte, n: nat, last: bool, th: nat, tl: nat, ghost iv: H,
                    ghost m: seq<Byte>)
      requires Ready(c, iv, m, n, th, tl) && 447 <= 8 * ptr + n
      modifies this, buf
      ensures h == Hashed(c, iv, Flatten(m) + ub[..n], last)
    {
      var tail := FirstTail(ub, n, ptr);
      ghost var field := BigEndian(th, 32) + BigEndian(tl, 32);
      ghost var first := Flatten(buf[..ptr] + tail);
      FlattenAppend(buf[..ptr], tail);
      LastBlock(c, tail);
      TwoBlocksEnd(c, iv, m, ub[..n], last, field, first, Zeros(447) + [last] + field, h);
      LengthBlock(c, last, th, tl);
    }

    /** A block with nothing of the message, from an empty buffer. */
    method LengthBlock(c: (H, seq<bool>, nat) -> H, last: bool, th: nat, tl: nat)
      requires buf.Length == 64 && ptr == 0
      modifies this, buf
      ensures h == c(old(h), Zeros(447) + [last] + (BigEndian(th, 32) + BigEndian(tl, 32)), 0)
    {
      ResetCounter();
      var tail := SecondTail(last, th, tl);
      Regroup(Zeros(447) + [last], BigEndian(th, 32), BigEndian(tl, 32));
      assert buf[..ptr] + tail == tail;
      LastBlock(c, tail);
    }

    /** The message m and n more bits are complete; the counter is ready to be counted up. */
    ghost predicate Ready(c: (H, seq<bool>, nat) -> H, iv: H, m: seq<Byte>, n: nat, th: nat, tl: nat)
      reads this, buf
    {
      && buf.Length == 64 && t0 < UINT && t1 < UINT && n < 8
      && ptr < 64 && buf[..ptr] == Rest(m, 64)
      && (T() + 512) % ULONG == Counter(8 * |m| + n, |m| / 64)
      && BigEndian(th, 32) + BigEndian(tl, 32) == BigEndian((8 * |m| + n) % ULONG, 64)
      && h == After(c, iv, 0, m, |m| / 64)
    }
  }

  /** A message in two pieces and n more bits: the digest does not depend on where it is cut. */
  method Hash<H>(c: (H, seq<bool>, nat) -> H, iv: H, a: seq<Byte>, b: seq<Byte>, ub: Byte, n: nat, words: nat)
    returns (h: H)
    requires n < 8 && words in {7, 8}
    ensures h == Hashed(c, iv, Flatten(a + b) + ub[..n], words == 8)
  {
    var context := new Context(iv);
    context.BeginsAnew(c);
    assert context.buf[..0] == [];
    context.Update(c, a, iv, 0, []);
    assert [] + a == a;
    context.Update(c, b, iv, 0, a);
    context.Close(c, ub, n, words, iv, a + b);
    h := context.h;
  }

  lemma Regroup(a: seq<bool>, b: seq<bool>, c: seq<bool>)
    ensures a + b + c == a + (b + c)
  {
  }

  lemma CounterAfterLast(size: nat, k: nat)
    requires size < 512 * (k + 1)
    ensures Counter(size, k + 1) == 0
  {
  }

  /** The length of the message and the counter of its last block, from the counter of its whole blocks. */
  lemma LengthAndCounter(m: seq<Byte>, n: nat, t0: nat, t1: nat)
    requires t0 < UINT && t1 < UINT && t0 + t1 * UINT == 512 * (|m| / 64) % ULONG && n < 8
    ensures var bitLen := 8 * |Rest(m, 64)| + n;
      && t0 % 512 == 0 && bitLen < 512
      && BigEndian(t1, 32) + BigEndian(t0 + bitLen, 32) == BigEndian((8 * |m| + n) % ULONG, 64)
      && Counter(8 * |m| + n, |m| / 64) == if bitLen == 0 then 0 else t0 + t1 * UINT + bitLen
  {
    var k, bitLen := |m| / 64, 8 * |Rest(m, 64)| + n;
    WholeBlocks(m, 64);
    CounterIsBlocks(k, t0, t1, bitLen);
    assert 8 * |m| + n == 512 * k + bitLen;
    SizeWords(t1, t0 + bitLen, 8 * |m| + n);
    CounterOfLast(8 * |m| + n, k, bitLen);
  }

  lemma Carry(t0: nat, t1: nat)
    requires t0 < UINT && t1 < UINT
    ensures var low := (t0 + 512) % UINT;
      low + (if low < 512 then (t1 + 1) % UINT else t1) * UINT == (t0 + t1 * UINT + 512) % ULONG
  {
    var low := (t0 + 512) % UINT;
    var high := if low < 512 then (t1 + 1) % UINT else t1;
    if low >= 512 {
      QuotientIsUnique(t0 + t1 * UINT + 512, ULONG, 0, low + high * UINT);
    } else if t1 + 1 < UINT {
      QuotientIsUnique(t0 + t1 * UINT + 512, ULONG, 0, low + high * UINT);
    } else {
      QuotientIsUnique(t0 + t1 * UINT + 512, ULONG, 1, low);
    }
  }

  lemma NextCount(t: nat, k: nat)
    ensures ((t + 512 * k) % ULONG + 512) % ULONG == (t + 512 * (k + 1)) % ULONG
  {
    var n := t + 512 * k;
    assert n == n / ULONG * ULONG + n % ULONG;
    AddMultiple(n % ULONG + 512, ULONG, n / ULONG);
  }

  lemma BlockBegun<H>(c: (H, seq<bool>, nat) -> H, h0: H, t: nat, m: seq<Byte>, chunk: seq<Byte>)
    requires |Rest(m, 64)| + |chunk| < 64
    ensures |m + chunk| / 64 == |m| / 64 && Rest(m + chunk, 64) == Rest(m, 64) + chunk
    ensures After(c, h0, t, m + chunk, |m| / 64) == After(c, h0, t, m, |m| / 64)
  {
    PartlyFilled(m, chunk, 64);
    AfterPrefix(c, h0, t, m, chunk, |m| / 64);
  }

  lemma BlockDone<H>(c: (H, seq<bool>, nat) -> H, h0: H, t: nat, m: seq<Byte>, chunk: seq<Byte>)
    requires |Rest(m, 64)| + |chunk| == 64
    ensures |m + chunk| / 64 == |m| / 64 + 1 && Rest(m + chunk, 64) == []
    ensures After(c, h0, t, m + chunk, |m + chunk| / 64) ==
      c(After(c, h0, t, m, |m| / 64), Flatten(Rest(m, 64) + chunk), (t + 512 * (|m| / 64 + 1)) % ULONG)
  {
    var k := |m| / 64;
    FilledUp(m, chunk, 64);
    AfterPrefix(c, h0, t, m, chunk, k);
    assert |m + chunk| == 64 * (k + 1);
    assert (m + chunk)[64 * k..64 * (k + 1)] == Rest(m, 64) + chunk;
  }

  // ----- closing -----

  lemma TwoWords(t0: nat, t1: nat)
    requires t0 < UINT && t1 < UINT
    ensures (t0 + t1 * UINT) % ULONG == t0 + t1 * UINT
  {
    QuotientIsUnique(t0 + t1 * UINT, ULONG, 0, t0 + t1 * UINT);
  }

  lemma OneBlockAfter<H>(c: (H, seq<bool>, nat) -> H, h: H, t: nat, y: seq<Byte>)
    requires |y| == 64
    ensures |y| / 64 == 1 && Rest(y, 64) == [] && After(c, h, t, y, 1) == c(h, Flatten(y), (t + 512) % ULONG)
  {
    assert y[64 * 0..64 * 1] == y;
    assert After(c, h, t, y, 1) == c(After(c, h, t, y, 0), Flatten(y[64 * 0..64 * 1]), (t + 512 * 1) % ULONG);
  }

  lemma ShortRest(x: seq<Byte>)
    requires |x| < 64
    ensures Rest(x, 64) == x && |x| / 64 == 0
  {
  }

  lemma Unfed(x: seq<Byte>, t0: nat, t1: nat)
    requires |x| < 64 && t0 < UINT && t1 < UINT
    ensures Rest(x, 64) == x && |x| / 64 == 0 && t0 + t1 * UINT == (t0 + t1 * UINT + 512 * (|x| / 64)) % ULONG
  {
    ShortRest(x);
    TwoWords(t0, t1);
    assert 512 * (|x| / 64) == 0;
  }

  lemma CounterParts(t0: nat, t1: nat, bitLen: nat)
    requires t0 < UINT && t1 < UINT && t0 % 512 == 0 && bitLen < 512
    ensures (UINT - 512 + (UINT - 1) * UINT + 512) % ULONG == 0
    ensures t0 == 0 ==> (UINT - 512 + bitLen + (t1 - 1) % UINT * UINT + 512) % ULONG == t1 * UINT + bitLen
    ensures t0 > 0 ==> t0 >= 512 && (t0 - (512 - bitLen) + t1 * UINT + 512) % ULONG == t0 + t1 * UINT + bitLen
  {
    assert t0 <= UINT - 512;
    if t0 > 0 {
      QuotientIsUnique(t0 + bitLen + t1 * UINT, ULONG, 0, t0 + bitLen + t1 * UINT);
    } else if t1 > 0 {
      QuotientIsUnique(UINT + bitLen + (t1 - 1) * UINT, ULONG, 0, t1 * UINT + bitLen);
    } else {
      QuotientIsUnique(UINT + bitLen + (UINT - 1) * UINT, ULONG, 1, bitLen);
    }
  }

  /** The counter after whole blocks is a multiple of 512, so that less than a block can be added. */
  lemma CounterIsBlocks(k: nat, t0: nat, t1: nat, n: nat)
    requires t0 < UINT && t1 < UINT && t0 + t1 * UINT == 512 * k % ULONG && n < 512
    ensures t0 % 512 == 0 && t0 <= UINT - 512
    ensures t0 + t1 * UINT + n == (512 * k + n) % ULONG
  {
    var q := 512 * k / ULONG;
    assert 512 * k == q * ULONG + t0 + t1 * UINT;
    var z := k - q * (ULONG / 512) - t1 * (UINT / 512);
    assert t0 == 512 * z;
    AddMultiple(0, 512, z);
    QuotientIsUnique(512 * k + n, ULONG, q, t0 + t1 * UINT + n);
  }

  /** n bits of a byte, a one, and zeros. */
  function Marked(ub: Byte, n: nat): Byte
    requires n < 8
  {
    ub[..n] + [true] + Zeros(7 - n)
  }

  /** sph_enc32be. */
  function Encoded(w: nat): (s: seq<Byte>)
    ensures |s| == 4
  {
    var bits := BigEndian(w, 32);
    [bits[..8], bits[8..16], bits[16..24], bits[24..]]
  }

  function LengthBytes(th: nat, tl: nat): (s: seq<Byte>)
    ensures |s| == 8
  {
    Encoded(th) + Encoded(tl)
  }

  /** The bytes that end a block with the message, the one, the last bit and the length. */
  method OneTail(ub: Byte, n: nat, ptr: nat, last: bool, th: nat, tl: nat) returns (tail: seq<Byte>)
    requires n < 8 && 8 * ptr + n <= 446
    ensures |tail| == 64 - ptr
    ensures Flatten(tail) == ub[..n] + [true] + Zeros(446 - 8 * ptr - n) + [last] + BigEndian(th, 32) +
      BigEndian(tl, 32)
  {
    var x := EndedTail(ub, n, ptr, last);
    tail := x + LengthBytes(th, tl);
    FlattenAppend(x, LengthBytes(th, tl));
    LengthBits(th, tl);
    Regroup(ub[..n] + [true] + Zeros(446 - 8 * ptr - n) + [last], BigEndian(th, 32), BigEndian(tl, 32));
  }

  method EndedTail(ub: Byte, n: nat, ptr: nat, last: bool) returns (x: seq<Byte>)
    requires n < 8 && 8 * ptr + n <= 446
    ensures |x| == 56 - ptr
    ensures Flatten(x) == ub[..n] + [true] + Zeros(446 - 8 * ptr - n) + [last]
  {
    var u := new Byte[64](_ => NO_BITS);
    u[ptr] := Marked(ub, n);
    forall i | ptr + 1 <= i < 56 { u[i] := NO_BITS; }
    ghost var marked := u[ptr..56];
    if last { u[55] := u[55][7 := true]; }
    x := u[ptr..56];
    assert x == if last then marked[55 - ptr := marked[55 - ptr][7 := true]] else marked;
    EndedBits(marked, x, ub, n, last);
  }

  lemma MarkedBits(x: seq<Byte>, ub: Byte, n: nat)
    requires n < 8 && x != [] && x[0] == Marked(ub, n) && forall i :: 1 <= i < |x| ==> x[i] == NO_BITS
    ensures Flatten(x) == ub[..n] + [true] + Zeros(8 * |x| - 1 - n)
  {
    var bits := ub[..n] + [true] + Zeros(8 * |x| - 1 - n);
    forall i | 0 <= i < 8 * |x| ensures Flatten(x)[i] == bits[i] {
      assert Flatten(x)[i] == x[i / 8][i % 8];
      if i < 8 { } else { }
    }
  }

  lemma LastBit(x: seq<Byte>)
    requires x != []
    ensures Flatten(x[|x| - 1 := x[|x| - 1][7 := true]]) == Flatten(x)[8 * |x| - 1 := true]
  {
    var y := x[|x| - 1 := x[|x| - 1][7 := true]];
    forall i | 0 <= i < 8 * |x| ensures Flatten(y)[i] == Flatten(x)[8 * |x| - 1 := true][i] {
      assert Flatten(y)[i] == y[i / 8][i % 8];
    }
  }

  lemma EndedBits(marked: seq<Byte>, x: seq<Byte>, ub: Byte, n: nat, last: bool)
    requires n < 8 && marked != [] && marked[0] == Marked(ub, n) && 8 * |marked| >= n + 2
    requires forall i :: 1 <= i < |marked| ==> marked[i] == NO_BITS
    requires x == if last then marked[|marked| - 1 := marked[|marked| - 1][7 := true]] else marked
    ensures Flatten(x) == ub[..n] + [true] + Zeros(8 * |marked| - 2 - n) + [last]
  {
    MarkedBits(marked, ub, n);
    LastBit(marked);
  }

  lemma LengthBits(th: nat, tl: nat)
    ensures Flatten(LengthBytes(th, tl)) == BigEndian(th, 32) + BigEndian(tl, 32)
  {
    EncodedBits(th);
    EncodedBits(tl);
    FlattenAppend(Encoded(th), Encoded(tl));
  }

  /** sph_enc32be writes the four bytes of a word, the highest one first. */
  lemma EncodedBytes(w: nat, i: nat)
    requires i < 4
    ensures var d := if i == 0 then 16777216 else if i == 1 then 65536 else if i == 2 then 256 else 1;
      Value(Encoded(w)[i]) == w / d % 256
  {
    var j := 24 - 8 * i;
    assert Pow2(8) == 256;
    assert Pow2(16) == 65536;
    assert Pow2(24) == 16777216;
    var q := w / Pow2(j);
    var byte, bits := Encoded(w)[i], BigEndian(q, 8);
    forall t | 0 <= t < 8 ensures byte[t] == bits[t] {
      HigherBit(w, 7 - t, j, q);
      assert byte[t] == BigEndian(w, 32)[8 * i + t];
    }
    assert byte == bits;
    ValueOfBigEndian(q, 8);
  }

  lemma EncodedBits(w: nat)
    ensures Flatten(Encoded(w)) == BigEndian(w, 32)
  {
    var bits := BigEndian(w, 32);
    forall i | 0 <= i < 32 ensures Flatten(Encoded(w))[i] == bits[i] {
      if i < 8 { } else if i < 16 { } else if i < 24 { } else { }
    }
  }

  /** The bytes that end a block with the message, the one and zeros. */
  method FirstTail(ub: Byte, n: nat, ptr: nat) returns (tail: seq<Byte>)
    requires n < 8 && ptr < 64
    ensures |tail| == 64 - ptr && Flatten(tail) == ub[..n] + [true] + Zeros(511 - 8 * ptr - n)
  {
    var u := new Byte[64](_ => NO_BITS);
    u[ptr] := Marked(ub, n);
    forall i | ptr + 1 <= i < 64 { u[i] := NO_BITS; }
    tail := u[ptr..];
    MarkedBits(tail, ub, n);
  }

  /** A block with nothing of the message. */
  method SecondTail(last: bool, th: nat, tl: nat) returns (tail: seq<Byte>)
    ensures |tail| == 64
    ensures Flatten(tail) == Zeros(447) + [last] + BigEndian(th, 32) + BigEndian(tl, 32)
  {
    var u := new Byte[64](_ => NO_BITS);
    if last { u[55] := NO_BITS[7 := true]; }
    var x := u[..56];
    tail := x + LengthBytes(th, tl);
    FlattenAppend(x, LengthBytes(th, tl));
    LengthBits(th, tl);
    forall i | 0 <= i < 448 ensures Flatten(x)[i] == (Zeros(447) + [last])[i] {
      assert Flatten(x)[i] == u[i / 8][i % 8];
    }
    assert Flatten(x) == Zeros(447) + [last];
  }

  lemma {:induction false} Pow2Add(i: nat, j: nat)
    ensures Pow2(i + j) == Pow2(i) * Pow2(j)
  {
    if i > 0 {
      Pow2Add(i - 1, j);
      assert 2 * (Pow2(i - 1) * Pow2(j)) == 2 * Pow2(i - 1) * Pow2(j);
    }
  }

  lemma DivideThrough(a: nat, b: nat, p: nat, d: nat)
    requires b < p && d > 0
    ensures p * d > 0 && (a * p + b) / (p * d) == a / d
  {
    var q, x := a / d, a % d;
    assert a == q * d + x;
    Multiples(q, p, d, x, b);
    QuotientIsUnique(a * p + b, p * d, q, x * p + b);
  }

  lemma Multiples(q: nat, p: nat, d: nat, x: nat, b: nat)
    requires b < p && x < d
    ensures (q * d + x) * p + b == q * (p * d) + (x * p + b) && 0 <= x * p + b < p * d
  {
    assert (x + 1) * p <= d * p;
  }

  lemma HighBit(a: nat, b: nat, j: nat, r: nat)
    requires b < Pow2(j)
    ensures BitAt(a * Pow2(j) + b, j + r) == BitAt(a, r)
  {
    Pow2Add(j, r);
    DivideThrough(a, b, Pow2(j), Pow2(r));
  }

  lemma EvenPart(a: nat, b: nat, d: nat, e: nat)
    requires d > 0
    ensures (a * (2 * (d * e)) + b) / d % 2 == b / d % 2
  {
    assert a * (2 * (d * e)) == (2 * (a * e)) * d;
    AddMultiple(b, d, 2 * (a * e));
    AddMultiple(b / d, 2, a * e);
  }

  lemma LowBit(a: nat, b: nat, j: nat, r: nat)
    requires r < j
    ensures BitAt(a * Pow2(j) + b, r) == BitAt(b, r)
  {
    Pow2Add(r, j - 1 - r);
    assert Pow2(j) == 2 * Pow2(j - 1);
    EvenPart(a, b, Pow2(r), Pow2(j - 1 - r));
  }

  /** Two words make the 64 bits of the length. */
  lemma LengthWords(a: nat, b: nat, i: nat, j: nat)
    requires b < Pow2(j)
    ensures BigEndian(a * Pow2(j) + b, i + j) == BigEndian(a, i) + BigEndian(b, j)
  {
    forall k | 0 <= k < i + j
      ensures BigEndian(a * Pow2(j) + b, i + j)[k] == (BigEndian(a, i) + BigEndian(b, j))[k]
    {
      if k < i { HighBit(a, b, j, i - 1 - k); } else { LowBit(a, b, j, i + j - 1 - k); }
    }
  }

  /** Whole blocks of the message are chained as they are streamed. */
  lemma {:induction false} ChainedIsAfter<H>(c: (H, seq<bool>, nat) -> H, iv: H, m: seq<Byte>, size: nat,
                                             p: seq<bool>, k: nat)
    requires 64 * k <= |m| && size >= 8 * |m| && |p| >= 8 * |m| && p[..8 * |m|] == Flatten(m)
    ensures Chained(c, iv, size, p, k) == After(c, iv, 0, m, k)
  {
    if k > 0 {
      ChainedIsAfter(c, iv, m, size, p, k - 1);
      FlattenSlice(m, 64 * (k - 1), 64 * k);
      SliceOfPrefix(p, 8 * |m|, 512 * (k - 1), 512 * k);
    }
  }

  lemma Pow32()
    ensures Pow2(32) == UINT
  {
    assert Pow2(8) == 256;
    assert Pow2(16) == 65536;
    assert Pow2(24) == 16777216;
  }

  lemma SizeWords(th: nat, tl: nat, size: nat)
    requires th < UINT && tl < UINT && th * UINT + tl == size % ULONG
    ensures BigEndian(th, 32) + BigEndian(tl, 32) == BigEndian(size % ULONG, 64)
  {
    Pow32();
    LengthWords(th, tl, 32, 32);
  }

  /** The counter of the last block with something of the message in it. */
  lemma CounterOfLast(size: nat, k: nat, bitLen: nat)
    requires size == 512 * k + bitLen && bitLen < 512
    ensures Counter(size, k) == if bitLen == 0 then 0 else size % ULONG
    ensures Counter(size, k + 1) == 0
  {
  }

  lemma WholeAndRest(m: seq<Byte>)
    ensures m == Whole(m, 64) + Rest(m, 64) && |Whole(m, 64)| == 64 * (|m| / 64)
    ensures Flatten(m) == Flatten(Whole(m, 64)) + Flatten(Rest(m, 64))
  {
    FlattenAppend(Whole(m, 64), Rest(m, 64));
    assert m == Whole(m, 64) + Rest(m, 64);
  }

  lemma WholeAfter<H>(c: (H, seq<bool>, nat) -> H, iv: H, m: seq<Byte>)
    ensures |Whole(m, 64)| == 64 * (|m| / 64)
    ensures After(c, iv, 0, Whole(m, 64), |m| / 64) == After(c, iv, 0, m, |m| / 64)
  {
    WholeAndRest(m);
    AfterPrefix(c, iv, 0, Whole(m, 64), Rest(m, 64), |m| / 64);
  }

  /** One more block after whole ones. */
  lemma ChainedMore<H>(c: (H, seq<bool>, nat) -> H, iv: H, w: seq<Byte>, size: nat, k: nat, block: seq<bool>,
                       t: seq<bool>)
    requires |w| == 64 * k && |block| == 512 && size >= 8 * |w|
    ensures var p := Flatten(w) + block + t;
      Chained(c, iv, size, p, k + 1) == c(After(c, iv, 0, w, k), block, Counter(size, k))
  {
    var p := Flatten(w) + block + t;
    assert p[..8 * |w|] == Flatten(w);
    ChainedIsAfter(c, iv, w, size, p, k);
    assert p[512 * k..512 * (k + 1)] == block;
  }

  /** A padded message that ends in the block after the whole ones. */
  lemma PaddedOne(m: seq<Byte>, extra: seq<bool>, last: bool, field: seq<bool>)
    requires |extra| < 8 && 8 * |Rest(m, 64)| + |extra| <= 446
    requires field == BigEndian((8 * |m| + |extra|) % ULONG, 64)
    ensures Padded(Flatten(m) + extra, last) == Flatten(Whole(m, 64)) + (Flatten(Rest(m, 64))
      + (extra + [true] + Zeros(446 - 8 * |Rest(m, 64)| - |extra|) + [last] + field))
  {
    var bitLen := 8 * |Rest(m, 64)| + |extra|;
    WholeAndRest(m);
    ZerosNeeded(8 * |m| + |extra|, -(|m| / 64), 446 - bitLen);
    PaddedParts(Flatten(Whole(m, 64)), Flatten(Rest(m, 64)), extra, Zeros(446 - bitLen), last, field);
  }

  lemma ZerosNeeded(size: nat, k: int, zeros: nat)
    requires 446 - size == k * 512 + zeros && zeros < 512
    ensures (446 - size) % 512 == zeros
  {
    QuotientIsUnique(446 - size, 512, k, zeros);
  }

  lemma PaddedParts(whole: seq<bool>, rest: seq<bool>, extra: seq<bool>, zeros: seq<bool>, last: bool, field: seq<bool>)
    ensures whole + rest + extra + [true] + zeros + [last] + field ==
      whole + (rest + (extra + [true] + zeros + [last] + field))
  {
  }

  lemma PaddedPartsTwo(whole: seq<bool>, rest: seq<bool>, extra: seq<bool>, a: seq<bool>, b: seq<bool>, last: bool,
                       field: seq<bool>)
    ensures whole + rest + extra + [true] + (a + b) + [last] + field ==
      whole + (rest + (extra + [true] + a)) + (b + [last] + field)
  {
  }

  lemma OneBlockMore<H>(c: (H, seq<bool>, nat) -> H, iv: H, m: seq<Byte>, extra: seq<bool>, last: bool,
                        field: seq<bool>, block: seq<bool>)
    requires |extra| < 8 && 8 * |Rest(m, 64)| + |extra| <= 446
    requires field == BigEndian((8 * |m| + |extra|) % ULONG, 64)
    requires block == Flatten(Rest(m, 64)) + (extra + [true] + Zeros(446 - 8 * |Rest(m, 64)| - |extra|) + [last] +
      field)
    ensures Hashed(c, iv, Flatten(m) + extra, last) ==
      c(After(c, iv, 0, m, |m| / 64), block, Counter(8 * |m| + |extra|, |m| / 64))
  {
    var k, size := |m| / 64, 8 * |m| + |extra|;
    PaddedOne(m, extra, last, field);
    WholeAfter(c, iv, m);
    ChainedMore(c, iv, Whole(m, 64), size, k, block, []);
    var p := Padded(Flatten(m) + extra, last);
    assert Flatten(Whole(m, 64)) + block + [] == p;
    QuotientIsUnique(|p|, 512, k + 1, 0);
  }

  /** A padded message that ends in the second block after the whole ones. */
  lemma PaddedTwo(m: seq<Byte>, extra: seq<bool>, last: bool, field: seq<bool>)
    requires |extra| < 8 && 447 <= 8 * |Rest(m, 64)| + |extra| < 512
    requires field == BigEndian((8 * |m| + |extra|) % ULONG, 64)
    ensures Padded(Flatten(m) + extra, last) == Flatten(Whole(m, 64)) + (Flatten(Rest(m, 64))
      + (extra + [true] + Zeros(511 - 8 * |Rest(m, 64)| - |extra|))) + (Zeros(447) + [last] + field)
  {
    var bitLen := 8 * |Rest(m, 64)| + |extra|;
    WholeAndRest(m);
    ZerosNeeded(8 * |m| + |extra|, -(|m| / 64) - 1, 958 - bitLen);
    assert Zeros(958 - bitLen) == Zeros(511 - bitLen) + Zeros(447);
    PaddedPartsTwo(Flatten(Whole(m, 64)), Flatten(Rest(m, 64)), extra, Zeros(511 - bitLen), Zeros(447), last, field);
  }

  /** What is left when the first of two last blocks has been compressed. */
  lemma TwoBlocksEnd<H>(c: (H, seq<bool>, nat) -> H, iv: H, m: seq<Byte>, extra: seq<bool>, last: bool,
                        field: seq<bool>, first: seq<bool>, second: seq<bool>, h: H)
    requires |extra| < 8 && 447 <= 8 * |Rest(m, 64)| + |extra| < 512
    requires field == BigEndian((8 * |m| + |extra|) % ULONG, 64)
    requires first == Flatten(Rest(m, 64)) + (extra + [true] + Zeros(511 - 8 * |Rest(m, 64)| - |extra|))
    requires second == Zeros(447) + [last] + field
    requires h == c(After(c, iv, 0, m, |m| / 64), first, Counter(8 * |m| + |extra|, |m| / 64))
    ensures Hashed(c, iv, Flatten(m) + extra, last) == c(h, second, 0)
  {
    TwoBlocksMore(c, iv, m, extra, last, field, first, second);
    WholeAndRest(m);
    CounterAfterLast(8 * |m| + |extra|, |m| / 64);
  }

  lemma TwoBlocksMore<H>(c: (H, seq<bool>, nat) -> H, iv: H, m: seq<Byte>, extra: seq<bool>, last: bool,
                         field: seq<bool>, first: seq<bool>, second: seq<bool>)
    requires |extra| < 8 && 447 <= 8 * |Rest(m, 64)| + |extra| < 512
    requires field == BigEndian((8 * |m| + |extra|) % ULONG, 64)
    requires first == Flatten(Rest(m, 64)) + (extra + [true] + Zeros(511 - 8 * |Rest(m, 64)| - |extra|))
    requires second == Zeros(447) + [last] + field
    ensures var size := 8 * |m| + |extra|;
      Hashed(c, iv, Flatten(m) + extra, last) ==
      c(c(After(c, iv, 0, m, |m| / 64), first, Counter(size, |m| / 64)), second, Counter(size, |m| / 64 + 1))
  {
    var k, size := |m| / 64, 8 * |m| + |extra|;
    PaddedTwo(m, extra, last, field);
    WholeAfter(c, iv, m);
    var p := Padded(Flatten(m) + extra, last);
    assert p == Flatten(Whole(m, 64)) + first + second;
    ChainedMore(c, iv, Whole(m, 64), size, k, first, second);
    QuotientIsUnique(|p|, 512, k + 2, 0);
    assert p[512 * (k + 1)..512 * (k + 2)] == second;
  }
}
