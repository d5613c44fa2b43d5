/** Values that the tests and comments of the repository give for its encodings. */
module Vectors {
  import opened Wrappers
  import opened Words
  import opened VarInt
  import opened CoinsFormat
  import opened TxOuts
  import Amount
  import Base58
  import Compact
  import Merkle
  import Radix

  // ----- variable-length integers -----

  /** The examples of src/serialize.h. Two of them are not what is written: the bytes given there for 16511 and 65535
      stand for 32895 and 65407. */
  lemma VarIntExamples()
    ensures Encode(0) == [0x00] && Encode(1) == [0x01] && Encode(127) == [0x7F]
    ensures Encode(128) == [0x80, 0x00] && Encode(255) == [0x80, 0x7F] && Encode(256) == [0x81, 0x00]
    ensures Encode(16383) == [0xFE, 0x7F] && Encode(16384) == [0xFF, 0x00] && Encode(65535) == [0x82, 0xFE, 0x7F]
    ensures Encode(16511) == [0xFF, 0x7F] && Encode(32895) == [0x80, 0xFF, 0x7F]
    ensures Encode(65407) == [0x82, 0xFD, 0x7F]
  {
    assert Digits(0, true) == [0x80] && Digits(1, true) == [0x81] && Digits(2, true) == [0x82];
    assert Digits(126, true) == [0xFE] && Digits(127, true) == [0xFF];
    assert Digits(510, true) == Digits(2, true) + [0xFE];
    assert Digits(509, true) == Digits(2, true) + [0xFD];
    assert Digits(255, true) == Digits(0, true) + [0xFF];
    assert Digits(256, true) == Digits(1, true) + [0x80];
  }

  lemma LongVarInt()
    ensures Encode(0x1_0000_0000) == [0x8E, 0xFE, 0xFE, 0xFF, 0x00]
  {
    assert Digits(14, true) == [0x8E];
    assert Digits(2046, true) == Digits(14, true) + [0xFE];
    assert Digits(262142, true) == Digits(2046, true) + [0xFE];
    assert Digits(33554431, true) == Digits(262142, true) + [0xFF];
  }

  // ----- amounts -----

  lemma TenTimes(m: nat, p: nat, n: nat)
    requires n == m * (10 * p)
    ensures n % 10 == 0 && n / 10 == m * p
  {
    assert n == 10 * (m * p);
  }

  lemma {:induction false} TakesOut(m: nat, k: nat, room: nat, n: nat)
    requires m > 0 && n > 0 && k <= room && (k == room || m % 10 != 0) && n == m * Amount.Pow10(k)
    ensures Amount.Mantissa(n, room) == m && Amount.Exponent(n, room) == k
    decreases k
  {
    if k > 0 {
      TenTimes(m, Amount.Pow10(k - 1), n);
      TakesOut(m, k - 1, room - 1, n / 10);
    } else {
      assert n == m;
    }
  }

  lemma Millions()
    ensures Amount.Pow10(6) == 1000000 && Amount.Pow10(8) == 100000000 && Amount.Pow10(9) == 1000000000
  {
    assert Amount.Pow10(3) == 1000;
    assert Amount.Pow10(6) == 1000000;
  }

  /** The pairs of src/test/compress_tests.cpp. */
  lemma AmountPairs()
    ensures Amount.Compress(0) == 0 && Amount.Compress(1) == 1
    ensures Amount.Compress(1000000) == 7 && Amount.Compress(100000000) == 9
    ensures Amount.Compress(50 * 100000000) == 0x32 && Amount.Compress(21000000 * 100000000) == 0x1406f40
  {
    Millions();
    TakesOut(1, 6, 9, 1000000);
    TakesOut(1, 8, 9, 100000000);
    TakesOut(5, 9, 9, 5000000000);
    TakesOut(2100000, 9, 9, 2100000000000000);
  }

  // ----- scripts and coins -----

  /** How each kind of script is written: its kind, a byte below 6, and the hash or the first coordinate of the key.
      Any other script follows its length and 6. */
  lemma ScriptForms(curve: Curve, hash: seq<Byte>, x: seq<Byte>, y: seq<Byte>, parity: Byte, other: seq<Byte>)
    requires |hash| == 20 && |x| == |y| == 32 && (parity == 2 || parity == 3)
    ensures WriteScript(curve, [0x76, 0xa9, 20] + hash + [0x88, 0xac]) == [0] + hash
    ensures WriteScript(curve, [0xa9, 20] + hash + [0x87]) == [1] + hash
    ensures WriteScript(curve, [33, parity] + x + [0xac]) == [parity] + x
    ensures curve.valid([4] + x + y) ==> WriteScript(curve, [65, 4] + x + y + [0xac]) == [4 + y[31] % 2] + x
    ensures |other| !in {23, 25, 35, 67} && |other| + 6 < 0x1_0000_0000 ==>
      WriteScript(curve, other) == Encode(|other| + 6) + other
  {
    ToKeyID(curve, hash);
    ToScriptID(curve, hash);
    ToCompressedKey(curve, parity, x);
    if curve.valid([4] + x + y) { ToFullKey(curve, x, y); }
  }

  lemma ToKeyID(curve: Curve, hash: seq<Byte>)
    requires |hash| == 20
    ensures WriteScript(curve, [0x76, 0xa9, 20] + hash + [0x88, 0xac]) == [0] + hash
  {
    var script := [0x76, 0xa9, 20] + hash + [0x88, 0xac];
    assert script[3..23] == hash;
  }

  lemma ToScriptID(curve: Curve, hash: seq<Byte>)
    requires |hash| == 20
    ensures WriteScript(curve, [0xa9, 20] + hash + [0x87]) == [1] + hash
  {
    var script := [0xa9, 20] + hash + [0x87];
    assert script[2..22] == hash;
  }

  lemma ToCompressedKey(curve: Curve, parity: Byte, x: seq<Byte>)
    requires |x| == 32 && (parity == 2 || parity == 3)
    ensures WriteScript(curve, [33, parity] + x + [0xac]) == [parity] + x
  {
    var script := [33, parity] + x + [0xac];
    assert script[2..34] == x;
  }

  lemma ToFullKey(curve: Curve, x: seq<Byte>, y: seq<Byte>)
    requires |x| == |y| == 32 && curve.valid([4] + x + y)
    ensures WriteScript(curve, [65, 4] + x + y + [0xac]) == [4 + y[31] % 2] + x
  {
    var script := [65, 4] + x + y + [0xac];
    assert script[2..34] == x && script[1..66] == [4] + x + y && script[65] == y[31];
  }

  function PayTo(value: int, hash: seq<Byte>): TxOut {
    TxOut(value, [0x76, 0xa9, 20] + hash + [0x88, 0xac])
  }

  lemma PayToIsWritten(curve: Curve, value: int, code: nat, hash: seq<Byte>)
    requires |hash| == 20 && AmountCode(value) == code
    ensures Compressor(curve).put(PayTo(value, hash)) == Encode(code) + [0] + hash
  {
    ToKeyID(curve, hash);
    JoinedThree(Encode(code), [0], hash);
  }

  lemma JoinedThree(a: seq<Byte>, b: seq<Byte>, c: seq<Byte>)
    ensures a + (b + c) == a + b + c
  {
  }

  /** 600 coins, the height of the block, and the code of an only second output. */
  lemma FirstExampleParts()
    ensures AmountCode(60000000000) == 600 && Encode(600) == [0x83, 0x58]
    ensures Encode(203998) == [0x8b, 0xb8, 0x5e]
  {
    Millions();
    TakesOut(60, 9, 9, 60000000000);
    assert Digits(3, true) == [0x83];
    assert Digits(11, true) == [0x8b];
    assert Digits(1592, true) == Digits(11, true) + [0xb8];
  }

  /** The first example of src/core.h. */
  lemma FirstExample(curve: Curve, hash: seq<Byte>)
    requires |hash| == 20
    ensures var c := Coins(false, [NULL_OUT, PayTo(60000000000, hash)], 203998, 1);
      !Pruned(c.vout) &&
      Write(Compressor(curve), c) == [0x01] + [0x04] + ([0x83, 0x58] + [0x00] + hash) + [0x8b, 0xb8, 0x5e]
  {
    FirstExampleParts();
    PayToIsWritten(curve, 60000000000, 600, hash);
    WrittenSecond(Compressor(curve), PayTo(60000000000, hash), 203998);
  }

  lemma WrittenSecond(codec: Codec, out: TxOut, height: int)
    requires !out.IsNull()
    ensures var c := Coins(false, [NULL_OUT, out], height, 1);
      !Pruned(c.vout) && Write(codec, c) == [0x01] + [0x04] + codec.put(out) + Encode(height)
  {
    var vout := [NULL_OUT, out];
    assert Available(vout, 1) && !Available(vout, 0);
    assert vout[1..] == [out] && [out][1..] == [];
    assert WriteOuts(codec, [out]) == codec.put(out) + [];
    assert WriteOuts(codec, vout) == [] + codec.put(out);
    assert AllBytes(vout) == 0 && Mask(vout, 0) == [];
    assert WriteOutputs(codec, vout) == codec.put(out);
  }

  lemma NumberStep(b: seq<bool>, k: nat)
    requires k < |b|
    ensures Number(b[k..]) == (if b[k] then 1 else 0) + 2 * Number(b[k + 1..])
  {
    assert b[k..][1..] == b[k + 1..];
  }

  lemma HighHalf(b: seq<bool>, k: nat)
    requires |b| == 8 && k < 8 && forall i :: 0 <= i < 8 ==> (b[i] <==> i == k)
    ensures k < 4 ==> Number(b[4..]) == 0
    ensures k == 6 ==> Number(b[4..]) == 4
  {
    NumberStep(b, 7);
    NumberStep(b, 6);
    NumberStep(b, 5);
    NumberStep(b, 4);
    assert b[8..] == [];
  }

  /** The number of a byte with only bit 2, or bit 6, set. */
  lemma NumberOfOne(b: seq<bool>, k: nat)
    requires |b| == 8 && (k == 2 || k == 6) && forall i :: 0 <= i < 8 ==> (b[i] <==> i == k)
    ensures Number(b) == if k == 2 then 0x04 else 0x40
  {
    HighHalf(b, k);
    NumberStep(b, 3);
    NumberStep(b, 2);
    NumberStep(b, 1);
    NumberStep(b, 0);
    assert b[0..] == b;
  }

  lemma {:induction false} NullsAreSkipped(codec: Codec, n: nat, vout: seq<TxOut>)
    ensures WriteOuts(codec, seq(n, _ => NULL_OUT) + vout) == WriteOuts(codec, vout)
  {
    var all := seq(n, _ => NULL_OUT) + vout;
    if n == 0 {
      assert all == vout;
    } else {
      assert all[1..] == seq(n - 1, _ => NULL_OUT) + vout;
      NullsAreSkipped(codec, n - 1, vout);
      assert [] + WriteOuts(codec, all[1..]) == WriteOuts(codec, all[1..]);
    }
  }

  function Seventeen(a: TxOut, b: TxOut): (r: seq<TxOut>)
    ensures |r| == 17
  {
    seq(4, _ => NULL_OUT) + [a] + seq(11, _ => NULL_OUT) + [b]
  }

  lemma OnlyOne(vout: seq<TxOut>, b: nat, k: nat)
    requires k < 8 && forall i :: 2 + 8 * b <= i < 10 + 8 * b ==> (Available(vout, i) <==> i == 2 + 8 * b + k)
    ensures forall i :: 0 <= i < 8 ==> (Eight(vout, b)[i] <==> i == k)
  {
    forall i | 0 <= i < 8 ensures Eight(vout, b)[i] <==> i == k {
      assert Available(vout, 2 + 8 * b + i) <==> i == k;
    }
  }

  lemma SeventeenMask(a: TxOut, b: TxOut)
    requires !a.IsNull() && !b.IsNull()
    ensures var vout := Seventeen(a, b);
      Mask(vout, MaskSize(vout, AllBytes(vout))) == [0x04, 0x40] && NonzeroBytes(vout, AllBytes(vout)) == 2
  {
    var vout := Seventeen(a, b);
    assert vout[4] == a && vout[16] == b && forall i :: 0 <= i < 17 && i != 4 && i != 16 ==> vout[i] == NULL_OUT;
    OnlyOne(vout, 0, 2);
    OnlyOne(vout, 1, 6);
    NumberOfOne(Eight(vout, 0), 2);
    NumberOfOne(Eight(vout, 1), 6);
    assert MaskByte(vout, 0) == 4 && MaskByte(vout, 1) == 64;
    assert AllBytes(vout) == 2 && NonzeroBytes(vout, 1) == 1;
  }

  lemma SeventeenOuts(codec: Codec, a: TxOut, b: TxOut)
    requires !a.IsNull() && !b.IsNull()
    ensures WriteOuts(codec, Seventeen(a, b)) == codec.put(a) + codec.put(b)
  {
    var back := seq(11, _ => NULL_OUT) + [b];
    assert Seventeen(a, b) == seq(4, _ => NULL_OUT) + ([a] + back);
    NullsAreSkipped(codec, 4, [a] + back);
    assert ([a] + back)[1..] == back;
    NullsAreSkipped(codec, 11, [b]);
    assert [b][1..] == [];
    assert WriteOuts(codec, [b]) == codec.put(b) + [];
  }

  lemma SecondExampleAmounts()
    ensures AmountCode(234925952) == 2114333561 && AmountCode(110397) == 993571
  {
  }

  lemma SecondExampleParts()
    ensures Encode(2114333561) == [0x86, 0xef, 0x97, 0xd5, 0x79]
    ensures Encode(993571) == [0xbb, 0xd1, 0x23] && Encode(120891) == [0x86, 0xaf, 0x3b]
  {
    assert Digits(6, true) == [0x86];
    assert Digits(1007, true) == Digits(6, true) + [0xef];
    assert Digits(129047, true) == Digits(1007, true) + [0x97];
    assert Digits(59, true) == [0xbb];
  }

  lemma Joined(a: seq<Byte>, b: seq<Byte>, mask: seq<Byte>, p: seq<Byte>, q: seq<Byte>, c: seq<Byte>)
    ensures a + b + (mask + (p + q)) + c == a + b + mask + p + q + c
  {
  }

  /** The second example of src/core.h. */
  lemma SecondExample(curve: Curve, p: seq<Byte>, q: seq<Byte>)
    requires |p| == |q| == 20
    ensures var c := Coins(true, Seventeen(PayTo(234925952, p), PayTo(110397, q)), 120891, 1);
      !Pruned(c.vout) && Write(Compressor(curve), c) == [0x01] + [0x09] + [0x04, 0x40]
        + ([0x86, 0xef, 0x97, 0xd5, 0x79] + [0] + p) + ([0xbb, 0xd1, 0x23] + [0] + q) + [0x86, 0xaf, 0x3b]
  {
    var a, b := PayTo(234925952, p), PayTo(110397, q);
    SecondExampleAmounts();
    SecondExampleParts();
    PayToIsWritten(curve, 234925952, 2114333561, p);
    PayToIsWritten(curve, 110397, 993571, q);
    WrittenSeventeen(Compressor(curve), a, b, 120891);
  }

  lemma WrittenSeventeen(codec: Codec, a: TxOut, b: TxOut, height: int)
    requires !a.IsNull() && !b.IsNull()
    ensures var c := Coins(true, Seventeen(a, b), height, 1);
      !Pruned(c.vout) &&
      Write(codec, c) == [0x01] + [0x09] + [0x04, 0x40] + codec.put(a) + codec.put(b) + Encode(height)
  {
    var vout := Seventeen(a, b);
    assert Available(vout, 4) by { assert vout[4] == a; }
    SeventeenMask(a, b);
    SeventeenOuts(codec, a, b);
    HeaderCode(vout);
    Joined([0x01], [0x09], [0x04, 0x40], codec.put(a), codec.put(b), Encode(height));
  }

  lemma HeaderCode(vout: seq<TxOut>)
    requires |vout| >= 2 && vout[0] == vout[1] == NULL_OUT && NonzeroBytes(vout, AllBytes(vout)) == 2
    ensures Code(true, First(vout), Second(vout), NonzeroBytes(vout, AllBytes(vout))) == 9
  {
  }

  // ----- Base58 -----

  lemma Step(n: nat, q: nat, r: nat)
    requires n > 0 && n == 58 * q + r && r < 58
    ensures Radix.Digits(n, 58) == Radix.Digits(q, 58) + [r]
  {
  }

  lemma Shows(bytes: seq<nat>, n: nat, digits: seq<nat>)
    requires |bytes| > 0 && bytes[0] != 0 && Radix.Value(bytes, 256) == n && Radix.Digits(n, 58) == digits
    requires Radix.InBase(bytes, 256) && Radix.InBase(digits, 58)
    ensures Base58.Encoded(bytes) == Base58.Text(digits)
  {
    assert Radix.Convert(bytes, 256, 58) == digits;
  }

  lemma {:induction false} ValueOfFour(a: nat, b: nat, c: nat, d: nat)
    ensures Radix.Value([a], 256) == a && Radix.Value([a, b, c], 256) == 65536 * a + 256 * b + c
    ensures Radix.Value([a, b, c, d], 256) == 16777216 * a + 65536 * b + 256 * c + d
  {
    Radix.ValueAppend([], a, 256);
    Radix.ValueAppend([a], b, 256);
    Radix.ValueAppend([a, b], c, 256);
    Radix.ValueAppend([a, b, c], d, 256);
    assert [] + [a] == [a] && [a] + [b] == [a, b] && [a, b] + [c] == [a, b, c] && [a, b, c] + [d] == [a, b, c, d];
  }

  /** Pairs of src/test/data/base58_encode_decode.json. */
  lemma OneByte()
    ensures Base58.Encoded([0x61]) == "2g"
  {
    ValueOfFour(0x61, 0, 0, 0);
    Step(97, 1, 39);
    Step(1, 0, 1);
    Shows([0x61], 97, [1, 39]);
  }

  lemma ThreeBytes()
    ensures Base58.Encoded([0x62, 0x62, 0x62]) == "a3gV"
  {
    ValueOfFour(0x62, 0x62, 0x62, 0);
    Step(6447714, 111167, 28);
    Step(111167, 1916, 39);
    Step(1916, 33, 2);
    Step(33, 0, 33);
    Shows([0x62, 0x62, 0x62], 6447714, [33, 2, 39, 28]);
  }

  lemma FourBytes()
    ensures Base58.Encoded([0x57, 0x2e, 0x47, 0x94]) == "3EFU7m"
  {
    ValueOfFour(0x57, 0x2e, 0x47, 0x94);
    Step(1462650772, 25218116, 44);
    Step(25218116, 434795, 6);
    Step(434795, 7496, 27);
    Step(7496, 129, 14);
    Step(129, 2, 13);
    Step(2, 0, 2);
    Shows([0x57, 0x2e, 0x47, 0x94], 1462650772, [2, 13, 14, 27, 6, 44]);
  }

  /** The six characters that isspace accepts. */
  lemma Blanks(c: char)
    ensures Base58.IsSpace(c) <==> 9 <= c as int <= 13 || c as int == 32
  {
    var n := c as int;
    assert n as char == c;
  }

  /** Zero bytes become ones. */
  lemma ZeroBytes(k: nat)
    ensures Base58.Encoded(Radix.Zeros(k)) == seq(k, _ => '1')
  {
    Radix.ValueOfZeros([], k, 256);
    assert Radix.Zeros(k) + [] == Radix.Zeros(k);
    assert Radix.Convert(Radix.Zeros(k), 256, 58) == Radix.Zeros(k);
    assert forall i :: 0 <= i < k ==> Radix.Zeros(k)[i] < 58;
  }

  // ----- compact numbers -----

  lemma Powers()
    ensures Radix.Pow(256, 0) == 1 && Radix.Pow(256, 1) == 0x100 && Radix.Pow(256, 2) == 0x1_0000
    ensures Radix.Pow(256, 3) == 0x100_0000 && Radix.Pow(256, 4) == 0x1_0000_0000
  {
  }

  /** The words of src/test/bignum_tests.cpp and the numbers that they stand for. */
  lemma CompactWords()
    ensures Compact.FromCompact(0) == 0 && Compact.FromCompact(0x00123456) == 0
    ensures Compact.FromCompact(0x01123456) == 0x12 && Compact.FromCompact(0x01fedcba) == -0x7e
    ensures Compact.FromCompact(0x02123456) == 0x1234 && Compact.FromCompact(0x03123456) == 0x123456
    ensures Compact.FromCompact(0x04123456) == 0x12345600 && Compact.FromCompact(0x04923456) == -0x12345600
    ensures Compact.FromCompact(0x05009234) == 0x92340000
  {
    Powers();
  }

  /** The word of a number, by its exponent e and mantissa c, and the word of its negative. */
  lemma WordIs(m: nat, e: nat, c: nat)
    requires 0 < e < 6 && m > 0 && m < 128 * Radix.Pow(256, e - 1) && (e > 1 ==> 128 * Radix.Pow(256, e - 2) <= m)
    requires e <= 3 ==> c == m * Radix.Pow(256, 3 - e)
    requires e > 3 ==> c == Compact.Cut(m, e - 3)
    ensures Compact.ToCompact(m) == c + e * 0x100_0000
    ensures Compact.ToCompact(-(m as int)) == c + e * 0x100_0000 + 0x80_0000
  {
    Compact.ExponentIs(m, e);
    Pieces(m, e, c);
  }

  lemma Pieces(m: nat, e: nat, c: nat)
    requires m > 0 && Compact.Exponent(m) == e < 256 && Compact.Mantissa(m) == c
    ensures Compact.ToCompact(m) == c + e * 0x100_0000
    ensures Compact.ToCompact(-(m as int)) == c + e * 0x100_0000 + 0x80_0000
  {
    Compact.Composed(m);
    Compact.Composed(-(m as int));
  }

  /** The words that the numbers get. */
  lemma CompactNumbers()
    ensures Compact.ToCompact(0) == 0 && Compact.ToCompact(0x12) == 0x01120000
    ensures Compact.ToCompact(0x80) == 0x02008000 && Compact.ToCompact(-0x7e) == 0x01fe0000
    ensures Compact.ToCompact(0x1234) == 0x02123400 && Compact.ToCompact(0x123456) == 0x03123456
    ensures Compact.ToCompact(0x12345600) == 0x04123456 && Compact.ToCompact(-0x12345600) == 0x04923456
    ensures Compact.ToCompact(0x92340000) == 0x05009234
  {
    Powers();
    WordIs(0x12, 1, 0x120000);
    WordIs(0x80, 2, 0x8000);
    WordIs(0x7e, 1, 0x7e0000);
    WordIs(0x1234, 2, 0x123400);
    WordIs(0x123456, 3, 0x123456);
    WordIs(0x12345600, 4, 0x123456);
    WordIs(0x92340000, 5, 0x9234);
  }

  // ----- Merkle trees -----

  /** The roots of the smallest trees: a node without a neighbour is hashed with itself. */
  lemma SmallRoots<T>(h: (T, T) -> T, a: T, b: T, c: T)
    ensures Merkle.Root(h, [a]) == a && Merkle.Root(h, [a, b]) == h(a, b)
    ensures Merkle.Root(h, [a, b, c]) == h(h(a, b), h(c, c))
  {
  }

  /** The way up from a leaf: an odd index has its neighbour on the left. */
  lemma SmallFold<T>(h: (T, T) -> T, x: T, p: T, q: T)
    ensures Merkle.Fold(h, x, [p, q], 0) == h(h(x, p), q) && Merkle.Fold(h, x, [p, q], 1) == h(h(p, x), q)
    ensures Merkle.Fold(h, x, [p, q], 2) == h(q, h(x, p)) && Merkle.Fold(h, x, [p, q], 3) == h(q, h(p, x))
  {
    assert [p, q][1..] == [q];
    LastStep(h, h(x, p), q, 0);
    LastStep(h, h(p, x), q, 0);
    LastStep(h, h(x, p), q, 1);
    LastStep(h, h(p, x), q, 1);
  }

  lemma LastStep<T>(h: (T, T) -> T, x: T, q: T, i: int)
    ensures Merkle.Fold(h, x, [q], i) == if i % 2 == 1 then h(q, x) else h(x, q)
  {
    assert [q][1..] == [];
  }
}
