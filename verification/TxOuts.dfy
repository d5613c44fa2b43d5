/** Transaction outputs and their compact serialization (src/core.h, src/script.h, src/script.cpp). */
module TxOuts {
  import opened Wrappers
  import opened Words
  import opened VarInt
  import Amount

  /** An output; the null one has value -1 and no script. */
  datatype TxOut = TxOut(value: int, script: seq<Byte>) {
    predicate IsNull() { value == -1 }
  }

  const NULL_OUT := TxOut(-1, [])

  const OP_DUP: Byte := 0x76
  const OP_HASH160: Byte := 0xa9
  const OP_EQUAL: Byte := 0x87
  const OP_EQUALVERIFY: Byte := 0x88
  const OP_CHECKSIG: Byte := 0xac

  const SPECIAL_SCRIPTS := 6

  /** The elliptic curve: which uncompressed keys are valid, and the key that a compressed one stands for. */
  datatype Curve = Curve(valid: seq<Byte> -> bool, decompress: seq<Byte> -> Option<seq<Byte>>)

  predicate IsFullKey(curve: Curve, key: seq<Byte>) {
    |key| == 65 && key[0] == 4 && curve.valid(key)
  }

  /** Its first coordinate and the parity of its second one. */
  function Shortened(key: seq<Byte>): seq<Byte>
    requires |key| == 65
  {
    [2 + key[64] % 2] + key[1..33]
  }

  /** A valid uncompressed key is determined by its short form, and what short forms stand for has its length. */
  ghost predicate Sound(curve: Curve) {
    && (forall key: seq<Byte> :: IsFullKey(curve, key) ==> curve.decompress(Shortened(key)) == Some(key))
    && (forall k: seq<Byte> :: curve.decompress(k).Some? ==> |curve.decompress(k).value| == 65)
  }

  // ----- scripts with a shorter form -----

  predicate IsToKeyID(script: seq<Byte>) {
    && |script| == 25 && script[0] == OP_DUP && script[1] == OP_HASH160 && script[2] == 20
    && script[23] == OP_EQUALVERIFY && script[24] == OP_CHECKSIG
  }

  predicate IsToScriptID(script: seq<Byte>) {
    |script| == 23 && script[0] == OP_HASH160 && script[1] == 20 && script[22] == OP_EQUAL
  }

  predicate IsToCompressedKey(script: seq<Byte>) {
    && |script| == 35 && script[0] == 33 && script[34] == OP_CHECKSIG
    && (script[1] == 0x02 || script[1] == 0x03)
  }

  predicate IsToFullKey(curve: Curve, script: seq<Byte>) {
    && |script| == 67 && script[0] == 65 && script[66] == OP_CHECKSIG && script[1] == 0x04
    && curve.valid(script[1..66])
  }

  /** CScriptCompressor::Compress. */
  function Compress(curve: Curve, script: seq<Byte>): Option<seq<Byte>> {
    if IsToKeyID(script) then Some([0x00] + script[3..23])
    else if IsToScriptID(script) then Some([0x01] + script[2..22])
    else if IsToCompressedKey(script) then Some([script[1]] + script[2..34])
    else if IsToFullKey(curve, script) then Some([0x04 + script[65] % 2] + script[2..34])
    else None
  }

  /** GetSpecialSize. */
  function SpecialSize(kind: nat): nat {
    if kind < 2 then 20 else if kind < 6 then 32 else 0
  }

  /** CScriptCompressor::Decompress, into a script that was empty before. */
  function Decompress(curve: Curve, kind: nat, payload: seq<Byte>): seq<Byte>
    requires kind < SPECIAL_SCRIPTS && |payload| == SpecialSize(kind)
  {
    match kind
    case 0 => [OP_DUP, OP_HASH160, 20] + payload + [OP_EQUALVERIFY, OP_CHECKSIG]
    case 1 => [OP_HASH160, 20] + payload + [OP_EQUAL]
    case 2 => [33, 2] + payload + [OP_CHECKSIG]
    case 3 => [33, 3] + payload + [OP_CHECKSIG]
    case _ =>
      var key := curve.decompress([kind - 2] + payload);
      if key.None? then [] else [65] + key.value + [OP_CHECKSIG]
  }

  function WriteScript(curve: Curve, script: seq<Byte>): seq<Byte> {
    var short := Compress(curve, script);
    if short.Some? then short.value else Encode((|script| + SPECIAL_SCRIPTS) % UINT) + script
  }

  /** The length fits the header of a script of that length. */
  predicate Countable(script: seq<Byte>) {
    |script| + SPECIAL_SCRIPTS < UINT
  }

  function ReadScript(curve: Curve, s: seq<Byte>): Option<Parsed<seq<Byte>>> {
    var size := ReadAs(UINT, s);
    if size.None? then None
    else
      var n, rest := size.value.value, size.value.rest;
      var count := if n < SPECIAL_SCRIPTS then SpecialSize(n) else n - SPECIAL_SCRIPTS;
      if |rest| < count then None
      else if n < SPECIAL_SCRIPTS then Some(Parsed(Decompress(curve, n, rest[..count]), rest[count..]))
      else Some(Parsed(rest[..count], rest[count..]))
  }

  // ----- outputs -----

  /** MoneyRange (src/main.h). */
  predicate MoneyRange(value: int) {
    0 <= value <= Amount.MAX_MONEY
  }

  /** What CompressAmount returns for a value, taken as an unsigned integer of 64 bits. */
  function AmountCode(value: int): nat {
    Amount.Compress(value % ULONG) % ULONG
  }

  /** The value that DecompressAmount gives for a code. */
  function ValueOfCode(code: nat): int {
    AsLong(Amount.Decompress(code) % ULONG)
  }

  /** CTxOutCompressor. */
  function WriteTxOut(curve: Curve, out: TxOut): seq<Byte> {
    Encode(AmountCode(out.value)) + WriteScript(curve, out.script)
  }

  function ReadTxOut(curve: Curve, s: seq<Byte>): Option<Parsed<TxOut>> {
    var code := ReadAs(ULONG, s);
    if code.None? then None
    else
      var script := ReadScript(curve, code.value.rest);
      if script.None? then None
      else Some(Parsed(TxOut(ValueOfCode(code.value.value), script.value.value), script.value.rest))
  }

  // ----- round trips -----

  /** The short form begins with its kind, and the kind and the payload give the script back. */
  lemma ShortForm(curve: Curve, script: seq<Byte>)
    requires Sound(curve) && Compress(curve, script).Some?
    ensures var short := Compress(curve, script).value;
      && |short| > 0 && short[0] < SPECIAL_SCRIPTS && |short| == 1 + SpecialSize(short[0])
      && Decompress(curve, short[0], short[1..]) == script
  {
    if IsToKeyID(script) {
      assert script == script[..3] + script[3..23] + script[23..];
    } else if IsToScriptID(script) {
      assert script == script[..2] + script[2..22] + script[22..];
    } else if IsToCompressedKey(script) {
      assert script == script[..2] + script[2..34] + script[34..];
    } else {
      FullKeyForm(curve, script);
    }
  }

  lemma FullKeyForm(curve: Curve, script: seq<Byte>)
    requires Sound(curve) && IsToFullKey(curve, script)
    ensures var kind := 0x04 + script[65] % 2;
      Decompress(curve, kind, script[2..34]) == script
  {
    var key := script[1..66];
    assert IsFullKey(curve, key);
    assert key[64] == script[65] && key[1..33] == script[2..34];
    assert curve.decompress(Shortened(key)) == Some(key);
    assert script[..1] == [65] && script[66..] == [OP_CHECKSIG];
    assert script == script[..1] + key + script[66..];
  }

  lemma ShortScriptRoundTrip(curve: Curve, script: seq<Byte>, t: seq<Byte>)
    requires Sound(curve) && Compress(curve, script).Some?
    ensures ReadScript(curve, WriteScript(curve, script) + t) == Some(Parsed(script, t)) && Countable(script)
  {
    ShortForm(curve, script);
    var s := Compress(curve, script).value;
    var kind, payload := s[0], s[1..];
    assert s + t == Encode(kind) + (payload + t);
    RoundTrip(UINT, kind, payload + t);
    assert (payload + t)[..SpecialSize(kind)] == payload && (payload + t)[SpecialSize(kind)..] == t;
  }

  lemma LongScriptRoundTrip(curve: Curve, script: seq<Byte>, t: seq<Byte>)
    requires Compress(curve, script).None? && Countable(script)
    ensures ReadScript(curve, WriteScript(curve, script) + t) == Some(Parsed(script, t))
  {
    var size := |script| + SPECIAL_SCRIPTS;
    RoundTrip(UINT, size, script + t);
    assert WriteScript(curve, script) + t == Encode(size) + (script + t);
    assert (script + t)[..|script|] == script && (script + t)[|script|..] == t;
  }

  /** What is read after a wrapped length is too short. */
  lemma UncountableIsLost(curve: Curve, script: seq<Byte>, t: seq<Byte>)
    requires Sound(curve) && Compress(curve, script).None? && !Countable(script)
    ensures ReadScript(curve, WriteScript(curve, script) + t) != Some(Parsed(script, t))
  {
    var size := (|script| + SPECIAL_SCRIPTS) % UINT;
    RoundTrip(UINT, size, script + t);
    assert WriteScript(curve, script) + t == Encode(size) + (script + t);
    var read := ReadScript(curve, Encode(size) + (script + t));
    if size >= SPECIAL_SCRIPTS {
      assert read.Some? ==> |read.value.value| == size - SPECIAL_SCRIPTS;
    } else {
      assert read.Some? ==> |read.value.value| <= 67;
    }
  }

  /** A script is read back, with a shorter form or without, exactly when its length fits. */
  lemma ScriptRoundTrip(curve: Curve, script: seq<Byte>, t: seq<Byte>)
    requires Sound(curve)
    ensures ReadScript(curve, WriteScript(curve, script) + t) == Some(Parsed(script, t)) <==> Countable(script)
  {
    if Compress(curve, script).Some? {
      ShortScriptRoundTrip(curve, script, t);
    } else if Countable(script) {
      LongScriptRoundTrip(curve, script, t);
    } else {
      UncountableIsLost(curve, script, t);
    }
  }

  lemma ValueRoundTrip(value: int, t: seq<Byte>)
    requires IsLong(value)
    ensures ReadAs(ULONG, Encode(AmountCode(value)) + t) == Some(Parsed(AmountCode(value), t))
    ensures ValueOfCode(AmountCode(value)) == value <==> Amount.Recoverable(value % ULONG)
    ensures MoneyRange(value) ==> Amount.Recoverable(value % ULONG)
  {
    RoundTrip(ULONG, AmountCode(value), t);
    LongFromBits(value);
    Amount.RecoveredIn64Bits(value % ULONG);
    if MoneyRange(value) { Amount.SmallInWord(value); }
  }

  /** An output of any value of 64 bits is read back exactly when the amount is recoverable, as an amount of money
      is, and the length of its script fits. */
  lemma TxOutRoundTrip(curve: Curve, out: TxOut, t: seq<Byte>)
    requires Sound(curve) && IsLong(out.value)
    ensures ReadTxOut(curve, WriteTxOut(curve, out) + t) == Some(Parsed(out, t)) <==>
      Amount.Recoverable(out.value % ULONG) && Countable(out.script)
    ensures MoneyRange(out.value) ==> Amount.Recoverable(out.value % ULONG)
  {
    var code, script := Encode(AmountCode(out.value)), WriteScript(curve, out.script);
    assert code + script + t == code + (script + t);
    ValueRoundTrip(out.value, script + t);
    ScriptRoundTrip(curve, out.script, t);
  }
}
