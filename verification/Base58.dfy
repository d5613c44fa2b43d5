/** Base58 text (src/base58.h). */
module Base58 {
  import opened Wrappers
  import opened Sequences
  import opened Radix
  import opened BigNumBytes

  const ALPHABET: string := "123456789" + "ABCDEFGHJKLMNPQRSTUVWXYZ" + "abcdefghijkmnopqrstuvwxyz"

  // ----- specification -----

  /** The character of a digit: letters and digits without 0, I, O and l. */
  function Char(d: nat): char
    requires d < 58
  {
    if d < 9 then '1' + d as char
    else if d < 17 then 'A' + (d - 9) as char
    else if d < 22 then 'J' + (d - 17) as char
    else if d < 33 then 'P' + (d - 22) as char
    else if d < 44 then 'a' + (d - 33) as char
    else 'm' + (d - 44) as char
  }

  /** The digit that a character stands for. */
  function Digit(c: char): (d: Option<nat>)
    ensures d.Some? ==> d.value < 58
  {
    var n := c as int;
    if '1' <= c <= '9' then Some(n - 49)
    else if 'A' <= c <= 'H' then Some(n - 65 + 9)
    else if 'J' <= c <= 'N' then Some(n - 74 + 17)
    else if 'P' <= c <= 'Z' then Some(n - 80 + 22)
    else if 'a' <= c <= 'k' then Some(n - 97 + 33)
    else if 'm' <= c <= 'z' then Some(n - 109 + 44)
    else None
  }

  lemma CharDigit(d: nat)
    requires d < 58
    ensures Digit(Char(d)) == Some(d)
  {
  }

  lemma DigitChar(c: char)
    requires Digit(c).Some?
    ensures Char(Digit(c).value) == c
  {
  }

  lemma AlphabetLow(d: nat)
    requires d < 29
    ensures |ALPHABET| == 58 && ALPHABET[d] == Char(d)
  {
    match d
    case 0 => case 1 => case 2 => case 3 => case 4 => case 5 => case 6 => case 7 => case 8 => case 9 =>
    case 10 => case 11 => case 12 => case 13 => case 14 => case 15 => case 16 => case 17 => case 18 => case 19 =>
    case 20 => case 21 => case 22 => case 23 => case 24 => case 25 => case 26 => case 27 => case 28 =>
  }

  lemma AlphabetHigh(d: nat)
    requires 29 <= d < 58
    ensures |ALPHABET| == 58 && ALPHABET[d] == Char(d)
  {
    match d
    case 29 => case 30 => case 31 => case 32 => case 33 => case 34 => case 35 => case 36 => case 37 => case 38 =>
    case 39 => case 40 => case 41 => case 42 => case 43 => case 44 => case 45 => case 46 => case 47 => case 48 =>
    case 49 => case 50 => case 51 => case 52 => case 53 => case 54 => case 55 => case 56 => case 57 =>
  }

  /** The table of the program holds these characters. */
  lemma AlphabetIsChars(d: nat)
    requires d < 58
    ensures |ALPHABET| == 58 && ALPHABET[d] == Char(d)
  {
    if d < 29 { AlphabetLow(d); } else { AlphabetHigh(d); }
  }

  function Text(s: seq<nat>): (t: string)
    requires InBase(s, 58)
    ensures |t| == |s|
  {
    seq(|s|, i requires 0 <= i < |s| => Char(s[i]))
  }

  ghost predicate InAlphabet(t: string) {
    forall i :: 0 <= i < |t| ==> Digit(t[i]).Some?
  }

  function Numbers(t: string): (s: seq<nat>)
    requires InAlphabet(t)
    ensures |s| == |t|
  {
    seq(|t|, i requires 0 <= i < |t| => Digit(t[i]).value)
  }

  /** The text of a byte string. */
  ghost function Encoded(bytes: seq<nat>): string
    requires InBase(bytes, 256)
  {
    ConvertBack(bytes, 256, 58);
    Text(Convert(bytes, 256, 58))
  }

  predicate IsSpace(c: char) {
    c == ' ' || c == '\t' || c == '\n' || c == '\r' || c as int == 11 || c as int == 12
  }

  ghost predicate AllSpace(t: string) {
    forall i :: 0 <= i < |t| ==> IsSpace(t[i])
  }

  const NUL: char := 0 as char

  /** A string as C sees it: up to the first NUL. */
  function CStr(t: string): (r: string)
    ensures NUL !in r && r <= t
  {
    if |t| == 0 || t[0] == NUL then [] else
    var r := CStr(t[1..]);
    assert t == [t[0]] + t[1..];
    [t[0]] + r
  }

  function Spaces(t: string): (k: nat)
    ensures k <= |t| && (k < |t| ==> !IsSpace(t[k]))
    ensures forall i :: 0 <= i < k ==> IsSpace(t[i])
  {
    if |t| == 0 || !IsSpace(t[0]) then 0 else
    var k := Spaces(t[1..]);
    assert forall i :: 0 < i <= k ==> t[i] == t[1..][i - 1];
    k + 1
  }

  /** How many characters of the alphabet a string begins with. */
  function Letters(t: string): (k: nat)
    ensures k <= |t| && (k < |t| ==> Digit(t[k]).None?)
    ensures InAlphabet(t[..k])
  {
    if |t| == 0 || Digit(t[0]).None? then 0 else
    var k := Letters(t[1..]);
    assert t[..k + 1] == [t[0]] + t[1..][..k];
    k + 1
  }

  /** The string without spaces before it. */
  function Stripped(t: string): string {
    CStr(t)[Spaces(CStr(t))..]
  }

  function Core(t: string): (c: string)
    ensures InAlphabet(c)
  {
    Stripped(t)[..Letters(Stripped(t))]
  }

  function Rest(t: string): string {
    Stripped(t)[Letters(Stripped(t))..]
  }

  /** What a string decodes to: nothing if anything but spaces follows its digits. */
  ghost function Decoded(t: string): Option<seq<nat>> {
    if AllSpace(Rest(t)) then Some(Convert(Numbers(Core(t)), 58, 256)) else None
  }

  /** With a zero byte at the end the number is the value of the bytes. */
  lemma PositiveFromBytes(bytes: seq<nat>)
    ensures FromBytes(Reversed(bytes) + [0]) == Value(bytes, 256)
  {
    ReversedAppend(Reversed(bytes), [0]);
    ReversedTwice(bytes);
    assert Reversed(Reversed(bytes) + [0]) == Zeros(1) + bytes;
    ValueOfZeros(bytes, 1, 256);
  }

  // ----- the code -----

  /** EncodeBase58. */
  method EncodeBase58(bytes: seq<nat>) returns (str: string)
    requires InBase(bytes, 256)
    ensures str == Encoded(bytes)
  {
    PositiveFromBytes(bytes);
    var tmp := Reversed(bytes) + [0];
    var digits := DigitLoop(FromBytes(tmp));
    str := [];
    var i := 0;
    while i < |digits|
      invariant i <= |digits| && str == Text(digits[..i])
    {
      AlphabetIsChars(digits[i]);
      str := str + [ALPHABET[digits[i]]];
      i := i + 1;
    }
    var p := 0;
    while p < |bytes| && bytes[p] == 0
      invariant p <= |bytes| && p <= LeadingZeros(bytes)
      invariant str == Text(digits + Zeros(p))
    {
      LeadingZeroAt(bytes, p);
      AlphabetIsChars(0);
      str := str + [ALPHABET[0]];
      p := p + 1;
    }
    LeadingZeroAt(bytes, p);
    str := Reversed(str);
    ReversedAppend(digits, Zeros(p));
    assert Reversed(Zeros(p)) == Zeros(p);
  }

  lemma LeadingZeroAt(s: seq<nat>, p: nat)
    requires p <= LeadingZeros(s)
    ensures p < LeadingZeros(s) <==> p < |s| && s[p] == 0
  {
    if p < LeadingZeros(s) { assert s[..LeadingZeros(s)][p] == Zeros(LeadingZeros(s))[p]; }
  }

  /** The first loop of EncodeBase58: the digits from the last one on. */
  method DigitLoop(n: nat) returns (digits: seq<nat>)
    ensures Reversed(digits) == Digits(n, 58) && InBase(digits, 58)
  {
    digits := [];
    var bn := n;
    while bn > 0
      invariant InBase(digits, 58) && Digits(n, 58) == Digits(bn, 58) + Reversed(digits)
    {
      var rem := bn % 58;
      ReversedAppend(digits, [rem]);
      digits := digits + [rem];
      bn := bn / 58;
    }
  }

  /** strchr. */
  method StrChr(s: string, c: char) returns (r: Option<nat>)
    ensures r.None? ==> c !in s
    ensures r.Some? ==> r.value < |s| && s[r.value] == c
  {
    var i := 0;
    while i < |s|
      invariant i <= |s| && c !in s[..i]
    {
      if s[i] == c { return Some(i); }
      i := i + 1;
    }
    r := None;
  }

  method Lookup(c: char) returns (r: Option<nat>)
    ensures r == Digit(c)
  {
    r := StrChr(ALPHABET, c);
    if r.Some? {
      AlphabetIsChars(r.value);
      CharDigit(r.value);
    } else if Digit(c).Some? {
      DigitChar(c);
      AlphabetIsChars(Digit(c).value);
    }
  }

  /** The digits that a string without leading spaces begins with. */
  function Figures(t: string): seq<nat> {
    Numbers(t[..Letters(t)])
  }

  /** The first loop of DecodeBase58: the value of the digits; not ok if something but spaces follows. */
  method ReadFigures(psz: string) returns (ok: bool, bn: nat)
    ensures ok <==> AllSpace(psz[Letters(psz)..])
    ensures ok ==> bn == Value(Figures(psz), 58)
  {
    bn := 0;
    ghost var ns := Figures(psz);
    var p := 0;
    while p < |psz|
      invariant p <= Letters(psz) && bn == Value(ns[..p], 58)
    {
      LetterAt(psz, p);
      var p1 := Lookup(psz[p]);
      if p1.None? {
        var q := p + Spaces(psz[p..]);
        SpacesToEnd(psz[p..]);
        assert ns[..p] == ns;
        return q == |psz|, bn;
      }
      ValueAppend(ns[..p], ns[p], 58);
      assert ns[..p + 1] == ns[..p] + [ns[p]];
      bn := bn * 58 + p1.value;
      p := p + 1;
    }
    assert ns[..p] == ns;
    ok := true;
  }

  lemma FirstFigures(t: string, k: nat)
    requires k <= LeadingZeros(Figures(t))
    ensures k < LeadingZeros(Figures(t)) <==> k < |t| && t[k] == Char(0)
  {
    LeadingZeroAt(Figures(t), k);
    LetterAt(t, k);
    CharDigit(0);
    if k < |t| && Digit(t[k]) == Some(0) { DigitChar(t[k]); }
  }

  method LeadingOnes(psz: string) returns (zeros: nat)
    ensures zeros == LeadingZeros(Figures(psz))
  {
    zeros := 0;
    AlphabetIsChars(0);
    FirstFigures(psz, zeros);
    while zeros < |psz| && psz[zeros] == ALPHABET[0]
      invariant zeros <= LeadingZeros(Figures(psz))
      invariant zeros < LeadingZeros(Figures(psz)) <==> zeros < |psz| && psz[zeros] == Char(0)
    {
      zeros := zeros + 1;
      FirstFigures(psz, zeros);
    }
  }

  /** DecodeBase58. */
  method DecodeBase58(str: string) returns (r: Option<seq<nat>>)
    ensures r == Decoded(str)
  {
    var psz := CStr(str);
    psz := psz[Spaces(psz)..];
    var ok, bn := ReadFigures(psz);
    if !ok { return None; }
    var tmp := ToBytes(bn);
    DigitsAreDigits(bn, 256);
    tmp := TrimSign(tmp, Digits(bn, 256));
    var zeros := LeadingOnes(psz);
    r := Some(Zeros(zeros) + Reversed(tmp));
  }

  /** Drops the byte that only keeps the sign bit clear. */
  method TrimSign(tmp: seq<nat>, ghost d: seq<nat>) returns (r: seq<nat>)
    requires tmp == Reversed(Signed(d, false)) && (|d| > 0 ==> d[0] != 0)
    ensures Reversed(r) == d
  {
    SignByte(d);
    var k := |tmp|;
    r := tmp;
    if k >= 2 && tmp[k - 1] == 0 && tmp[k - 2] >= 128 { r := tmp[..k - 1]; }
  }

  lemma SignByte(d: seq<nat>)
    ensures |d| > 0 && d[0] >= 128 ==>
      Reversed([0] + d) == Reversed(d) + [0] && Reversed(Reversed([0] + d)[..|d|]) == d
    ensures Reversed(Reversed(d)) == d
    ensures |d| > 0 && d[0] < 128 ==> Signed(d, false) == d
  {
    ReversedAppend([0], d);
    ReversedTwice(d);
    assert (Reversed(d) + [0])[..|d|] == Reversed(d);
    if |d| > 0 { assert d[0 := d[0] + 0] == d; }
  }

  lemma LetterAt(t: string, p: nat)
    requires p <= Letters(t)
    ensures p < Letters(t) <==> p < |t| && Digit(t[p]).Some?
  {
    if p < Letters(t) { assert t[..Letters(t)][p] == t[p]; }
  }

  lemma SpacesToEnd(t: string)
    ensures Spaces(t) == |t| <==> AllSpace(t)
  {
  }

  // ----- round trips -----

  lemma NumbersOfText(s: seq<nat>)
    requires InBase(s, 58)
    ensures InAlphabet(Text(s)) && Numbers(Text(s)) == s
  {
    forall i | 0 <= i < |s| ensures Digit(Text(s)[i]) == Some(s[i]) { CharDigit(s[i]); }
  }

  lemma TextOfNumbers(t: string)
    requires InAlphabet(t)
    ensures InBase(Numbers(t), 58) && Text(Numbers(t)) == t
  {
    forall i | 0 <= i < |t| ensures Text(Numbers(t))[i] == t[i] { DigitChar(t[i]); }
  }

  lemma {:induction false} CStrWhole(t: string)
    requires NUL !in t
    ensures CStr(t) == t
  {
    if |t| > 0 { CStrWhole(t[1..]); }
  }

  lemma LettersAreNeither(t: string)
    requires InAlphabet(t)
    ensures NUL !in t && forall i :: 0 <= i < |t| ==> !IsSpace(t[i])
  {
  }

  lemma {:induction false} SpacesThen(w: string, t: string)
    requires AllSpace(w) && (|t| > 0 ==> !IsSpace(t[0]))
    ensures Spaces(w + t) == |w|
  {
    if |w| > 0 {
      assert (w + t)[1..] == w[1..] + t;
      SpacesThen(w[1..], t);
    } else {
      assert w + t == t;
    }
  }

  lemma {:induction false} LettersThen(t: string, w: string)
    requires InAlphabet(t) && (|w| > 0 ==> Digit(w[0]).None?)
    ensures Letters(t + w) == |t|
  {
    if |t| > 0 {
      assert (t + w)[1..] == t[1..] + w;
      LettersThen(t[1..], w);
    } else {
      assert t + w == w;
    }
  }

  /** The digits between spaces. */
  lemma PartsOf(before: string, core: string, after: string)
    requires AllSpace(before) && InAlphabet(core) && AllSpace(after)
    ensures Core(before + core + after) == core && AllSpace(Rest(before + core + after))
  {
    LettersAreNeither(core);
    var t := before + core + after;
    CStrWhole(t);
    if core == [] {
      SpacesThen(before + after, []);
      assert before + after + [] == t;
    } else {
      assert t == before + (core + after);
      SpacesThen(before, core + after);
      LettersThen(core, after);
      assert (core + after)[..|core|] == core && (core + after)[|core|..] == after;
    }
  }

  /** What is decoded from a text, whatever spaces stand around it, is what was encoded. */
  lemma DecodeEncode(bytes: seq<nat>, before: string, after: string)
    requires InBase(bytes, 256) && AllSpace(before) && AllSpace(after)
    ensures Decoded(before + Encoded(bytes) + after) == Some(bytes)
  {
    ConvertBack(bytes, 256, 58);
    NumbersOfText(Convert(bytes, 256, 58));
    PartsOf(before, Encoded(bytes), after);
  }

  /** Encoding what was decoded gives the digits of the string again. */
  lemma EncodeDecode(t: string)
    requires Decoded(t).Some?
    ensures InBase(Decoded(t).value, 256) && Encoded(Decoded(t).value) == Core(t)
  {
    TextOfNumbers(Core(t));
    ConvertBack(Numbers(Core(t)), 58, 256);
  }

  /** A string over the alphabet decodes, and is the only text of what it decodes to. */
  lemma AlphabetIsExact(t: string)
    requires InAlphabet(t)
    ensures Decoded(t).Some? && InBase(Decoded(t).value, 256) && Encoded(Decoded(t).value) == t
  {
    PartsOf([], t, []);
    assert [] + t + [] == t;
    EncodeDecode(t);
  }

  ghost predicate Framed(t: string, before: string, core: string, after: string) {
    AllSpace(before) && InAlphabet(core) && AllSpace(after) && t == before + core + after
  }

  lemma ThreeParts<T>(s: seq<T>, k: nat, l: nat)
    requires k <= |s| && l <= |s| - k
    ensures s == s[..k] + s[k..][..l] + s[k..][l..]
  {
  }

  lemma FrontIsSpace(t: string)
    ensures AllSpace(t[..Spaces(t)])
  {
  }

  lemma AcceptedIsFramed(t: string)
    requires Decoded(t).Some?
    ensures Framed(CStr(t), CStr(t)[..Spaces(CStr(t))], Core(t), Rest(t))
  {
    FrontIsSpace(CStr(t));
    ThreeParts(CStr(t), Spaces(CStr(t)), Letters(Stripped(t)));
  }

  lemma FramedIsAccepted(t: string, before: string, core: string, after: string)
    requires Framed(CStr(t), before, core, after)
    ensures Decoded(t).Some?
  {
    CStrWhole(CStr(t));
    PartsOf(before, core, after);
  }

  /** Up to its first NUL, the string is digits between spaces. */
  ghost predicate WellFormed(t: string) {
    exists before: string, core: string, after: string :: Framed(CStr(t), before, core, after)
  }

  lemma AcceptedIsWellFormed(t: string)
    requires Decoded(t).Some?
    ensures WellFormed(t)
  {
    AcceptedIsFramed(t);
  }

  lemma WellFormedIsAccepted(t: string)
    requires WellFormed(t)
    ensures Decoded(t).Some?
  {
    var before, core, after :| Framed(CStr(t), before, core, after);
    FramedIsAccepted(t, before, core, after);
  }

  /** A string is accepted exactly when it is well-formed. */
  lemma AcceptedExactly(t: string)
    ensures Decoded(t).Some? <==> WellFormed(t)
  {
    if Decoded(t).Some? { AcceptedIsWellFormed(t); }
    if WellFormed(t) { WellFormedIsAccepted(t); }
  }

  // ----- length -----

  lemma PowersOf58()
    ensures Pow(58, 69) ==
      0x1263509ff6cf91ebc3f3e09bcdcf667df38b9519a85977777ee810a6260392e031d36e36b64919929755a00000000000000000
  {
    assert Pow(58, 1) == 58;
    PowAdd(58, 1, 1);
    assert Pow(58, 2) == 3364;
    PowAdd(58, 2, 2);
    assert Pow(58, 4) == 11316496;
    PowAdd(58, 4, 4);
    assert Pow(58, 8) == 128063081718016;
    PowAdd(58, 8, 8);
    assert Pow(58, 16) == 16400152899115243850138976256;
    PowAdd(58, 1, 16);
    assert Pow(58, 17) == 951208868148684143308060622848;
    PowAdd(58, 17, 17);
    assert Pow(58, 34) == 904798310844700775313327215140493940623303545877497699631104;
    PowAdd(58, 34, 34);
    assert Pow(58, 68) ==
      0x51291d3da279b033ee22c4e4a6e2dedc799439d259d1820f6deea1c2dcc053504eae09c5598944bbfd100000000000000000;
    PowAdd(58, 1, 68);
    assert Pow(58, 69) ==
      0x1263509ff6cf91ebc3f3e09bcdcf667df38b9519a85977777ee810a6260392e031d36e36b64919929755a00000000000000000;
  }

  lemma PowersOf256()
    ensures Pow(256, 50) ==
      0x10000000000000000000000000000000000000000000000000000000000000000000000000000000000000000000000000000
  {
    assert Pow(256, 1) == 256;
    PowAdd(256, 1, 1);
    assert Pow(256, 2) == 65536;
    PowAdd(256, 2, 2);
    assert Pow(256, 4) == 4294967296;
    PowAdd(256, 1, 4);
    assert Pow(256, 5) == 1099511627776;
    PowAdd(256, 5, 5);
    assert Pow(256, 10) == 1208925819614629174706176;
    PowAdd(256, 10, 10);
    assert Pow(256, 20) == 1461501637330902918203684832716283019655932542976;
    PowAdd(256, 5, 20);
    assert Pow(256, 25) == 1606938044258990275541962092341162602522202993782792835301376;
    PowAdd(256, 25, 25);
    assert Pow(256, 50) ==
      0x10000000000000000000000000000000000000000000000000000000000000000000000000000000000000000000000000000;
  }

  lemma BasesCompare()
    ensures Pow(256, 50) <= Pow(58, 69)
  {
    PowersOf58();
    PowersOf256();
  }

  /** Since 256^50 <= 58^69, a power of 58 below 256^m has an exponent below 1.38 * m. */
  lemma ExponentBound(k: nat, m: nat)
    requires m > 0 && Pow(58, k) < Pow(256, m)
    ensures 50 * k < 69 * m
  {
    PowStrict(Pow(58, k), Pow(256, m), 50);
    PowMul(58, k, 50);
    PowMul(256, m, 50);
    ScaledBases(m);
    if 69 * m <= k * 50 { PowGrows(58, 69 * m, k * 50); }
  }

  lemma ScaledBases(m: nat)
    ensures Pow(256, m * 50) <= Pow(58, 69 * m)
  {
    PowMul(256, 50, m);
    PowMul(58, 69, m);
    BasesCompare();
    PowMonotone(Pow(256, 50), Pow(58, 69), m);
    assert m * 50 == 50 * m;
  }

  /** A number of m bytes has at most m * 138 / 100 + 1 digits. */
  lemma DigitCount(n: nat, m: nat)
    requires n < Pow(256, m)
    ensures 100 * |Digits(n, 58)| <= 138 * m + 100
  {
    if n > 0 && m > 0 {
      DigitsBound(n, 58);
      ExponentBound(|Digits(n, 58)| - 1, m);
    }
  }

  /** The space that EncodeBase58 reserves is enough. */
  lemma EncodedLength(bytes: seq<nat>)
    requires InBase(bytes, 256)
    ensures |Encoded(bytes)| <= |bytes| * 138 / 100 + 1
  {
    var z := LeadingZeros(bytes);
    var rest := bytes[z..];
    assert bytes == Zeros(z) + rest;
    ValueOfZeros(rest, z, 256);
    ValueBound(rest, 256);
    DigitCount(Value(bytes, 256), |rest|);
  }
}
