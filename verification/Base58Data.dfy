/** Base58 data with a checksum and a version byte (src/base58.h). The checksum is any function from
    byte strings to four bytes. */
module Base58Data {
  import opened Wrappers
  import opened Radix
  import opened Base58

  ghost predicate IsChecksum(sum: seq<nat> -> seq<nat>) {
    forall b :: |sum(b)| == 4 && InBase(sum(b), 256)
  }

  // ----- specification -----

  ghost function EncodedCheck(sum: seq<nat> -> seq<nat>, bytes: seq<nat>): string
    requires IsChecksum(sum) && InBase(bytes, 256)
  {
    Encoded(bytes + sum(bytes))
  }

  /** What a string with a checksum decodes to; nothing if it is too short or the checksum is wrong. */
  ghost function DecodedCheck(sum: seq<nat> -> seq<nat>, t: string): Option<seq<nat>> {
    if Decoded(t).None? then None
    else
      var d := Decoded(t).value;
      if |d| < 4 || d[|d| - 4..] != sum(d[..|d| - 4]) then None else Some(d[..|d| - 4])
  }

  // ----- the code -----

  /** EncodeBase58Check. */
  method EncodeBase58Check(sum: seq<nat> -> seq<nat>, bytes: seq<nat>) returns (str: string)
    requires IsChecksum(sum) && InBase(bytes, 256)
    ensures str == EncodedCheck(sum, bytes)
  {
    var v := bytes;
    var hash := sum(v);
    v := v + hash;
    str := EncodeBase58(v);
  }

  /** DecodeBase58Check: nothing is returned unless the checksum is right. */
  method DecodeBase58Check(sum: seq<nat> -> seq<nat>, str: string) returns (ok: bool, ret: seq<nat>)
    ensures ok <==> DecodedCheck(sum, str).Some?
    ensures ret == if ok then DecodedCheck(sum, str).value else []
  {
    var r := DecodeBase58(str);
    if r.None? { return false, []; }
    ret := r.value;
    if |ret| < 4 { return false, []; }
    var hash := sum(ret[..|ret| - 4]);
    if hash != ret[|ret| - 4..] { return false, []; }
    ret := ret[..|ret| - 4];
    ok := true;
  }

  class Data {
    var version: nat
    var data: seq<nat>

    /** The version and the data are bytes. */
    ghost predicate Valid()
      reads this
    {
      version < 256 && InBase(data, 256)
    }

    constructor ()
      ensures Valid() && version == 0 && data == []
    {
      version, data := 0, [];
    }

    /** The version is cut to a byte. */
    method SetData(versionIn: int, bytes: seq<nat>)
      requires InBase(bytes, 256)
      modifies this
      ensures Valid() && data == bytes && version == versionIn % 256
    {
      version := versionIn % 256;
      data := bytes;
    }

    method SetString(sum: seq<nat> -> seq<nat>, str: string) returns (ok: bool)
      requires IsChecksum(sum)
      modifies this
      ensures Valid()
      ensures ok <==> DecodedCheck(sum, str).Some? && DecodedCheck(sum, str).value != []
      ensures ok ==> [version] + data == DecodedCheck(sum, str).value
      ensures !ok ==> version == 0 && data == []
    {
      var good, tmp := DecodeBase58Check(sum, str);
      if |tmp| == 0 {
        data := [];
        version := 0;
        return false;
      }
      CheckedAreBytes(sum, str);
      version := tmp[0];
      data := tmp[1..];
      assert [tmp[0]] + tmp[1..] == tmp;
      ok := true;
    }

    method ToString(sum: seq<nat> -> seq<nat>) returns (str: string)
      requires Valid() && IsChecksum(sum)
      ensures str == Shown(sum, version, data)
    {
      var v := [version];
      v := v + data;
      str := EncodeBase58Check(sum, v);
    }
  }

  ghost function Shown(sum: seq<nat> -> seq<nat>, version: nat, data: seq<nat>): string
    requires IsChecksum(sum) && version < 256 && InBase(data, 256)
  {
    EncodedCheck(sum, [version] + data)
  }

  // ----- round trips -----

  lemma CheckedAreBytes(sum: seq<nat> -> seq<nat>, t: string)
    ensures DecodedCheck(sum, t).Some? ==> InBase(DecodedCheck(sum, t).value, 256)
  {
    if DecodedCheck(sum, t).Some? {
      EncodeDecode(t);
      var d, v := Decoded(t).value, DecodedCheck(sum, t).value;
      assert forall i :: 0 <= i < |v| ==> v[i] == d[i];
    }
  }

  /** A checked text gives back its bytes, whatever spaces stand around it. */
  lemma DecodeEncodeCheck(sum: seq<nat> -> seq<nat>, bytes: seq<nat>, before: string, after: string)
    requires IsChecksum(sum) && InBase(bytes, 256) && AllSpace(before) && AllSpace(after)
    ensures DecodedCheck(sum, before + EncodedCheck(sum, bytes) + after) == Some(bytes)
  {
    var v := bytes + sum(bytes);
    DecodeEncode(v, before, after);
    assert v[..|v| - 4] == bytes && v[|v| - 4..] == sum(bytes);
  }

  /** What passes the check is, between spaces, the text of what it decodes to. */
  lemma EncodeDecodeCheck(sum: seq<nat> -> seq<nat>, t: string)
    requires IsChecksum(sum) && DecodedCheck(sum, t).Some?
    ensures InBase(DecodedCheck(sum, t).value, 256)
    ensures EncodedCheck(sum, DecodedCheck(sum, t).value) == Core(t)
  {
    var d := Decoded(t).value;
    var v := DecodedCheck(sum, t).value;
    EncodeDecode(t);
    assert d == v + sum(v) by { assert d == d[..|d| - 4] + d[|d| - 4..]; }
    assert InBase(v, 256) by { assert forall i :: 0 <= i < |v| ==> v[i] == d[i]; }
  }

  /** The bytes behind a shown string: the version, the data, and the checksum of both. */
  lemma ShownBytes(sum: seq<nat> -> seq<nat>, version: nat, data: seq<nat>)
    requires IsChecksum(sum) && version < 256 && InBase(data, 256)
    ensures Decoded(Shown(sum, version, data)) == Some([version] + data + sum([version] + data))
  {
    var v := [version] + data + sum([version] + data);
    DecodeEncode(v, "", "");
    assert "" + Encoded(v) + "" == Encoded(v);
  }

  /** Data shown as a string and set from it, with spaces around, are the same data. */
  lemma ShownIsSet(sum: seq<nat> -> seq<nat>, version: nat, data: seq<nat>, before: string, after: string)
    requires IsChecksum(sum) && version < 256 && InBase(data, 256) && AllSpace(before) && AllSpace(after)
    ensures DecodedCheck(sum, before + Shown(sum, version, data) + after) == Some([version] + data)
  {
    DecodeEncodeCheck(sum, [version] + data, before, after);
  }

  /** Data set from a string are shown as that string without the spaces around it. */
  lemma SetIsShown(sum: seq<nat> -> seq<nat>, t: string)
    requires IsChecksum(sum) && DecodedCheck(sum, t).Some? && DecodedCheck(sum, t).value != []
    ensures var d := DecodedCheck(sum, t).value;
      d[0] < 256 && InBase(d[1..], 256) && Shown(sum, d[0], d[1..]) == Core(t)
  {
    var d := DecodedCheck(sum, t).value;
    EncodeDecodeCheck(sum, t);
    assert [d[0]] + d[1..] == d;
  }
}
