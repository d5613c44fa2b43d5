/** Byte strings, their bits, and buffers that are emptied when full: what the streaming hash functions
    share. The order of the bits in a byte is left to the hash function. */
module Buffers {
  import opened Arithmetic

  /** A byte is its eight bits. */
  type Byte = s: seq<bool> | |s| == 8 witness seq(8, _ => false)

  const NO_BITS: Byte := [false, false, false, false, false, false, false, false]

  function Flatten(s: seq<Byte>): (bits: seq<bool>)
    ensures |bits| == 8 * |s|
  {
    seq(8 * |s|, i requires 0 <= i < 8 * |s| => s[i / 8][i % 8])
  }

  function Zeros(n: nat): (bits: seq<bool>)
    ensures |bits| == n
  {
    seq(n, _ => false)
  }

  lemma FlattenAppend(s: seq<Byte>, t: seq<Byte>)
    ensures Flatten(s + t) == Flatten(s) + Flatten(t)
  {
    forall i | 0 <= i < 8 * |s + t| ensures Flatten(s + t)[i] == (Flatten(s) + Flatten(t))[i] {
      if i >= 8 * |s| {
        assert (i - 8 * |s|) / 8 == i / 8 - |s| && (i - 8 * |s|) % 8 == i % 8;
      }
    }
  }

  lemma FlattenSlice(s: seq<Byte>, i: nat, j: nat)
    requires i <= j <= |s|
    ensures Flatten(s[i..j]) == Flatten(s)[8 * i..8 * j]
  {
    assert s == s[..i] + (s[i..j] + s[j..]);
    FlattenAppend(s[..i], s[i..j] + s[j..]);
    FlattenAppend(s[i..j], s[j..]);
  }

  /** Copies data into the buffer from position ptr on. */
  method CopyInto(buf: array<Byte>, ptr: nat, data: seq<Byte>)
    requires ptr + |data| <= buf.Length
    modifies buf
    ensures buf[..] == old(buf[..ptr]) + data + old(buf[ptr + |data|..])
  {
    forall i | 0 <= i < |data| { buf[ptr + i] := data[i]; }
  }

  /** The bytes that fill whole blocks, and those that do not. */
  function Whole(m: seq<Byte>, lim: nat): seq<Byte>
    requires lim > 0
  {
    m[..|m| - |m| % lim]
  }

  function Rest(m: seq<Byte>, lim: nat): seq<Byte>
    requires lim > 0
  {
    m[|m| - |m| % lim..]
  }

  lemma WholeBlocks(m: seq<Byte>, lim: nat)
    requires lim > 0
    ensures |Whole(m, lim)| % lim == 0 && |Rest(m, lim)| == |m| % lim
  {
    var q := |m| / lim;
    assert |m| == q * lim + |m| % lim;
    AddMultiple(0, lim, q);
  }

  lemma PartlyFilled(m: seq<Byte>, chunk: seq<Byte>, lim: nat)
    requires lim > 0 && |Rest(m, lim)| + |chunk| < lim
    ensures Whole(m + chunk, lim) == Whole(m, lim) && Rest(m + chunk, lim) == Rest(m, lim) + chunk
  {
    var q := |m| / lim;
    assert |m| == q * lim + |m| % lim;
    QuotientIsUnique(|m + chunk|, lim, q, |m| % lim + |chunk|);
  }

  lemma FilledUp(m: seq<Byte>, chunk: seq<Byte>, lim: nat)
    requires lim > 0 && |Rest(m, lim)| + |chunk| == lim
    ensures Whole(m + chunk, lim) == Whole(m, lim) + (Rest(m, lim) + chunk) && Rest(m + chunk, lim) == []
  {
    var q := |m| / lim;
    assert |m| == q * lim + |m| % lim;
    QuotientIsUnique(|m + chunk|, lim, q + 1, 0);
  }

  lemma SliceOfPrefix<T>(s: seq<T>, n: nat, i: nat, j: nat)
    requires i <= j <= n <= |s|
    ensures s[..n][i..j] == s[i..j]
  {
  }
}
