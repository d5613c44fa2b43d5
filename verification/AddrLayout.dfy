/** The file that the address manager is written to, position by position (src/addrman.h:250-262). */
module AddrLayout {
  import opened AddrTypes
  import opened AddrTables
  import opened AddrStore
  import opened Ascending

  /** The length of the blocks of some buckets: a number for each bucket and one for each of its members. */
  ghost function Length(buckets: seq<set<int>>): nat {
    if |buckets| == 0 then 0 else 1 + |buckets[0]| + Length(buckets[1..])
  }

  lemma {:induction false} BlocksLength(ids: set<int>, buckets: seq<set<int>>)
    ensures |Blocks(ids, buckets)| == Length(buckets)
  {
    if |buckets| > 0 {
      BlocksLength(ids, buckets[1..]);
      BlockSize(ids, buckets[0]);
    }
  }

  lemma BlockSize(ids: set<int>, bucket: set<int>)
    ensures |Block(ids, bucket)| == 1 + |bucket|
  {
  }

  lemma {:induction false} BlocksPrefix(ids: set<int>, buckets: seq<set<int>>, b: nat)
    requires b <= |buckets|
    ensures Blocks(ids, buckets[..b]) <= Blocks(ids, buckets)
    decreases |buckets| - b
  {
    if b < |buckets| {
      BlocksPrefix(ids, buckets, b + 1);
      NextBlock(ids, buckets, b);
    } else {
      assert buckets[..b] == buckets;
    }
  }

  /** The block of a bucket stands behind those of the buckets before it. */
  lemma BlockStands(ids: set<int>, buckets: seq<set<int>>, b: nat, i: nat)
    requires b < |buckets| && i <= |buckets[b]|
    ensures Length(buckets[..b]) + i < |Blocks(ids, buckets)|
    ensures Blocks(ids, buckets)[Length(buckets[..b]) + i] == Block(ids, buckets[b])[i]
  {
    BlocksLength(ids, buckets[..b]);
    NextBlock(ids, buckets, b);
    BlocksPrefix(ids, buckets, b + 1);
    var front, block := Blocks(ids, buckets[..b]), Block(ids, buckets[b]);
    assert (front + block)[|front| + i] == block[i];
  }

  /** The number of new entries, and of tried ones, with smaller ids. */
  lemma RanksOfKind(infos: map<int, AddrInfo>, id: int)
    ensures Rank(NewIds(infos), id) == |set k | k in infos && !infos[k].inTried && k < id|
    ensures Rank(TriedIds(infos), id) == |set k | k in infos && infos[k].inTried && k < id|
  {
    assert (set k | k in NewIds(infos) && k < id) == set k | k in infos && !infos[k].inTried && k < id;
    assert (set k | k in TriedIds(infos) && k < id) == set k | k in infos && infos[k].inTried && k < id;
  }

  lemma InParts<T>(h: seq<T>, a: seq<T>, b: seq<T>, c: seq<T>)
    ensures forall k :: 0 <= k < |h| ==> (h + a + b + c)[k] == h[k]
    ensures forall k :: 0 <= k < |a| ==> (h + a + b + c)[|h| + k] == a[k]
    ensures forall k :: 0 <= k < |b| ==> (h + a + b + c)[|h| + |a| + k] == b[k]
    ensures forall k :: 0 <= k < |c| ==> (h + a + b + c)[|h| + |a| + |b| + k] == c[k]
  {
  }

  lemma Parts(t: Tables, news: seq<Token>, tried: seq<Token>, blocks: seq<Token>)
    requires news == Records(t.infos, Sorted(NewIds(t.infos))) && tried == Records(t.infos, Sorted(TriedIds(t.infos)))
    requires blocks == Blocks(NewIds(t.infos), t.newBuckets)
    ensures |news| == |NewIds(t.infos)| && |tried| == |TriedIds(t.infos)|
    ensures Encode(t) == Header(t) + news + tried + blocks && |Header(t)| == 5
  {
  }

  /** The front of the file, and the length of the whole. */
  lemma HeaderStands(t: Tables)
    ensures var s := Encode(t);
      && |s| == 5 + |NewIds(t.infos)| + |TriedIds(t.infos)| + Length(t.newBuckets)
      && s[0] == VersionByte(0) && s[1] == KeyToken(t.key)
      && s[2] == IntToken(t.newCount) && s[3] == IntToken(t.triedCount) && s[4] == IntToken(256)
  {
    var news, tried := Records(t.infos, Sorted(NewIds(t.infos))), Records(t.infos, Sorted(TriedIds(t.infos)));
    var blocks := Blocks(NewIds(t.infos), t.newBuckets);
    BlocksLength(NewIds(t.infos), t.newBuckets);
    Parts(t, news, tried, blocks);
    InParts(Header(t), news, tried, blocks);
    HeaderTokens(t);
  }

  lemma HeaderTokens(t: Tables)
    ensures var h := Header(t);
      && h[0] == VersionByte(0) && h[1] == KeyToken(t.key)
      && h[2] == IntToken(t.newCount) && h[3] == IntToken(t.triedCount) && h[4] == IntToken(256)
  {
  }

  /** A new record stands after the new ones with smaller ids. */
  lemma NewRecordStands(t: Tables, id: int)
    requires id in t.infos && !t.infos[id].inTried
    ensures var p := 5 + |set k | k in t.infos && !t.infos[k].inTried && k < id|;
      p < |Encode(t)| && Encode(t)[p] == InfoToken(ToRecord(t.infos[id]))
  {
    RanksOfKind(t.infos, id);
    RankInSorted(NewIds(t.infos), id);
    var r := Rank(NewIds(t.infos), id);
    var news, tried := Records(t.infos, Sorted(NewIds(t.infos))), Records(t.infos, Sorted(TriedIds(t.infos)));
    var blocks := Blocks(NewIds(t.infos), t.newBuckets);
    Parts(t, news, tried, blocks);
    InParts(Header(t), news, tried, blocks);
    assert news[r] == InfoToken(ToRecord(t.infos[id]));
  }

  /** A tried record stands after all the new ones and the tried ones with smaller ids. */
  lemma TriedRecordStands(t: Tables, id: int)
    requires id in t.infos && t.infos[id].inTried
    ensures var p := 5 + |NewIds(t.infos)| + |set k | k in t.infos && t.infos[k].inTried && k < id|;
      p < |Encode(t)| && Encode(t)[p] == InfoToken(ToRecord(t.infos[id]))
  {
    RanksOfKind(t.infos, id);
    RankInSorted(TriedIds(t.infos), id);
    var r := Rank(TriedIds(t.infos), id);
    var news, tried := Records(t.infos, Sorted(NewIds(t.infos))), Records(t.infos, Sorted(TriedIds(t.infos)));
    var blocks := Blocks(NewIds(t.infos), t.newBuckets);
    Parts(t, news, tried, blocks);
    InParts(Header(t), news, tried, blocks);
    assert tried[r] == InfoToken(ToRecord(t.infos[id]));
  }

  /** What of an entry is written, and what becomes of it when it is read. */
  lemma RecordFields(info: AddrInfo)
    ensures ToRecord(info) ==
      Record(info.service, info.services, info.time, info.source, info.lastSuccess, info.attempts)
    ensures FromRecord(ToRecord(info)) == info.(lastTry := 0, refCount := 0, inTried := false, randomPos := -1)
  {
  }

  /** A block is the size of its bucket and, for each member in the order of the ids, the number of its record. */
  lemma BlockTells(ids: set<int>, bucket: set<int>, r: nat)
    requires r < |bucket|
    ensures Block(ids, bucket)[0] == IntToken(|bucket|)
    ensures Block(ids, bucket)[1 + r] == IntToken(Rank(ids, Sorted(bucket)[r]))
  {
    RanksAt(ids, Sorted(bucket), |bucket|, r);
  }

  lemma RanksAt(ids: set<int>, members: seq<int>, size: nat, r: nat)
    requires r < |members|
    ensures ([IntToken(size)] + Ranks(ids, members))[0] == IntToken(size)
    ensures ([IntToken(size)] + Ranks(ids, members))[1 + r] == IntToken(Rank(ids, members[r]))
  {
  }

  /** The buckets stand behind the records. */
  lemma BlocksStand(t: Tables)
    ensures |Encode(t)| >= 5 + |NewIds(t.infos)| + |TriedIds(t.infos)|
    ensures Encode(t)[5 + |NewIds(t.infos)| + |TriedIds(t.infos)|..] == Blocks(NewIds(t.infos), t.newBuckets)
  {
    var news, tried := Records(t.infos, Sorted(NewIds(t.infos))), Records(t.infos, Sorted(TriedIds(t.infos)));
    var blocks := Blocks(NewIds(t.infos), t.newBuckets);
    Parts(t, news, tried, blocks);
    LastPart(Header(t), news, tried, blocks);
  }

  lemma LastPart<T>(h: seq<T>, a: seq<T>, b: seq<T>, c: seq<T>)
    ensures (h + a + b + c)[|h| + |a| + |b|..] == c
  {
  }
}
