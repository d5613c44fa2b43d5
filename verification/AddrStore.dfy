/** Writing the address manager to disk and reading it back (src/addrman.h:279-378). Only the new
    buckets are stored; ids are renumbered, and the indexes and the tried buckets are rebuilt. */
module AddrStore {
  import opened AddrTypes
  import opened AddrTables
  import opened AddrRuns
  import opened Ascending
  import opened FiniteSets
  import opened AddrMan

  /** The fields of a record that reach the disk. */
  datatype Record = Record(service: Service, services: set<nat>, time: int, source: NetAddr, lastSuccess: int,
                           attempts: int)

  datatype Token = VersionByte(n: int) | KeyToken(key: Bytes) | IntToken(n: int) | InfoToken(rec: Record)

  function ToRecord(info: AddrInfo): Record {
    Record(info.service, info.services, info.time, info.source, info.lastSuccess, info.attempts)
  }

  /** A record read into a default-constructed CAddrInfo. */
  function FromRecord(rec: Record): AddrInfo {
    AddrInfo(rec.service, rec.services, rec.time, 0, rec.source, rec.lastSuccess, rec.attempts, 0, false, -1)
  }

  // ----- numbering -----

  /** Number of new entries with a smaller id: the number a new entry is stored under. */
  ghost function Rank(ids: set<int>, id: int): nat {
    |set k | k in ids && k < id|
  }

  lemma BelowInSorted(s: seq<int>, i: int, k: int)
    requires Increasing(s) && 0 <= i < |s|
    ensures k in s && k < s[i] <==> k in s[..i]
  {
    if k in s && k < s[i] {
      var j :| 0 <= j < |s| && s[j] == k;
      assert j < i && s[..i][j] == k;
    }
    if k in s[..i] {
      var j :| 0 <= j < i && s[..i][j] == k;
      assert s[j] < s[i];
    }
  }

  lemma FrontIsDistinct(s: seq<int>, i: int)
    requires Increasing(s) && 0 <= i <= |s|
    ensures Distinct(s[..i])
  {
    forall a, b | 0 <= a < b < i ensures s[..i][a] != s[..i][b] { assert s[a] < s[b]; }
  }

  lemma MembersBelow(ids: set<int>, s: seq<int>, i: int)
    requires Increasing(s) && 0 <= i < |s| && forall k :: k in s <==> k in ids
    ensures (set k | k in ids && k < s[i]) == set k | k in s[..i]
  {
    forall k ensures k in ids && k < s[i] <==> k in s[..i] { BelowInSorted(s, i, k); }
  }

  lemma RankInSorted(ids: set<int>, id: int)
    requires id in ids
    ensures Rank(ids, id) < |ids| && Sorted(ids)[Rank(ids, id)] == id
  {
    var s := Sorted(ids);
    var i :| 0 <= i < |s| && s[i] == id;
    MembersBelow(ids, s, i);
    FrontIsDistinct(s, i);
    DistinctSize(s[..i]);
  }

  // ----- the format -----

  function Records(infos: map<int, AddrInfo>, ids: seq<int>): (r: seq<Token>)
    requires forall i :: 0 <= i < |ids| ==> ids[i] in infos
    ensures |r| == |ids|
  {
    seq(|ids|, i requires 0 <= i < |ids| => InfoToken(ToRecord(infos[ids[i]])))
  }

  ghost function Ranks(ids: set<int>, members: seq<int>): (r: seq<Token>)
    ensures |r| == |members|
  {
    seq(|members|, i requires 0 <= i < |members| => IntToken(Rank(ids, members[i])))
  }

  ghost function Block(ids: set<int>, bucket: set<int>): seq<Token> {
    [IntToken(|bucket|)] + Ranks(ids, Sorted(bucket))
  }

  ghost function Blocks(ids: set<int>, buckets: seq<set<int>>): seq<Token> {
    if |buckets| == 0 then [] else Block(ids, buckets[0]) + Blocks(ids, buckets[1..])
  }

  ghost function Header(t: Tables): seq<Token> {
    [VersionByte(0), KeyToken(t.key), IntToken(t.newCount), IntToken(t.triedCount), IntToken(NEW_BUCKET_COUNT)]
  }

  /** The file. */
  ghost function Encode(t: Tables): seq<Token> {
    Header(t) + Records(t.infos, Sorted(NewIds(t.infos))) + Records(t.infos, Sorted(TriedIds(t.infos)))
      + Blocks(NewIds(t.infos), t.newBuckets)
  }

  // ----- writing -----

  lemma RecordsAppend(infos: map<int, AddrInfo>, ids: seq<int>, n: int)
    requires n in infos && forall i :: 0 <= i < |ids| ==> ids[i] in infos
    ensures Records(infos, ids + [n]) == Records(infos, ids) + [InfoToken(ToRecord(infos[n]))]
  {
  }

  /** Everything already visited is smaller than everything left. */
  ghost predicate Below(done: set<int>, left: set<int>) {
    forall a, b :: a in done && b in left ==> a < b
  }

  lemma VisitedRank(infos: map<int, AddrInfo>, left: set<int>, n: int)
    requires left <= infos.Keys && Below(infos.Keys - left, left) && n in left
    requires forall k :: k in left ==> n <= k
    ensures |NewIds(infos) - left| == Rank(NewIds(infos), n)
    ensures Below(infos.Keys - (left - {n}), left - {n})
  {
    var done := infos.Keys - left;
    var below := set k | k in NewIds(infos) && k < n;
    forall k ensures k in NewIds(infos) - left <==> k in NewIds(infos) && k < n {
      if k in NewIds(infos) && k !in left { assert k in done; }
    }
    assert NewIds(infos) - left == below;
    forall a, b | a in infos.Keys - (left - {n}) && b in left - {n} ensures a < b {
      if a != n { assert a in done; }
    }
  }

  lemma KindAppend(infos: map<int, AddrInfo>, done: set<int>, n: int)
    requires done <= infos.Keys && n in infos && forall k :: k in done ==> k < n
    ensures |done + {n}| == |done| + 1
    ensures Records(infos, Sorted(done + {n})) == Records(infos, Sorted(done)) + [InfoToken(ToRecord(infos[n]))]
  {
    assert n !in done;
    SortedAppend(done, n);
    RecordsAppend(infos, Sorted(done), n);
  }

  lemma OneKindMore(infos: map<int, AddrInfo>, ids: set<int>, left: set<int>, n: int)
    requires left <= infos.Keys && Below(infos.Keys - left, left) && n in left
    requires ids <= infos.Keys
    ensures n in ids ==> Records(infos, Sorted(ids - (left - {n}))) ==
                         Records(infos, Sorted(ids - left)) + [InfoToken(ToRecord(infos[n]))]
    ensures n in ids ==> |ids - (left - {n})| == |ids - left| + 1
    ensures n !in ids ==> ids - (left - {n}) == ids - left
  {
    WithoutOne(ids, left, n);
    if n in ids {
      forall k | k in ids - left ensures k < n { assert k in infos.Keys - left; }
      KindAppend(infos, ids - left, n);
    }
  }

  lemma WithoutOne(ids: set<int>, left: set<int>, n: int)
    requires n in left
    ensures ids - (left - {n}) == if n in ids then ids - left + {n} else ids - left
  {
  }

  ghost predicate RefCountsTell(infos: map<int, AddrInfo>) {
    forall id :: id in infos ==> (infos[id].refCount == 0 <==> infos[id].inTried)
  }

  /** The members of ids that have been visited carry their ranks. */
  ghost predicate Ranked(ids: set<int>, left: set<int>, numbers: map<int, int>) {
    forall id :: id in ids - left ==> id in numbers && numbers[id] == Rank(ids, id)
  }

  lemma OneRankMore(ids: set<int>, left: set<int>, numbers: map<int, int>, n: int, written: int)
    requires Ranked(ids, left, numbers) && n in left && written == Rank(ids, n)
    ensures Ranked(ids, left - {n}, numbers[n := written])
  {
  }

  /** The first loop writes the new entries and numbers them. */
  method WriteNew(infos: map<int, AddrInfo>, newCount: int) returns (s: seq<Token>, numbers: map<int, int>)
    requires RefCountsTell(infos) && newCount == |NewIds(infos)|
    ensures s == Records(infos, Sorted(NewIds(infos)))
    ensures Ranked(NewIds(infos), {}, numbers)
  {
    ghost var news := NewIds(infos);
    s, numbers := [], map[];
    var written := 0;
    var left := infos.Keys;
    while |left| > 0
      invariant left <= infos.Keys && Below(infos.Keys - left, left)
      invariant written == |news - left|
      invariant s == Records(infos, Sorted(news - left))
      invariant Ranked(news, left, numbers)
      decreases |left|
    {
      if written == newCount {
        AllVisited(news, left);
        return;
      }
      var n := Least(left);
      VisitedRank(infos, left, n);
      OneKindMore(infos, news, left, n);
      OneRankMore(news, left, numbers, n, written);
      assert infos[n].refCount != 0 <==> n in news;
      numbers := numbers[n := written];
      if infos[n].refCount != 0 {
        s := s + [InfoToken(ToRecord(infos[n]))];
        written := written + 1;
      }
      left := left - {n};
    }
    NoneLeft(news, left);
  }

  lemma NoneLeft(ids: set<int>, left: set<int>)
    requires |left| == 0
    ensures ids - left == ids
  {
  }

  lemma AllVisited(ids: set<int>, left: set<int>)
    requires |ids - left| == |ids|
    ensures ids - left == ids
  {
    assert ids == (ids - left) + (ids * left);
    assert |ids * left| == 0;
  }

  /** The second loop writes the tried entries. */
  method WriteTried(infos: map<int, AddrInfo>, triedCount: int) returns (s: seq<Token>)
    requires triedCount == |TriedIds(infos)|
    ensures s == Records(infos, Sorted(TriedIds(infos)))
  {
    ghost var tried := TriedIds(infos);
    s := [];
    var written := 0;
    var left := infos.Keys;
    while |left| > 0
      invariant left <= infos.Keys && Below(infos.Keys - left, left)
      invariant written == |tried - left|
      invariant s == Records(infos, Sorted(tried - left))
      decreases |left|
    {
      if written == triedCount {
        AllVisited(tried, left);
        return;
      }
      var n := Least(left);
      VisitedRank(infos, left, n);
      OneKindMore(infos, tried, left, n);
      if infos[n].inTried {
        s := s + [InfoToken(ToRecord(infos[n]))];
        written := written + 1;
      }
      left := left - {n};
    }
    NoneLeft(tried, left);
  }

  lemma Associates(a: seq<Token>, b: seq<Token>, c: seq<Token>)
    ensures a + (b + c) == (a + b) + c
  {
  }

  lemma {:induction false} BlocksAppend(ids: set<int>, a: seq<set<int>>, bucket: set<int>)
    ensures Blocks(ids, a + [bucket]) == Blocks(ids, a) + Block(ids, bucket)
    decreases |a|
  {
    if |a| == 0 {
      assert a + [bucket] == [bucket];
      assert Blocks(ids, [bucket]) == Block(ids, bucket) + Blocks(ids, []);
    } else {
      var all := a + [bucket];
      assert all[0] == a[0] && all[1..] == a[1..] + [bucket];
      BlocksAppend(ids, a[1..], bucket);
      Associates(Block(ids, a[0]), Blocks(ids, a[1..]), Block(ids, bucket));
    }
  }

  lemma NextBlock(ids: set<int>, buckets: seq<set<int>>, b: int)
    requires 0 <= b < |buckets|
    ensures Blocks(ids, buckets[..b + 1]) == Blocks(ids, buckets[..b]) + Block(ids, buckets[b])
  {
    BlocksAppend(ids, buckets[..b], buckets[b]);
    assert buckets[..b + 1] == buckets[..b] + [buckets[b]];
  }

  /** The size of a bucket and the numbers of its members. */
  method WriteBlock(bucket: set<int>, numbers: map<int, int>, ghost news: set<int>) returns (block: seq<Token>)
    requires forall id :: id in bucket ==> id in numbers && numbers[id] == Rank(news, id)
    ensures block == Block(news, bucket)
  {
    var members := Sorted(bucket);
    block := [IntToken(|bucket|)];
    var i := 0;
    while i < |members|
      invariant 0 <= i <= |members|
      invariant block == [IntToken(|bucket|)] + Ranks(news, members)[..i]
    {
      assert members[i] in bucket;
      block := block + [IntToken(numbers[members[i]])];
      i := i + 1;
    }
    assert Ranks(news, members)[..i] == Ranks(news, members);
  }

  /** The third loop writes the new buckets. */
  method WriteBuckets(buckets: seq<set<int>>, numbers: map<int, int>, ghost news: set<int>) returns (s: seq<Token>)
    requires forall b, id :: 0 <= b < |buckets| && id in buckets[b] ==> id in numbers && numbers[id] == Rank(news, id)
    ensures s == Blocks(news, buckets)
  {
    s := [];
    var b := 0;
    while b < |buckets|
      invariant 0 <= b <= |buckets|
      invariant s == Blocks(news, buckets[..b])
    {
      var block := WriteBlock(buckets[b], numbers, news);
      NextBlock(news, buckets, b);
      s := s + block;
      b := b + 1;
    }
    assert buckets[..b] == buckets;
  }

  method Save(am: AddrMan) returns (s: seq<Token>)
    requires am.Valid()
    ensures s == Encode(am.View())
  {
    NewMembersAreNew(am.env, am.View());
    s := [VersionByte(0), KeyToken(am.key), IntToken(am.newCount), IntToken(am.triedCount), IntToken(NEW_BUCKET_COUNT)];
    var news, numbers := WriteNew(am.infos, am.newCount);
    var tried := WriteTried(am.infos, am.triedCount);
    var blocks := WriteBuckets(am.newBuckets, numbers, NewIds(am.infos));
    s := s + news + tried + blocks;
  }

  lemma NewMembersAreNew(env: Env, t: Tables)
    requires Structured(env, t)
    ensures RefCountsTell(t.infos)
    ensures forall b, id :: 0 <= b < |t.newBuckets| && id in t.newBuckets[b] ==> id in NewIds(t.infos)
  {
    forall b, id | 0 <= b < |t.newBuckets| && id in t.newBuckets[b] ensures id in NewIds(t.infos) {
      assert b in Holders(t.newBuckets, id);
    }
  }

  // ----- the tables that are read back -----

  /** The ids in the order in which their records are stored. */
  ghost function Stored(infos: map<int, AddrInfo>): (ids: seq<int>)
    ensures |ids| == |NewIds(infos)| + |TriedIds(infos)|
  {
    Sorted(NewIds(infos)) + Sorted(TriedIds(infos))
  }

  lemma StoredMembers(infos: map<int, AddrInfo>)
    ensures forall i :: 0 <= i < |Stored(infos)| ==>
      Stored(infos)[i] in infos && (infos[Stored(infos)[i]].inTried <==> i >= |NewIds(infos)|)
    ensures Distinct(Stored(infos))
    ensures forall id :: id in infos ==> id in Stored(infos)
  {
    var news, tried := Sorted(NewIds(infos)), Sorted(TriedIds(infos));
    forall i | 0 <= i < |Stored(infos)|
      ensures Stored(infos)[i] in infos && (infos[Stored(infos)[i]].inTried <==> i >= |news|)
    {
      StoredKind(infos, i);
    }
    AscendingInTwo(news, tried);
    forall id | id in infos ensures id in Stored(infos) { StoredHas(infos, id); }
  }

  lemma StoredKind(infos: map<int, AddrInfo>, i: int)
    requires 0 <= i < |Stored(infos)|
    ensures Stored(infos)[i] in infos && (infos[Stored(infos)[i]].inTried <==> i >= |NewIds(infos)|)
  {
    var news, tried := Sorted(NewIds(infos)), Sorted(TriedIds(infos));
    if i < |news| { assert news[i] in NewIds(infos); } else { assert tried[i - |news|] in TriedIds(infos); }
  }

  lemma AscendingInTwo(a: seq<int>, b: seq<int>)
    requires Increasing(a) && Increasing(b)
    requires forall i, j :: 0 <= i < |a| && 0 <= j < |b| ==> a[i] != b[j]
    ensures Distinct(a + b)
  {
  }

  lemma StoredHas(infos: map<int, AddrInfo>, id: int)
    requires id in infos
    ensures id in Stored(infos)
  {
    if infos[id].inTried { assert id in TriedIds(infos); } else { assert id in NewIds(infos); }
  }

  ghost predicate RenumberedRecords(infos: map<int, AddrInfo>, ids: seq<int>, infos': map<int, AddrInfo>) {
    && (forall n :: n in infos' <==> 0 <= n < |ids|)
    && (forall n :: 0 <= n < |ids| ==> ids[n] in infos)
    && (forall n :: n in infos' ==> infos'[n] == infos[ids[n]].(lastTry := 0, randomPos := n))
  }

  ghost predicate RenumberedIndex(idByAddr: map<NetAddr, int>, ids: seq<int>, idByAddr': map<NetAddr, int>) {
    && (forall a :: a in idByAddr' <==> a in idByAddr)
    && (forall a :: a in idByAddr' ==> 0 <= idByAddr'[a] < |ids| && ids[idByAddr'[a]] == idByAddr[a])
  }

  /** The members of a bucket are the numbers of the members of the other. */
  ghost predicate RenumberedSet(bucket: set<int>, ids: seq<int>, bucket': set<int>) {
    && (forall n :: n in bucket' ==> 0 <= n < |ids| && ids[n] in bucket)
    && (forall n :: 0 <= n < |ids| && ids[n] in bucket ==> n in bucket')
  }

  ghost predicate RenumberedSeq(bucket: seq<int>, ids: seq<int>, bucket': seq<int>) {
    && Distinct(bucket')
    && (forall n :: n in bucket' ==> 0 <= n < |ids| && ids[n] in bucket)
    && (forall n :: 0 <= n < |ids| && ids[n] in bucket ==> n in bucket')
  }

  /** t' is t with its ids replaced by their positions in `ids`, its order reset, and the time of
      the last attempt, which is not stored, forgotten. */
  ghost predicate Renumbered(t: Tables, ids: seq<int>, t': Tables) {
    && t'.key == t.key && t'.newCount == t.newCount && t'.triedCount == t.triedCount
    && t'.idCount == |ids|
    && RenumberedRecords(t.infos, ids, t'.infos)
    && RenumberedIndex(t.idByAddr, ids, t'.idByAddr)
    && |t'.order| == |ids| && (forall p :: 0 <= p < |ids| ==> t'.order[p] == p)
    && |t'.newBuckets| == |t.newBuckets|
    && (forall b :: 0 <= b < |t'.newBuckets| ==> RenumberedSet(t.newBuckets[b], ids, t'.newBuckets[b]))
    && |t'.triedBuckets| == |t.triedBuckets|
    && (forall b :: 0 <= b < |t'.triedBuckets| ==> RenumberedSeq(t.triedBuckets[b], ids, t'.triedBuckets[b]))
  }

  /** What a reader recovers. */
  ghost predicate Restored(t: Tables, t': Tables) {
    Renumbered(t, Stored(t.infos), t')
  }

  lemma RenumberedIndexes(infos: map<int, AddrInfo>, idByAddr: map<NetAddr, int>, ids: seq<int>,
                          infos': map<int, AddrInfo>, idByAddr': map<NetAddr, int>)
    requires RenumberedRecords(infos, ids, infos') && RenumberedIndex(idByAddr, ids, idByAddr')
    requires Distinct(ids) && Indexed(infos, idByAddr)
    ensures Indexed(infos', idByAddr')
  {
    forall n | n in infos'
      ensures infos'[n].service.ip in idByAddr' && idByAddr'[infos'[n].service.ip] == n
    {
      var id := ids[n];
      assert id in infos && infos[id].service.ip in idByAddr;
      var m := idByAddr'[infos'[n].service.ip];
      assert ids[m] == ids[n];
    }
  }

  lemma RenumberedCounts(infos: map<int, AddrInfo>, ids: seq<int>, k: nat, infos': map<int, AddrInfo>)
    requires RenumberedRecords(infos, ids, infos') && k <= |ids|
    requires forall i :: 0 <= i < |ids| ==> (infos[ids[i]].inTried <==> i >= k)
    ensures |NewIds(infos')| == k && |TriedIds(infos')| == |ids| - k
  {
    var news, all := Interval(k), Interval(|ids|);
    forall n ensures n in NewIds(infos') <==> n in news {
      if n in infos' { assert infos'[n].inTried == infos[ids[n]].inTried; }
    }
    assert NewIds(infos') == news;
    assert NewIds(infos') + TriedIds(infos') == all by {
      forall n ensures n in NewIds(infos') + TriedIds(infos') <==> n in all {}
    }
    assert NewIds(infos') !! TriedIds(infos');
  }

  lemma RenumberedNewPlaces(infos: map<int, AddrInfo>, buckets: seq<set<int>>, ids: seq<int>,
                            infos': map<int, AddrInfo>, buckets': seq<set<int>>)
    requires RenumberedRecords(infos, ids, infos') && Distinct(ids)
    requires |buckets'| == |buckets|
    requires forall b :: 0 <= b < |buckets'| ==> RenumberedSet(buckets[b], ids, buckets'[b])
    requires NewPlaced(infos, buckets, -1) && -1 !in infos
    ensures NewPlaced(infos', buckets', -1)
  {
    forall b | 0 <= b < |buckets'| ensures |buckets'[b]| <= NEW_BUCKET_SIZE {
      InjectionSize(buckets'[b], ids, buckets[b]);
    }
    forall b, n | 0 <= b < |buckets'| && n in buckets'[b] ensures n in infos' {
      assert RenumberedSet(buckets[b], ids, buckets'[b]);
    }
    forall n | n in infos' ensures Holders(buckets', n) == Holders(buckets, ids[n]) {
      RenumberedHolders(buckets, ids, buckets', n);
    }
  }

  lemma RenumberedHolders(buckets: seq<set<int>>, ids: seq<int>, buckets': seq<set<int>>, n: int)
    requires |buckets'| == |buckets| && 0 <= n < |ids|
    requires forall b :: 0 <= b < |buckets'| ==> RenumberedSet(buckets[b], ids, buckets'[b])
    ensures Holders(buckets', n) == Holders(buckets, ids[n])
  {
    forall b ensures b in Holders(buckets', n) <==> b in Holders(buckets, ids[n]) {
      if 0 <= b < |buckets| { assert RenumberedSet(buckets[b], ids, buckets'[b]); }
    }
  }

  lemma RenumberedTriedPlaces(env: Env, key: Bytes, infos: map<int, AddrInfo>, buckets: seq<seq<int>>, ids: seq<int>,
                              infos': map<int, AddrInfo>, buckets': seq<seq<int>>)
    requires RenumberedRecords(infos, ids, infos') && Distinct(ids)
    requires |buckets'| == |buckets|
    requires forall b :: 0 <= b < |buckets'| ==> RenumberedSeq(buckets[b], ids, buckets'[b])
    requires TriedPlaced(env, key, infos, buckets)
    ensures TriedPlaced(env, key, infos', buckets')
  {
    forall b | 0 <= b < |buckets'| ensures |buckets'[b]| <= TRIED_BUCKET_SIZE {
      RenumberedSeqSize(buckets[b], ids, buckets'[b]);
    }
    forall b, n | 0 <= b < |buckets'| && n in buckets'[b]
      ensures n in infos' && infos'[n].inTried && TriedBucket(env, key, infos'[n].service) == b
    {
      assert RenumberedSeq(buckets[b], ids, buckets'[b]);
      assert ids[n] in buckets[b];
    }
    forall n | n in infos' && infos'[n].inTried
      ensures n in buckets'[TriedBucket(env, key, infos'[n].service)]
    {
      var b := TriedBucket(env, key, infos'[n].service);
      assert RenumberedSeq(buckets[b], ids, buckets'[b]);
      assert ids[n] in infos && ids[n] in buckets[b];
    }
  }

  lemma RenumberedSeqSize(bucket: seq<int>, ids: seq<int>, bucket': seq<int>)
    requires RenumberedSeq(bucket, ids, bucket') && Distinct(ids)
    ensures |bucket'| <= |bucket|
  {
    var members, targets := set n | n in bucket', set id | id in bucket;
    InjectionSize(members, ids, targets);
    MembersSize(bucket);
    DistinctSize(bucket');
  }

  /** Reading back structured tables gives structured tables. */
  lemma RestoredIsStructured(env: Env, t: Tables, t': Tables)
    requires Structured(env, t) && Restored(t, t')
    ensures Structured(env, t')
  {
    var ids := Stored(t.infos);
    assert Distinct(ids) by { StoredMembers(t.infos); }
    assert Indexed(t'.infos, t'.idByAddr) by {
      RenumberedIndexes(t.infos, t.idByAddr, ids, t'.infos, t'.idByAddr);
    }
    RestoredCounts(t.infos, t'.infos);
    assert NewPlaced(t'.infos, t'.newBuckets, -1) by {
      RenumberedNewPlaces(t.infos, t.newBuckets, ids, t'.infos, t'.newBuckets);
    }
    assert TriedPlaced(env, t'.key, t'.infos, t'.triedBuckets) by {
      RenumberedTriedPlaces(env, t.key, t.infos, t.triedBuckets, ids, t'.infos, t'.triedBuckets);
    }
    RenumberedStamps(t.infos, ids, t'.infos, t'.order);
  }

  /** Reading back consistent tables gives consistent tables. */
  lemma RestoredIsConsistent(env: Env, t: Tables, t': Tables)
    requires Consistent(env, t) && Restored(t, t')
    ensures Consistent(env, t')
  {
    RestoredIsStructured(env, t, t');
    RestoredDates(t.infos, Stored(t.infos), t'.infos);
  }

  lemma RestoredDates(infos: map<int, AddrInfo>, ids: seq<int>, infos': map<int, AddrInfo>)
    requires RenumberedRecords(infos, ids, infos') && Dated(infos)
    ensures Dated(infos')
  {
    forall n | n in infos'
      ensures infos'[n].lastTry >= 0 && infos'[n].lastSuccess >= 0
      ensures infos'[n].inTried ==> infos'[n].lastSuccess != 0
    {
      var id := ids[n];
      assert id in infos;
    }
  }

  lemma RestoredCounts(infos: map<int, AddrInfo>, infos': map<int, AddrInfo>)
    requires RenumberedRecords(infos, Stored(infos), infos')
    ensures |NewIds(infos')| == |NewIds(infos)| && |TriedIds(infos')| == |TriedIds(infos)|
  {
    StoredMembers(infos);
    RenumberedCounts(infos, Stored(infos), |NewIds(infos)|, infos');
  }

  lemma RenumberedStamps(infos: map<int, AddrInfo>, ids: seq<int>, infos': map<int, AddrInfo>, order': seq<int>)
    requires RenumberedRecords(infos, ids, infos') && |order'| == |ids|
    requires forall p :: 0 <= p < |ids| ==> order'[p] == p
    ensures Stamped(infos', |ids|) && Ordered(infos', order')
  {
  }

  /** The record of an address. */
  ghost function InfoOf(t: Tables, a: NetAddr): AddrInfo
    requires a in t.idByAddr && t.idByAddr[a] in t.infos
  {
    t.infos[t.idByAddr[a]]
  }

  lemma RestoredHolders(env: Env, t: Tables, t': Tables, a: NetAddr)
    requires Structured(env, t) && Restored(t, t') && a in Known(t)
    ensures a in Known(t') && Holders(t'.newBuckets, t'.idByAddr[a]) == Holders(t.newBuckets, t.idByAddr[a])
  {
    RenumberedHolders(t.newBuckets, Stored(t.infos), t'.newBuckets, t'.idByAddr[a]);
  }

  lemma RestoredTried(env: Env, t: Tables, t': Tables, a: NetAddr, b: int)
    requires Structured(env, t) && Restored(t, t') && a in Known(t) && 0 <= b < |t.triedBuckets|
    ensures a in Known(t') && b < |t'.triedBuckets|
    ensures t'.idByAddr[a] in t'.triedBuckets[b] <==> t.idByAddr[a] in t.triedBuckets[b]
  {
    var ids := Stored(t.infos);
    assert RenumberedSeq(t.triedBuckets[b], ids, t'.triedBuckets[b]);
    assert ids[t'.idByAddr[a]] == t.idByAddr[a];
  }

  lemma RestoredInfo(env: Env, t: Tables, t': Tables, a: NetAddr)
    requires Structured(env, t) && Restored(t, t') && a in Known(t)
    ensures a in Known(t') && t.idByAddr[a] in t.infos && t'.idByAddr[a] in t'.infos
    ensures InfoOf(t', a) == InfoOf(t, a).(lastTry := 0, randomPos := InfoOf(t', a).randomPos)
  {
    var n := t'.idByAddr[a];
    assert 0 <= n < |Stored(t.infos)| && Stored(t.infos)[n] == t.idByAddr[a];
    assert n in t'.infos;
  }

  /** Seen through addresses instead of ids, nothing but the last attempts has changed: the same
      addresses are known, with the same records, in the same new and tried buckets. */
  lemma RestoredIsTheSame(env: Env, t: Tables, t': Tables, a: NetAddr)
    requires Structured(env, t) && Restored(t, t')
    ensures a in Known(t') <==> a in Known(t)
    ensures a in Known(t) ==>
      && t.idByAddr[a] in t.infos && t'.idByAddr[a] in t'.infos
      && InfoOf(t', a) == InfoOf(t, a).(lastTry := 0, randomPos := InfoOf(t', a).randomPos)
      && Holders(t'.newBuckets, t'.idByAddr[a]) == Holders(t.newBuckets, t.idByAddr[a])
    ensures a in Known(t) ==> forall b :: 0 <= b < |t.triedBuckets| ==>
      b < |t'.triedBuckets| && (t'.idByAddr[a] in t'.triedBuckets[b] <==> t.idByAddr[a] in t.triedBuckets[b])
  {
    if a in Known(t) {
      RestoredInfo(env, t, t', a);
      RestoredHolders(env, t, t', a);
      forall b | 0 <= b < |t.triedBuckets|
        ensures b < |t'.triedBuckets| && (t'.idByAddr[a] in t'.triedBuckets[b] <==> t.idByAddr[a] in t.triedBuckets[b])
      {
        RestoredTried(env, t, t', a, b);
      }
    }
  }

  // ----- reading -----

  /** A record as it is read: its references are not counted yet. */
  function Loaded(info: AddrInfo, n: int): AddrInfo {
    info.(lastTry := 0, randomPos := n, refCount := 0)
  }

  /** The first n records have been read. */
  ghost predicate LoadedInfos(infos: map<int, AddrInfo>, ids: seq<int>, n: int, infos': map<int, AddrInfo>)
    requires n <= |ids| && forall k :: 0 <= k < |ids| ==> ids[k] in infos
  {
    && (forall k :: k in infos' <==> 0 <= k < n)
    && (forall k :: k in infos' ==> infos'[k] == Loaded(infos[ids[k]], k))
  }

  ghost predicate LoadedIndex(t: Tables, ids: seq<int>, n: int, idByAddr': map<NetAddr, int>)
    requires n <= |ids| && forall k :: 0 <= k < |ids| ==> ids[k] in t.infos
  {
    && (forall a :: a in idByAddr' ==>
          a in t.idByAddr && 0 <= idByAddr'[a] < n && ids[idByAddr'[a]] == t.idByAddr[a])
    && (forall k :: 0 <= k < n ==> t.infos[ids[k]].service.ip in idByAddr')
  }

  ghost predicate LoadedRecords(t: Tables, ids: seq<int>, n: int, infos': map<int, AddrInfo>,
                                idByAddr': map<NetAddr, int>, order': seq<int>)
    requires n <= |ids| && forall k :: 0 <= k < |ids| ==> ids[k] in t.infos
  {
    && LoadedInfos(t.infos, ids, n, infos')
    && LoadedIndex(t, ids, n, idByAddr')
    && |order'| == n && (forall k :: 0 <= k < n ==> order'[k] == k)
  }

  lemma LoadedStep(t: Tables, ids: seq<int>, n: int, infos': map<int, AddrInfo>, idByAddr': map<NetAddr, int>,
                   order': seq<int>)
    requires Indexed(t.infos, t.idByAddr) && 0 <= n < |ids| && forall k :: 0 <= k < |ids| ==> ids[k] in t.infos
    requires LoadedRecords(t, ids, n, infos', idByAddr', order')
    ensures LoadedRecords(t, ids, n + 1, infos'[n := Loaded(t.infos[ids[n]], n)],
                          idByAddr'[t.infos[ids[n]].service.ip := n], order' + [n])
  {
    var id := ids[n];
    var ip := t.infos[id].service.ip;
    var idByAddr'' := idByAddr'[ip := n];
    assert id in t.infos && ip in t.idByAddr && t.idByAddr[ip] == id;
    forall k | 0 <= k < n + 1 ensures t.infos[ids[k]].service.ip in idByAddr'' {
      if k < n { assert t.infos[ids[k]].service.ip in idByAddr'; }
    }
  }

  /** The tried entries numbered from k to n are in their buckets. */
  ghost predicate LoadedBucket(bucket: seq<int>, ids: seq<int>, k: int, n: int, bucket': seq<int>)
    requires 0 <= k <= n <= |ids|
  {
    && Distinct(bucket')
    && (forall m :: m in bucket' ==> k <= m < n && ids[m] in bucket)
    && (forall m :: k <= m < n && ids[m] in bucket ==> m in bucket')
  }

  ghost predicate LoadedTried(buckets: seq<seq<int>>, ids: seq<int>, k: int, n: int, buckets': seq<seq<int>>)
    requires 0 <= k <= n <= |ids|
  {
    && |buckets'| == |buckets|
    && (forall b :: 0 <= b < |buckets| ==> LoadedBucket(buckets[b], ids, k, n, buckets'[b]))
  }

  lemma RecordsHead(infos: map<int, AddrInfo>, ids: seq<int>, tail: seq<Token>)
    requires |ids| > 0 && forall i :: 0 <= i < |ids| ==> ids[i] in infos
    ensures var s := Records(infos, ids) + tail;
      && |s| > 0 && s[0] == InfoToken(ToRecord(infos[ids[0]]))
      && s[1..] == Records(infos, ids[1..]) + tail
  {
    var s := Records(infos, ids) + tail;
    assert s[1..] == Records(infos, ids)[1..] + tail;
    assert Records(infos, ids)[1..] == Records(infos, ids[1..]);
  }

  lemma NextRecord(infos: map<int, AddrInfo>, ids: seq<int>, n: int, hi: int, tail: seq<Token>)
    requires 0 <= n < hi <= |ids| && forall i :: 0 <= i < |ids| ==> ids[i] in infos
    ensures var s := Records(infos, ids[n..hi]) + tail;
      && |s| > 0 && s[0] == InfoToken(ToRecord(infos[ids[n]]))
      && s[1..] == Records(infos, ids[n + 1..hi]) + tail
  {
    RecordsHead(infos, ids[n..hi], tail);
    assert ids[n..hi][1..] == ids[n + 1..hi];
  }

  /** One new entry. */
  method LoadNew(am: AddrMan, n: int, rec: Record, ghost t: Tables, ghost ids: seq<int>)
    requires Indexed(t.infos, t.idByAddr) && forall k :: 0 <= k < |ids| ==> ids[k] in t.infos
    requires 0 <= n < |ids| && rec == ToRecord(t.infos[ids[n]]) && !t.infos[ids[n]].inTried
    requires LoadedRecords(t, ids, n, am.infos, am.idByAddr, am.order)
    modifies am`infos, am`idByAddr, am`order
    ensures LoadedRecords(t, ids, n + 1, am.infos, am.idByAddr, am.order)
  {
    LoadedStep(t, ids, n, am.infos, am.idByAddr, am.order);
    var info := FromRecord(rec);
    am.infos := am.infos[n := info];
    am.idByAddr := am.idByAddr[info.service.ip := n];
    am.infos := am.infos[n := info.(randomPos := |am.order|)];
    am.order := am.order + [n];
  }

  /** Reads the new entries. */
  method ReadNew(am: AddrMan, s: seq<Token>, ghost t: Tables, ghost ids: seq<int>, ghost tail: seq<Token>)
    returns (rest: seq<Token>)
    requires Indexed(t.infos, t.idByAddr) && forall k :: 0 <= k < |ids| ==> ids[k] in t.infos
    requires 0 <= am.newCount <= |ids| && forall k :: 0 <= k < am.newCount ==> !t.infos[ids[k]].inTried
    requires s == Records(t.infos, ids[..am.newCount]) + tail
    requires am.infos == map[] && am.idByAddr == map[] && am.order == []
    modifies am`infos, am`idByAddr, am`order
    ensures rest == tail && LoadedRecords(t, ids, am.newCount, am.infos, am.idByAddr, am.order)
  {
    rest := s;
    var n := 0;
    while n < am.newCount
      invariant 0 <= n <= am.newCount
      invariant rest == Records(t.infos, ids[n..am.newCount]) + tail
      invariant LoadedRecords(t, ids, n, am.infos, am.idByAddr, am.order)
    {
      NextRecord(t.infos, ids, n, am.newCount, tail);
      LoadNew(am, n, rest[0].rec, t, ids);
      rest := rest[1..];
      n := n + 1;
    }
  }

  lemma TriedHasRoom(bucket: seq<int>, ids: seq<int>, k: int, n: int, bucket': seq<int>)
    requires Distinct(ids) && 0 <= k <= n < |ids| && LoadedBucket(bucket, ids, k, n, bucket')
    requires ids[n] in bucket && |bucket| <= TRIED_BUCKET_SIZE
    ensures |bucket'| < TRIED_BUCKET_SIZE
    ensures LoadedBucket(bucket, ids, k, n + 1, bucket' + [n])
  {
    var members, targets := set m | m in bucket', set id | id in bucket;
    InjectionSize(members, ids, targets - {ids[n]});
    MembersSize(bucket);
    DistinctSize(bucket');
  }

  /** A tried entry enters its own bucket. */
  lemma TriedStep(env: Env, t: Tables, ids: seq<int>, k: int, n: int, buckets': seq<seq<int>>)
    requires TriedPlaced(env, t.key, t.infos, t.triedBuckets) && Distinct(ids) && 0 <= k <= n < |ids|
    requires ids[n] in t.infos && t.infos[ids[n]].inTried
    requires LoadedTried(t.triedBuckets, ids, k, n, buckets')
    ensures var b := TriedBucket(env, t.key, t.infos[ids[n]].service);
      && |buckets'| == TRIED_BUCKET_COUNT && |buckets'[b]| < TRIED_BUCKET_SIZE
      && LoadedTried(t.triedBuckets, ids, k, n + 1, buckets'[b := buckets'[b] + [n]])
  {
    var id := ids[n];
    var b := TriedBucket(env, t.key, t.infos[id].service);
    assert id in t.infos && id in t.triedBuckets[b];
    TriedHasRoom(t.triedBuckets[b], ids, k, n, buckets'[b]);
    forall c | 0 <= c < |buckets'| && c != b
      ensures LoadedBucket(t.triedBuckets[c], ids, k, n + 1, buckets'[c])
    {
      assert LoadedBucket(t.triedBuckets[c], ids, k, n, buckets'[c]);
      assert id !in t.triedBuckets[c];
    }
  }

  /** One tried record: it enters the bucket its address selects, if there is room. */
  method LoadTried(am: AddrMan, rec: Record, ghost t: Tables, ghost ids: seq<int>) returns (lost: int)
    requires Indexed(t.infos, t.idByAddr) && TriedPlaced(am.env, t.key, t.infos, t.triedBuckets) && am.key == t.key
    requires Distinct(ids) && forall k :: 0 <= k < |ids| ==> ids[k] in t.infos
    requires 0 <= am.newCount <= am.idCount < |ids| && t.infos[ids[am.idCount]].inTried
    requires rec == ToRecord(t.infos[ids[am.idCount]])
    requires LoadedRecords(t, ids, am.idCount, am.infos, am.idByAddr, am.order)
    requires LoadedTried(t.triedBuckets, ids, am.newCount, am.idCount, am.triedBuckets)
    modifies am`infos, am`idByAddr, am`order, am`idCount, am`triedBuckets
    ensures lost == 0 && am.idCount == old(am.idCount) + 1
    ensures LoadedRecords(t, ids, am.idCount, am.infos, am.idByAddr, am.order)
    ensures LoadedTried(t.triedBuckets, ids, am.newCount, am.idCount, am.triedBuckets)
  {
    LoadedStep(t, ids, am.idCount, am.infos, am.idByAddr, am.order);
    TriedStep(am.env, t, ids, am.newCount, am.idCount, am.triedBuckets);
    var info := FromRecord(rec);
    var b := TriedBucket(am.env, am.key, info.service);
    if |am.triedBuckets[b]| >= TRIED_BUCKET_SIZE { return 1; }
    info := info.(randomPos := |am.order|);
    info := info.(inTried := true);
    assert info == Loaded(t.infos[ids[am.idCount]], am.idCount);
    am.order := am.order + [am.idCount];
    am.infos := am.infos[am.idCount := info];
    am.idByAddr := am.idByAddr[info.service.ip := am.idCount];
    am.triedBuckets := am.triedBuckets[b := am.triedBuckets[b] + [am.idCount]];
    am.idCount := am.idCount + 1;
    lost := 0;
  }

  /** The next tried entry. */
  method ReadOneTried(am: AddrMan, s: seq<Token>, ghost t: Tables, ghost ids: seq<int>, ghost tail: seq<Token>)
    returns (rest: seq<Token>, lost: int)
    requires Indexed(t.infos, t.idByAddr) && TriedPlaced(am.env, t.key, t.infos, t.triedBuckets) && am.key == t.key
    requires Distinct(ids) && forall k :: 0 <= k < |ids| ==> ids[k] in t.infos
    requires 0 <= am.newCount <= am.idCount < |ids| && t.infos[ids[am.idCount]].inTried
    requires s == Records(t.infos, ids[am.idCount..|ids|]) + tail
    requires LoadedRecords(t, ids, am.idCount, am.infos, am.idByAddr, am.order)
    requires LoadedTried(t.triedBuckets, ids, am.newCount, am.idCount, am.triedBuckets)
    modifies am`infos, am`idByAddr, am`order, am`idCount, am`triedBuckets
    ensures lost == 0 && am.idCount == old(am.idCount) + 1
    ensures rest == Records(t.infos, ids[am.idCount..|ids|]) + tail
    ensures LoadedRecords(t, ids, am.idCount, am.infos, am.idByAddr, am.order)
    ensures LoadedTried(t.triedBuckets, ids, am.newCount, am.idCount, am.triedBuckets)
  {
    NextRecord(t.infos, ids, am.idCount, |ids|, tail);
    lost := LoadTried(am, s[0].rec, t, ids);
    rest := s[1..];
  }

  /** Reads the tried entries; none is lost for lack of room. */
  method ReadTried(am: AddrMan, s: seq<Token>, ghost t: Tables, ghost ids: seq<int>, ghost tail: seq<Token>)
    returns (rest: seq<Token>)
    requires Indexed(t.infos, t.idByAddr) && TriedPlaced(am.env, t.key, t.infos, t.triedBuckets) && am.key == t.key
    requires Distinct(ids) && forall k :: 0 <= k < |ids| ==> ids[k] in t.infos
    requires 0 <= am.newCount && 0 <= am.triedCount && am.newCount + am.triedCount == |ids|
    requires forall k :: am.newCount <= k < |ids| ==> t.infos[ids[k]].inTried
    requires s == Records(t.infos, ids[am.newCount..]) + tail
    requires am.idCount == am.newCount && LoadedRecords(t, ids, am.newCount, am.infos, am.idByAddr, am.order)
    requires LoadedTried(t.triedBuckets, ids, am.newCount, am.newCount, am.triedBuckets)
    modifies am`infos, am`idByAddr, am`order, am`idCount, am`triedBuckets, am`triedCount
    ensures rest == tail && am.idCount == |ids| && am.triedCount == old(am.triedCount)
    ensures LoadedRecords(t, ids, |ids|, am.infos, am.idByAddr, am.order)
    ensures LoadedTried(t.triedBuckets, ids, am.newCount, |ids|, am.triedBuckets)
  {
    rest := s;
    var lost := 0;
    var n := 0;
    assert ids[am.newCount..] == ids[am.idCount..|ids|];
    while n < am.triedCount
      invariant 0 <= n <= am.triedCount == old(am.triedCount) && lost == 0 && am.idCount == am.newCount + n
      invariant rest == Records(t.infos, ids[am.idCount..|ids|]) + tail
      invariant LoadedRecords(t, ids, am.idCount, am.infos, am.idByAddr, am.order)
      invariant LoadedTried(t.triedBuckets, ids, am.newCount, am.idCount, am.triedBuckets)
    {
      var one;
      rest, one := ReadOneTried(am, rest, t, ids, tail);
      lost := lost + one;
      n := n + 1;
    }
    am.triedCount := am.triedCount - lost;
  }

  /** Every record counts the buckets that hold it so far. */
  ghost predicate Referred(infos: map<int, AddrInfo>, ids: seq<int>, infos': map<int, AddrInfo>,
                           buckets': seq<set<int>>)
    requires forall k :: 0 <= k < |ids| ==> ids[k] in infos
  {
    && (forall k :: k in infos' <==> 0 <= k < |ids|)
    && (forall k :: k in infos' ==>
          infos'[k] == infos[ids[k]].(lastTry := 0, randomPos := k, refCount := |Holders(buckets', k)|))
  }

  /** The buckets before b have been read, the first i members of b, and nothing else. */
  ghost predicate LoadedNew(buckets: seq<set<int>>, ids: seq<int>, b: int, members: seq<int>, buckets': seq<set<int>>) {
    && |buckets'| == |buckets|
    && (forall c :: 0 <= c < b && c < |buckets| ==> RenumberedSet(buckets[c], ids, buckets'[c]))
    && (forall c :: 0 <= c < |buckets| && b < c ==> buckets'[c] == {})
    && (0 <= b < |buckets| ==>
          && (forall n :: n in buckets'[b] ==> 0 <= n < |ids| && ids[n] in members)
          && (forall n :: 0 <= n < |ids| && ids[n] in members ==> n in buckets'[b]))
  }

  /** The next member of bucket b still has a reference to spare, and is not in the bucket yet. */
  lemma ReferenceToSpare(infos: map<int, AddrInfo>, buckets: seq<set<int>>, ids: seq<int>, b: int, members: seq<int>,
                         buckets': seq<set<int>>, n: int)
    requires NewPlaced(infos, buckets, -1) && -1 !in infos && Distinct(ids)
    requires 0 <= b < |buckets| && LoadedNew(buckets, ids, b, members, buckets')
    requires 0 <= n < |ids| && ids[n] in infos && ids[n] in buckets[b] && ids[n] !in members
    ensures n !in buckets'[b] && |Holders(buckets', n)| < NEW_BUCKETS_PER_ADDRESS
    ensures LoadedNew(buckets, ids, b, members + [ids[n]], buckets'[b := buckets'[b] + {n}])
  {
    var id := ids[n];
    forall c | c in Holders(buckets', n) ensures c in Holders(buckets, id) - {b} {
      if c < b { assert RenumberedSet(buckets[c], ids, buckets'[c]); }
    }
    SubsetSize(Holders(buckets', n), Holders(buckets, id) - {b});
    assert b in Holders(buckets, id);
  }

  lemma ReferredInsert(infos: map<int, AddrInfo>, ids: seq<int>, infos': map<int, AddrInfo>, buckets': seq<set<int>>,
                       b: int, n: int)
    requires forall k :: 0 <= k < |ids| ==> ids[k] in infos
    requires Referred(infos, ids, infos', buckets') && 0 <= b < |buckets'| && n !in buckets'[b] && n in infos'
    ensures Referred(infos, ids, infos'[n := infos'[n].(refCount := infos'[n].refCount + 1)],
      buckets'[b := buckets'[b] + {n}])
  {
    HoldersAfterInsert(buckets', b, n);
  }

  lemma StoredRank(infos: map<int, AddrInfo>, id: int)
    requires id in NewIds(infos)
    ensures Rank(NewIds(infos), id) < |Stored(infos)| && Stored(infos)[Rank(NewIds(infos), id)] == id
  {
    RankInSorted(NewIds(infos), id);
  }

  /** Distinct ids of known records. */
  ghost predicate Numbering(infos: map<int, AddrInfo>, ids: seq<int>) {
    Distinct(ids) && forall k :: 0 <= k < |ids| ==> ids[k] in infos
  }

  /** The manager's records and buckets when the buckets before b and `members` of b have been read. */
  ghost predicate Reading(infos: map<int, AddrInfo>, buckets: seq<set<int>>, ids: seq<int>, b: int, members: seq<int>,
                          am: AddrMan)
    requires Numbering(infos, ids)
    reads am`infos, am`newBuckets
  {
    && Referred(infos, ids, am.infos, am.newBuckets)
    && LoadedNew(buckets, ids, b, members, am.newBuckets)
  }

  /** One member of bucket b. */
  method LoadReference(am: AddrMan, b: int, index: int, ghost infos: map<int, AddrInfo>, ghost buckets: seq<set<int>>,
                       ghost ids: seq<int>, ghost members: seq<int>)
    requires NewPlaced(infos, buckets, -1) && -1 !in infos && Numbering(infos, ids)
    requires 0 <= b < |buckets| && Reading(infos, buckets, ids, b, members, am)
    requires 0 <= index < |ids| && ids[index] in buckets[b] && ids[index] !in members
    modifies am`infos, am`newBuckets
    ensures Reading(infos, buckets, ids, b, members + [ids[index]], am)
  {
    ReferenceToSpare(infos, buckets, ids, b, members, am.newBuckets, index);
    ReferredInsert(infos, ids, am.infos, am.newBuckets, b, index);
    assert index in am.infos;
    if am.infos[index].refCount < NEW_BUCKETS_PER_ADDRESS {
      am.infos := am.infos[index := am.infos[index].(refCount := am.infos[index].refCount + 1)];
      am.newBuckets := am.newBuckets[b := am.newBuckets[b] + {index}];
    }
  }

  /** The n-th member of a bucket, under the number it is stored as. */
  ghost predicate NumberedAs(ids: seq<int>, members: seq<int>, numbers: seq<Token>) {
    && |numbers| == |members|
    && (forall n {:trigger numbers[n]} :: 0 <= n < |numbers| ==>
      numbers[n].IntToken? && 0 <= numbers[n].n < |ids| && ids[numbers[n].n] == members[n])
  }

  lemma RanksNumber(infos: map<int, AddrInfo>, members: seq<int>)
    requires forall n :: 0 <= n < |members| ==> members[n] in NewIds(infos)
    ensures NumberedAs(Stored(infos), members, Ranks(NewIds(infos), members))
  {
    forall n | 0 <= n < |members|
      ensures Rank(NewIds(infos), members[n]) < |Stored(infos)| &&
        Stored(infos)[Rank(NewIds(infos), members[n])] == members[n]
    {
      StoredRank(infos, members[n]);
    }
  }

  lemma NextOf(members: seq<int>, n: int)
    requires Increasing(members) && 0 <= n < |members|
    ensures members[n] !in members[..n] && members[..n + 1] == members[..n] + [members[n]]
  {
  }

  lemma NextMember(bucket: set<int>, n: int)
    requires 0 <= n < |Sorted(bucket)|
    ensures var members := Sorted(bucket);
      && members[n] in bucket && members[n] !in members[..n] && members[..n + 1] == members[..n] + [members[n]]
  {
    NextOf(Sorted(bucket), n);
  }

  /** The next number of bucket b. */
  method ReadReference(am: AddrMan, s: seq<Token>, b: int, n: int, ghost infos: map<int, AddrInfo>,
                       ghost buckets: seq<set<int>>, ghost ids: seq<int>, ghost numbers: seq<Token>,
                       ghost tail: seq<Token>)
    returns (rest: seq<Token>)
    requires NewPlaced(infos, buckets, -1) && -1 !in infos && Numbering(infos, ids)
    requires 0 <= b < |buckets| && NumberedAs(ids, Sorted(buckets[b]), numbers)
    requires 0 <= n < |numbers| && s == numbers[n..] + tail
    requires Reading(infos, buckets, ids, b, Sorted(buckets[b])[..n], am)
    modifies am`infos, am`newBuckets
    ensures rest == numbers[n + 1..] + tail
    ensures Reading(infos, buckets, ids, b, Sorted(buckets[b])[..n + 1], am)
  {
    assert s[0] == numbers[n] && s[1..] == numbers[n + 1..] + tail;
    var index := s[0].n;
    NextMember(buckets[b], n);
    LoadReference(am, b, index, infos, buckets, ids, Sorted(buckets[b])[..n]);
    rest := s[1..];
  }

  lemma WholeBlock(members: seq<int>, numbers: seq<Token>, tail: seq<Token>)
    ensures members[..|members|] == members && numbers[|numbers|..] + tail == tail
    ensures members[..0] == [] && numbers[0..] + tail == numbers + tail
  {
  }

  /** Reads one bucket: its size, then that many numbers. */
  method ReadBlock(am: AddrMan, s: seq<Token>, b: int, ghost infos: map<int, AddrInfo>, ghost buckets: seq<set<int>>,
                   ghost ids: seq<int>, ghost numbers: seq<Token>, ghost tail: seq<Token>) returns (rest: seq<Token>)
    requires NewPlaced(infos, buckets, -1) && -1 !in infos && Numbering(infos, ids)
    requires 0 <= b < |buckets| && NumberedAs(ids, Sorted(buckets[b]), numbers)
    requires s == [IntToken(|buckets[b]|)] + numbers + tail
    requires Reading(infos, buckets, ids, b, [], am)
    modifies am`infos, am`newBuckets
    ensures rest == tail && Reading(infos, buckets, ids, b, Sorted(buckets[b]), am)
  {
    var size := s[0].n;
    rest := s[1..];
    WholeBlock(Sorted(buckets[b]), numbers, tail);
    assert rest == numbers + tail;
    var n := 0;
    while n < size
      invariant 0 <= n <= size == |numbers|
      invariant rest == numbers[n..] + tail
      invariant Reading(infos, buckets, ids, b, Sorted(buckets[b])[..n], am)
    {
      rest := ReadReference(am, rest, b, n, infos, buckets, ids, numbers, tail);
      n := n + 1;
    }
  }

  lemma BucketLoaded(buckets: seq<set<int>>, ids: seq<int>, b: int, buckets': seq<set<int>>)
    requires 0 <= b < |buckets| && LoadedNew(buckets, ids, b, Sorted(buckets[b]), buckets')
    ensures LoadedNew(buckets, ids, b + 1, [], buckets')
  {
    assert RenumberedSet(buckets[b], ids, buckets'[b]);
  }

  lemma BlocksHead(ids: set<int>, buckets: seq<set<int>>, b: int, tail: seq<Token>)
    requires 0 <= b < |buckets|
    ensures Blocks(ids, buckets[b..]) + tail ==
      [IntToken(|buckets[b]|)] + Ranks(ids, Sorted(buckets[b])) + (Blocks(ids, buckets[b + 1..]) + tail)
  {
    assert buckets[b..][0] == buckets[b] && buckets[b..][1..] == buckets[b + 1..];
    assert Blocks(ids, buckets[b..]) == Block(ids, buckets[b]) + Blocks(ids, buckets[b + 1..]);
  }

  /** Reads the new buckets and counts the references again. */
  method ReadBuckets(am: AddrMan, s: seq<Token>, ghost infos: map<int, AddrInfo>, ghost buckets: seq<set<int>>,
                     ghost tail: seq<Token>)
    returns (rest: seq<Token>)
    requires NewPlaced(infos, buckets, -1) && -1 !in infos && Numbering(infos, Stored(infos))
    requires forall b, id :: 0 <= b < |buckets| && id in buckets[b] ==> id in NewIds(infos)
    requires s == Blocks(NewIds(infos), buckets) + tail
    requires Reading(infos, buckets, Stored(infos), 0, [], am)
    modifies am`infos, am`newBuckets
    ensures rest == tail && Reading(infos, buckets, Stored(infos), NEW_BUCKET_COUNT, [], am)
  {
    ghost var ids := Stored(infos);
    rest := s;
    assert buckets[0..] == buckets;
    var b := 0;
    while b < NEW_BUCKET_COUNT
      invariant 0 <= b <= NEW_BUCKET_COUNT
      invariant rest == Blocks(NewIds(infos), buckets[b..]) + tail
      invariant Reading(infos, buckets, ids, b, [], am)
    {
      BlocksHead(NewIds(infos), buckets, b, tail);
      RanksNumber(infos, Sorted(buckets[b]));
      rest := ReadBlock(am, rest, b, infos, buckets, ids, Ranks(NewIds(infos), Sorted(buckets[b])),
                        Blocks(NewIds(infos), buckets[b + 1..]) + tail);
      BucketLoaded(buckets, ids, b, am.newBuckets);
      b := b + 1;
    }
    assert buckets[NEW_BUCKET_COUNT..] == [];
  }

  lemma FiveParts(h: seq<Token>, a: seq<Token>, b: seq<Token>, c: seq<Token>, tail: seq<Token>)
    ensures h + a + b + c + tail == h + (a + (b + (c + tail)))
  {
  }

  lemma FrontAndBack<T>(h: seq<T>, body: seq<T>)
    ensures (h + body)[..|h|] == h && (h + body)[|h|..] == body
    ensures forall i :: 0 <= i < |h| ==> (h + body)[i] == h[i]
  {
  }

  /** What follows the header. */
  ghost function Body(t: Tables, tail: seq<Token>): seq<Token> {
    Records(t.infos, Sorted(NewIds(t.infos))) +
      (Records(t.infos, Sorted(TriedIds(t.infos))) + (Blocks(NewIds(t.infos), t.newBuckets) + tail))
  }

  lemma HeaderParts(t: Tables, body: seq<Token>, s: seq<Token>)
    requires s == Header(t) + body
    ensures |s| >= 5 && s[0] == VersionByte(0) && s[1] == KeyToken(t.key) && s[2] == IntToken(t.newCount)
    ensures s[3] == IntToken(t.triedCount) && s[4] == IntToken(NEW_BUCKET_COUNT) && s[5..] == body
  {
    FrontAndBack(Header(t), body);
  }

  lemma FileParts(t: Tables, s: seq<Token>, tail: seq<Token>)
    requires s == Encode(t) + tail
    ensures |s| >= 5 && s[0] == VersionByte(0) && s[1] == KeyToken(t.key) && s[2] == IntToken(t.newCount)
    ensures s[3] == IntToken(t.triedCount) && s[4] == IntToken(NEW_BUCKET_COUNT)
    ensures s[5..] == Body(t, tail)
  {
    assert s == Header(t) + Body(t, tail) by {
      FiveParts(Header(t), Records(t.infos, Sorted(NewIds(t.infos))), Records(t.infos, Sorted(TriedIds(t.infos))),
                Blocks(NewIds(t.infos), t.newBuckets), tail);
    }
    HeaderParts(t, Body(t, tail), s);
  }

  lemma NothingReferred(infos: map<int, AddrInfo>, buckets: seq<set<int>>, ids: seq<int>, infos': map<int, AddrInfo>,
                        buckets': seq<set<int>>)
    requires Numbering(infos, ids) && LoadedInfos(infos, ids, |ids|, infos')
    requires |buckets'| == |buckets| && forall b :: 0 <= b < |buckets'| ==> buckets'[b] == {}
    ensures Referred(infos, ids, infos', buckets') && LoadedNew(buckets, ids, 0, [], buckets')
  {
    forall k ensures Holders(buckets', k) == {} {}
  }

  lemma IndexIsRestored(t: Tables, ids: seq<int>, idByAddr': map<NetAddr, int>)
    requires Indexed(t.infos, t.idByAddr) && Numbering(t.infos, ids) && forall id :: id in t.infos ==> id in ids
    requires LoadedIndex(t, ids, |ids|, idByAddr')
    ensures RenumberedIndex(t.idByAddr, ids, idByAddr')
  {
    forall a | a in t.idByAddr ensures a in idByAddr' {
      var id := t.idByAddr[a];
      assert id in t.infos && id in ids;
      var k :| 0 <= k < |ids| && ids[k] == id;
      assert t.infos[ids[k]].service.ip in idByAddr';
    }
  }

  lemma NewIsRestored(infos: map<int, AddrInfo>, buckets: seq<set<int>>, ids: seq<int>, infos': map<int, AddrInfo>,
                      buckets': seq<set<int>>)
    requires NewPlaced(infos, buckets, -1) && -1 !in infos && Numbering(infos, ids)
    requires Referred(infos, ids, infos', buckets') && LoadedNew(buckets, ids, NEW_BUCKET_COUNT, [], buckets')
    ensures RenumberedRecords(infos, ids, infos')
    ensures forall b :: 0 <= b < |buckets'| ==> RenumberedSet(buckets[b], ids, buckets'[b])
  {
    forall n | n in infos' ensures infos'[n] == infos[ids[n]].(lastTry := 0, randomPos := n) {
      RenumberedHolders(buckets, ids, buckets', n);
      assert infos[ids[n]].refCount == |Holders(buckets, ids[n])|;
    }
  }

  lemma TriedIsRestored(env: Env, key: Bytes, infos: map<int, AddrInfo>, buckets: seq<seq<int>>, ids: seq<int>,
                        k: int, buckets': seq<seq<int>>)
    requires TriedPlaced(env, key, infos, buckets) && Numbering(infos, ids) && 0 <= k <= |ids|
    requires forall n :: 0 <= n < |ids| ==> (infos[ids[n]].inTried <==> n >= k)
    requires LoadedTried(buckets, ids, k, |ids|, buckets')
    ensures |buckets'| == |buckets|
    ensures forall b :: 0 <= b < |buckets'| ==> RenumberedSeq(buckets[b], ids, buckets'[b])
  {
    forall b | 0 <= b < |buckets'| ensures RenumberedSeq(buckets[b], ids, buckets'[b]) {
      assert LoadedBucket(buckets[b], ids, k, |ids|, buckets'[b]);
      forall n | 0 <= n < |ids| && ids[n] in buckets[b] ensures n in buckets'[b] {
        var id := ids[n];
        assert id in buckets[b] && infos[id].inTried;
      }
    }
  }

  lemma StoredIndexIsRestored(t: Tables, idByAddr': map<NetAddr, int>)
    requires Indexed(t.infos, t.idByAddr) && Numbering(t.infos, Stored(t.infos))
    requires LoadedIndex(t, Stored(t.infos), |Stored(t.infos)|, idByAddr')
    ensures RenumberedIndex(t.idByAddr, Stored(t.infos), idByAddr')
  {
    StoredMembers(t.infos);
    IndexIsRestored(t, Stored(t.infos), idByAddr');
  }

  lemma StoredTriedIsRestored(env: Env, key: Bytes, infos: map<int, AddrInfo>, buckets: seq<seq<int>>, k: int,
                              buckets': seq<seq<int>>)
    requires TriedPlaced(env, key, infos, buckets) && Numbering(infos, Stored(infos)) && k == |NewIds(infos)|
    requires LoadedTried(buckets, Stored(infos), k, |Stored(infos)|, buckets')
    ensures |buckets'| == |buckets|
    ensures forall b :: 0 <= b < |buckets'| ==> RenumberedSeq(buckets[b], Stored(infos), buckets'[b])
  {
    StoredMembers(infos);
    TriedIsRestored(env, key, infos, buckets, Stored(infos), k, buckets');
  }

  lemma LoadedIsRestored(env: Env, t: Tables, t': Tables)
    requires Structured(env, t) && Numbering(t.infos, Stored(t.infos))
    requires t'.key == t.key && t'.newCount == t.newCount && t'.triedCount == t.triedCount
    requires t'.idCount == |Stored(t.infos)|
    requires Referred(t.infos, Stored(t.infos), t'.infos, t'.newBuckets)
    requires LoadedIndex(t, Stored(t.infos), |Stored(t.infos)|, t'.idByAddr)
    requires |t'.order| == |Stored(t.infos)| && forall p :: 0 <= p < |t'.order| ==> t'.order[p] == p
    requires LoadedNew(t.newBuckets, Stored(t.infos), NEW_BUCKET_COUNT, [], t'.newBuckets)
    requires LoadedTried(t.triedBuckets, Stored(t.infos), t.newCount, |Stored(t.infos)|, t'.triedBuckets)
    ensures Restored(t, t')
  {
    var ids := Stored(t.infos);
    StoredIndexIsRestored(t, t'.idByAddr);
    NewIsRestored(t.infos, t.newBuckets, ids, t'.infos, t'.newBuckets);
    StoredTriedIsRestored(env, t.key, t.infos, t.triedBuckets, t.newCount, t'.triedBuckets);
  }

  /** Reads a manager that was written by Save. */
  method Load(am: AddrMan, s: seq<Token>, ghost t: Tables, ghost tail: seq<Token>) returns (rest: seq<Token>)
    requires Structured(am.env, t) && s == Encode(t) + tail
    modifies am
    ensures rest == tail
    ensures Restored(t, am.View()) && am.Valid()
    ensures Dated(t.infos) ==> Dated(am.infos)
  {
    StoredIsNumbering(am.env, t);
    FileParts(t, s, tail);
    am.key := s[1].key;
    am.newCount := s[2].n;
    am.triedCount := s[3].n;
    rest := LoadStored(am, s[5..], t, tail);
    EverythingLoaded(am, t);
    if Dated(t.infos) { RestoredIsConsistent(am.env, t, am.View()); }
  }

  method LoadStored(am: AddrMan, s: seq<Token>, ghost t: Tables, ghost tail: seq<Token>) returns (rest: seq<Token>)
    requires Structured(am.env, t) && Numbering(t.infos, Stored(t.infos))
    requires am.key == t.key && am.newCount == t.newCount && am.triedCount == t.triedCount
    requires s == Body(t, tail)
    modifies am
    ensures rest == tail && RecordsLoaded(t, Stored(t.infos), am)
    ensures Reading(t.infos, t.newBuckets, Stored(t.infos), NEW_BUCKET_COUNT, [], am)
  {
    NewMembersAreNew(am.env, t);
    rest := LoadBody(am, s, t, Stored(t.infos), tail);
  }

  /** Everything behind the header. */
  method LoadBody(am: AddrMan, s: seq<Token>, ghost t: Tables, ghost ids: seq<int>, ghost tail: seq<Token>)
    returns (rest: seq<Token>)
    requires Indexed(t.infos, t.idByAddr) && TriedPlaced(am.env, t.key, t.infos, t.triedBuckets)
    requires ids == Stored(t.infos) && Numbering(t.infos, ids) && Counted(t.infos, t.newCount, t.triedCount)
    requires am.key == t.key && am.newCount == t.newCount && am.triedCount == t.triedCount
    requires NewPlaced(t.infos, t.newBuckets, -1) && -1 !in t.infos
    requires forall b, id :: 0 <= b < |t.newBuckets| && id in t.newBuckets[b] ==> id in NewIds(t.infos)
    requires s == Body(t, tail)
    modifies am
    ensures rest == tail && RecordsLoaded(t, ids, am)
    ensures Reading(t.infos, t.newBuckets, ids, NEW_BUCKET_COUNT, [], am)
  {
    rest := LoadFront(am, s, t, ids, tail);
    rest := LoadReferences(am, rest, t.infos, t.newBuckets, ids, tail);
  }

  lemma EverythingLoaded(am: AddrMan, t: Tables)
    requires Structured(am.env, t) && Numbering(t.infos, Stored(t.infos))
    requires RecordsLoaded(t, Stored(t.infos), am)
    requires Reading(t.infos, t.newBuckets, Stored(t.infos), NEW_BUCKET_COUNT, [], am)
    ensures Restored(t, am.View()) && am.Valid()
  {
    LoadedIsRestored(am.env, t, am.View());
    RestoredIsStructured(am.env, t, am.View());
  }

  /** A manager that is saved and read back into a new one. */
  method Reload(am: AddrMan, key: Bytes) returns (copy: AddrMan)
    requires am.Valid()
    ensures fresh(copy) && copy.env == am.env && copy.Valid()
    ensures Restored(am.View(), copy.View())
  {
    var s := Save(am);
    copy := new AddrMan(am.env, key);
    assert s == Encode(am.View()) + [];
    var rest := Load(copy, s, am.View(), []);
  }

  lemma StoredIsNumbering(env: Env, t: Tables)
    requires Structured(env, t)
    ensures Numbering(t.infos, Stored(t.infos)) && t.newCount + t.triedCount == |Stored(t.infos)|
    ensures t.newCount == |NewIds(t.infos)| && t.triedCount >= 0
    ensures forall k :: 0 <= k < |Stored(t.infos)| ==> (t.infos[Stored(t.infos)[k]].inTried <==> k >= t.newCount)
  {
    StoredMembers(t.infos);
  }

  /** All records have been read, and the tried buckets rebuilt. */
  ghost predicate RecordsLoaded(t: Tables, ids: seq<int>, am: AddrMan)
    requires Numbering(t.infos, ids)
    reads am`key, am`newCount, am`triedCount, am`idCount, am`idByAddr, am`order, am`triedBuckets
  {
    && am.key == t.key && am.newCount == t.newCount && am.triedCount == t.triedCount && am.idCount == |ids|
    && LoadedIndex(t, ids, |ids|, am.idByAddr)
    && |am.order| == |ids| && (forall p :: 0 <= p < |am.order| ==> am.order[p] == p)
    && 0 <= t.newCount <= |ids| && LoadedTried(t.triedBuckets, ids, t.newCount, |ids|, am.triedBuckets)
  }

  /** The records of the new and of the tried entries. */
  method LoadRecords(am: AddrMan, s: seq<Token>, ghost t: Tables, ghost ids: seq<int>, ghost tail: seq<Token>)
    returns (rest: seq<Token>)
    requires Indexed(t.infos, t.idByAddr) && TriedPlaced(am.env, t.key, t.infos, t.triedBuckets)
    requires Numbering(t.infos, ids) && t.newCount >= 0 && t.triedCount >= 0 && t.newCount + t.triedCount == |ids|
    requires forall k :: 0 <= k < |ids| ==> (t.infos[ids[k]].inTried <==> k >= t.newCount)
    requires am.key == t.key && am.newCount == t.newCount && am.triedCount == t.triedCount
    requires s == Records(t.infos, ids[..t.newCount]) + (Records(t.infos, ids[t.newCount..]) + tail)
    modifies am
    ensures rest == tail && RecordsLoaded(t, ids, am)
    ensures LoadedInfos(t.infos, ids, |ids|, am.infos)
    ensures |am.newBuckets| == NEW_BUCKET_COUNT && forall b :: 0 <= b < |am.newBuckets| ==> am.newBuckets[b] == {}
  {
    am.idCount := 0;
    am.infos, am.idByAddr, am.order := map[], map[], [];
    am.triedBuckets := seq(TRIED_BUCKET_COUNT, _ => []);
    am.newBuckets := seq(NEW_BUCKET_COUNT, _ => {});
    rest := ReadNew(am, s, t, ids, Records(t.infos, ids[t.newCount..]) + tail);
    am.idCount := am.newCount;
    rest := ReadTried(am, rest, t, ids, tail);
  }

  /** The records, whose ids are those of the new entries and then those of the tried ones. */
  method LoadFront(am: AddrMan, s: seq<Token>, ghost t: Tables, ghost ids: seq<int>, ghost tail: seq<Token>)
    returns (rest: seq<Token>)
    requires Indexed(t.infos, t.idByAddr) && TriedPlaced(am.env, t.key, t.infos, t.triedBuckets)
    requires ids == Stored(t.infos) && Numbering(t.infos, ids) && Counted(t.infos, t.newCount, t.triedCount)
    requires am.key == t.key && am.newCount == t.newCount && am.triedCount == t.triedCount
    requires s == Body(t, tail)
    modifies am
    ensures rest == Blocks(NewIds(t.infos), t.newBuckets) + tail && RecordsLoaded(t, ids, am)
    ensures LoadedInfos(t.infos, ids, |ids|, am.infos)
    ensures |am.newBuckets| == NEW_BUCKET_COUNT && forall b :: 0 <= b < |am.newBuckets| ==> am.newBuckets[b] == {}
  {
    BodyByIds(t, ids, tail);
    StoredKinds(t.infos, ids);
    rest := LoadRecords(am, s, t, ids, Blocks(NewIds(t.infos), t.newBuckets) + tail);
  }

  lemma StoredKinds(infos: map<int, AddrInfo>, ids: seq<int>)
    requires ids == Stored(infos) && Numbering(infos, ids)
    ensures forall k :: 0 <= k < |ids| ==> (infos[ids[k]].inTried <==> k >= |NewIds(infos)|)
  {
    forall k | 0 <= k < |ids| ensures infos[ids[k]].inTried <==> k >= |NewIds(infos)| { StoredKind(infos, k); }
  }

  lemma BodyByIds(t: Tables, ids: seq<int>, tail: seq<Token>)
    requires ids == Stored(t.infos) && Numbering(t.infos, ids) && t.newCount == |NewIds(t.infos)|
    ensures Body(t, tail) == Records(t.infos, ids[..t.newCount]) +
      (Records(t.infos, ids[t.newCount..]) + (Blocks(NewIds(t.infos), t.newBuckets) + tail))
  {
    FrontAndBack(Sorted(NewIds(t.infos)), Sorted(TriedIds(t.infos)));
  }

  /** The new buckets, which are empty before. */
  method LoadReferences(am: AddrMan, s: seq<Token>, ghost infos: map<int, AddrInfo>, ghost buckets: seq<set<int>>,
                        ghost ids: seq<int>, ghost tail: seq<Token>)
    returns (rest: seq<Token>)
    requires NewPlaced(infos, buckets, -1) && -1 !in infos && ids == Stored(infos) && Numbering(infos, ids)
    requires forall b, id :: 0 <= b < |buckets| && id in buckets[b] ==> id in NewIds(infos)
    requires LoadedInfos(infos, ids, |ids|, am.infos)
    requires |am.newBuckets| == NEW_BUCKET_COUNT && forall b :: 0 <= b < |am.newBuckets| ==> am.newBuckets[b] == {}
    requires s == Blocks(NewIds(infos), buckets) + tail
    modifies am`infos, am`newBuckets
    ensures rest == tail && Reading(infos, buckets, ids, NEW_BUCKET_COUNT, [], am)
  {
    NothingReferred(infos, buckets, ids, am.infos, am.newBuckets);
    rest := ReadBuckets(am, s, infos, buckets, tail);
  }
}
