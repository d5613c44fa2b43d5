/** The manager's own consistency check (Check_, src/addrman.cpp:435-491), loop for loop, and
    what a result of zero says about the tables. */
module AddrCheck {
  import opened AddrTypes
  import opened AddrTables
  import opened AddrRuns
  import opened AddrDates
  import opened Ascending
  import opened FiniteSets
  import opened AddrMan

  /** operator[] of the address index: a missing address is given id 0. */
  function Lookup(idByAddr: map<NetAddr, int>, a: NetAddr): int {
    if a in idByAddr then idByAddr[a] else 0
  }

  predicate RecordChecks(t: Tables, id: int)
    requires id in t.infos
  {
    var info := t.infos[id];
    && (if info.inTried then info.lastSuccess != 0 && info.refCount == 0
        else 1 <= info.refCount <= NEW_BUCKETS_PER_ADDRESS)
    && Lookup(t.idByAddr, info.service.ip) == id
    && 0 <= info.randomPos < |t.order| && t.order[info.randomPos] == id
    && info.lastTry >= 0
    && info.lastSuccess >= 0
  }

  /** All slots of the tried table, bucket after bucket. */
  function Slots(buckets: seq<seq<int>>): seq<int> {
    if |buckets| == 0 then [] else Slots(buckets[..|buckets| - 1]) + buckets[|buckets| - 1]
  }

  ghost predicate TriedChecks(infos: map<int, AddrInfo>, buckets: seq<seq<int>>) {
    && Distinct(Slots(buckets))
    && forall id :: id in Slots(buckets) <==> id in TriedIds(infos)
  }

  ghost predicate NewChecks(infos: map<int, AddrInfo>, buckets: seq<set<int>>) {
    && (forall b, id :: 0 <= b < |buckets| && id in buckets[b] ==> id in NewIds(infos))
    && (forall id :: id in NewIds(infos) ==> infos[id].refCount == |Holders(buckets, id)|)
  }

  /** What Check_ verifies. */
  ghost predicate Checks(t: Tables) {
    && |t.order| == t.triedCount + t.newCount
    && (forall id :: id in t.infos ==> RecordChecks(t, id))
    && |TriedIds(t.infos)| == t.triedCount
    && |NewIds(t.infos)| == t.newCount
    && TriedChecks(t.infos, t.triedBuckets)
    && NewChecks(t.infos, t.newBuckets)
  }

  /** What consistency asks for beyond Check_. */
  ghost predicate Unchecked(env: Env, t: Tables) {
    && t.idCount >= 0
    && (forall id :: id in t.infos ==> 0 <= id < t.idCount && t.infos[id].service.ip in t.idByAddr)
    && (forall a :: a in t.idByAddr ==> t.idByAddr[a] in t.infos && t.infos[t.idByAddr[a]].service.ip == a)
    && |t.newBuckets| == NEW_BUCKET_COUNT && |t.triedBuckets| == TRIED_BUCKET_COUNT
    && (forall b :: 0 <= b < |t.newBuckets| ==> |t.newBuckets[b]| <= NEW_BUCKET_SIZE)
    && (forall b :: 0 <= b < |t.triedBuckets| ==> |t.triedBuckets[b]| <= TRIED_BUCKET_SIZE)
    && (forall b, id :: 0 <= b < |t.triedBuckets| && id in t.triedBuckets[b] && id in t.infos ==>
          TriedBucket(env, t.key, t.infos[id].service) == b)
  }

  lemma {:induction false} SlotsMembers(buckets: seq<seq<int>>)
    ensures forall id :: id in Slots(buckets) <==> exists b :: 0 <= b < |buckets| && id in buckets[b]
    decreases |buckets|
  {
    if |buckets| != 0 {
      var n := |buckets| - 1;
      SlotsMembers(buckets[..n]);
      forall id ensures id in Slots(buckets) <==> exists b :: 0 <= b < |buckets| && id in buckets[b] {
        if id in Slots(buckets[..n]) {
          var b :| 0 <= b < |buckets[..n]| && id in buckets[..n][b];
          assert id in buckets[b];
        }
        if exists b :: 0 <= b < |buckets| && id in buckets[b] {
          var b :| 0 <= b < |buckets| && id in buckets[b];
          if b < n { assert id in buckets[..n][b]; }
        }
      }
    }
  }

  ghost predicate Apart(buckets: seq<seq<int>>) {
    && (forall b :: 0 <= b < |buckets| ==> Distinct(buckets[b]))
    && (forall b, c, id :: 0 <= b < c < |buckets| && id in buckets[b] ==> id !in buckets[c])
  }

  lemma DistinctConcat(a: seq<int>, b: seq<int>)
    ensures Distinct(a + b) <==> Distinct(a) && Distinct(b) && forall x :: x in a ==> x !in b
  {
    var s := a + b;
    if Distinct(s) {
      forall i, j | 0 <= i < j < |a| ensures a[i] != a[j] { assert s[i] != s[j]; }
      forall i, j | 0 <= i < j < |b| ensures b[i] != b[j] { assert s[|a| + i] != s[|a| + j]; }
      forall i, j | 0 <= i < |a| && 0 <= j < |b| ensures a[i] != b[j] { assert s[i] != s[|a| + j]; }
    }
    if Distinct(a) && Distinct(b) && (forall x :: x in a ==> x !in b) {
      forall i, j | 0 <= i < j < |s| ensures s[i] != s[j] {
        if i < |a| <= j { assert s[i] in a && s[j] == b[j - |a|] && s[j] in b; }
      }
    }
  }

  lemma {:induction false} SlotsDistinct(buckets: seq<seq<int>>)
    ensures Distinct(Slots(buckets)) <==> Apart(buckets)
    decreases |buckets|
  {
    if |buckets| != 0 {
      var n := |buckets| - 1;
      var front := buckets[..n];
      SlotsDistinct(front);
      SlotsMembers(front);
      DistinctConcat(Slots(front), buckets[n]);
      if Apart(buckets) {
        assert Apart(front);
        forall x | x in Slots(front) ensures x !in buckets[n] {
          var b :| 0 <= b < |front| && x in front[b];
          assert x in buckets[b];
        }
      }
      if Distinct(Slots(buckets)) {
        forall b, c, id | 0 <= b < c < |buckets| && id in buckets[b] ensures id !in buckets[c] {
          assert id in front[b] && id in Slots(front);
        }
        forall b | 0 <= b < |buckets| ensures Distinct(buckets[b]) {
          if b < n { assert Distinct(front[b]); }
        }
      }
    }
  }

  lemma {:induction false} PositionsCount(infos: map<int, AddrInfo>, order: seq<int>, ids: set<int>)
    requires forall id :: id in ids ==> id in infos
    requires forall id :: id in ids ==> 0 <= infos[id].randomPos < |order| && order[infos[id].randomPos] == id
    ensures |set id | id in ids :: infos[id].randomPos| == |ids|
  {
    var positions := set id | id in ids :: infos[id].randomPos;
    if |ids| == 0 {
      assert ids == {};
      assert positions == {};
    } else {
      var x := Member(ids);
      PositionsCount(infos, order, ids - {x});
      var rest := set id | id in ids - {x} :: infos[id].randomPos;
      assert infos[x].randomPos !in rest;
      assert positions == rest + {infos[x].randomPos};
    }
  }

  /** If every record points at its id and there are as many records as positions, the order
      holds nothing else. */
  lemma PointersCoverOrder(infos: map<int, AddrInfo>, order: seq<int>)
    requires |order| == |infos|
    requires forall id :: id in infos ==> 0 <= infos[id].randomPos < |order| && order[infos[id].randomPos] == id
    ensures Ordered(infos, order)
  {
    var positions := set id | id in infos.Keys :: infos[id].randomPos;
    PositionsCount(infos, order, infos.Keys);
    var all := Interval(|order|);
    SubsetOfSameSize(positions, all);
    forall p | 0 <= p < |order| ensures order[p] in infos && infos[order[p]].randomPos == p {
      assert p in all && p in positions;
      var id :| id in infos.Keys && infos[id].randomPos == p;
      assert order[p] == id;
    }
  }

  lemma KindsPartition(infos: map<int, AddrInfo>)
    ensures |infos| == |NewIds(infos)| + |TriedIds(infos)|
  {
    assert NewIds(infos) + TriedIds(infos) == infos.Keys;
    assert NewIds(infos) !! TriedIds(infos);
  }

  lemma TriedChecksFromPlaced(env: Env, key: Bytes, infos: map<int, AddrInfo>, buckets: seq<seq<int>>)
    requires TriedPlaced(env, key, infos, buckets)
    ensures TriedChecks(infos, buckets)
  {
    SlotsMembers(buckets);
    SlotsDistinct(buckets);
    forall b, c, id | 0 <= b < c < |buckets| && id in buckets[b] ensures id !in buckets[c] {
      assert TriedBucket(env, key, infos[id].service) == b;
    }
    assert Apart(buckets);
    forall id ensures id in Slots(buckets) <==> id in TriedIds(infos) {
      if id in TriedIds(infos) { assert id in buckets[TriedBucket(env, key, infos[id].service)]; }
    }
  }

  lemma TriedPlacedFromChecks(env: Env, key: Bytes, infos: map<int, AddrInfo>, buckets: seq<seq<int>>)
    requires TriedChecks(infos, buckets) && |buckets| == TRIED_BUCKET_COUNT
    requires forall b :: 0 <= b < |buckets| ==> |buckets[b]| <= TRIED_BUCKET_SIZE
    requires forall b, id :: 0 <= b < |buckets| && id in buckets[b] && id in infos ==>
               TriedBucket(env, key, infos[id].service) == b
    ensures TriedPlaced(env, key, infos, buckets)
  {
    SlotsMembers(buckets);
    SlotsDistinct(buckets);
    forall b, id | 0 <= b < |buckets| && id in buckets[b]
      ensures id in infos && infos[id].inTried && TriedBucket(env, key, infos[id].service) == b
    {
      assert id in Slots(buckets);
    }
    forall id | id in infos && infos[id].inTried
      ensures id in buckets[TriedBucket(env, key, infos[id].service)]
    {
      assert id in TriedIds(infos) && id in Slots(buckets);
      var b :| 0 <= b < |buckets| && id in buckets[b];
    }
  }

  lemma NewChecksFromPlaced(infos: map<int, AddrInfo>, buckets: seq<set<int>>)
    requires NewPlaced(infos, buckets, -1) && -1 !in infos
    ensures NewChecks(infos, buckets)
  {
    forall b, id | 0 <= b < |buckets| && id in buckets[b] ensures id in NewIds(infos) {
      assert b in Holders(buckets, id);
    }
  }

  lemma NewPlacedFromChecks(infos: map<int, AddrInfo>, buckets: seq<set<int>>)
    requires NewChecks(infos, buckets) && -1 !in infos && |buckets| == NEW_BUCKET_COUNT
    requires forall b :: 0 <= b < |buckets| ==> |buckets[b]| <= NEW_BUCKET_SIZE
    requires forall id :: id in infos ==>
      if infos[id].inTried then infos[id].refCount == 0 else 1 <= infos[id].refCount <= NEW_BUCKETS_PER_ADDRESS
    ensures NewPlaced(infos, buckets, -1)
  {
    forall b, id | 0 <= b < |buckets| && id in buckets[b] ensures id in infos {
      assert id in NewIds(infos);
    }
    forall id | id in infos ensures infos[id].refCount == |Holders(buckets, id)| {
      if infos[id].inTried {
        assert id !in NewIds(infos);
        assert Holders(buckets, id) == {};
      } else {
        assert id in NewIds(infos);
      }
    }
  }

  lemma ConsistentImpliesChecks(env: Env, t: Tables)
    requires Consistent(env, t)
    ensures Checks(t)
  {
    OrderLength(t.infos, t.order);
    KindsPartition(t.infos);
    TriedChecksFromPlaced(env, t.key, t.infos, t.triedBuckets);
    NewChecksFromPlaced(t.infos, t.newBuckets);
  }

  lemma ChecksImplyConsistent(env: Env, t: Tables)
    requires Checks(t) && Unchecked(env, t)
    ensures Consistent(env, t)
  {
    KindsPartition(t.infos);
    forall id | id in t.infos ensures 0 <= t.infos[id].randomPos < |t.order| && t.order[t.infos[id].randomPos] == id {
      assert RecordChecks(t, id);
    }
    PointersCoverOrder(t.infos, t.order);
    TriedPlacedFromChecks(env, t.key, t.infos, t.triedBuckets);
    NewPlacedFromChecks(t.infos, t.newBuckets);
    forall id | id in t.infos
      ensures t.idByAddr[t.infos[id].service.ip] == id && t.infos[id].lastTry >= 0 && t.infos[id].lastSuccess >= 0
    {
      assert RecordChecks(t, id);
    }
  }

  /** Check_ and what it leaves unchecked are together exactly the invariant of all runs with proper times. */
  lemma ConsistentIffChecks(env: Env, t: Tables)
    ensures Consistent(env, t) <==> Checks(t) && Unchecked(env, t)
  {
    if Consistent(env, t) { ConsistentImpliesChecks(env, t); }
    if Checks(t) && Unchecked(env, t) { ChecksImplyConsistent(env, t); }
  }

  /** Of structured tables, as every run leaves them, Check_ finds fault exactly with improper times. */
  lemma OnlyDatesFail(env: Env, t: Tables)
    requires Structured(env, t)
    ensures Checks(t) <==> Dated(t.infos)
  {
    if Dated(t.infos) { ConsistentImpliesChecks(env, t); }
    if Checks(t) {
      forall id | id in t.infos ensures RecordChecks(t, id) {}
    }
  }

  // ----- the check itself -----

  /** Lookups with operator[] give what they gave at the start, though missing addresses have been added. */
  ghost predicate SameLookups(t: Tables, am: AddrMan)
    reads am
  {
    && am.infos == t.infos && am.order == t.order
    && (forall a :: Lookup(am.idByAddr, a) == Lookup(t.idByAddr, a))
    && (AllIndexed(t) ==> am.idByAddr == t.idByAddr)
  }

  ghost predicate AllIndexed(t: Tables) {
    forall id :: id in t.infos ==> t.infos[id].service.ip in t.idByAddr
  }

  method CheckRecord(am: AddrMan, n: int, ghost t: Tables) returns (err: int)
    requires n in am.infos && SameLookups(t, am)
    modifies am`idByAddr
    ensures SameLookups(t, am)
    ensures err == 0 <==> RecordChecks(t, n)
  {
    var info := am.infos[n];
    if info.inTried {
      if info.lastSuccess == 0 { return -1; }
      if info.refCount != 0 { return -2; }
    } else {
      if info.refCount < 0 || info.refCount > NEW_BUCKETS_PER_ADDRESS { return -3; }
      if info.refCount == 0 { return -4; }
    }
    var indexed := LookupOrInsert(am, info.service.ip, n, t);
    if indexed != n { return -5; }
    if info.randomPos < 0 || info.randomPos >= |am.order| || am.order[info.randomPos] != n { return -14; }
    if info.lastTry < 0 { return -6; }
    if info.lastSuccess < 0 { return -8; }
    return 0;
  }

  /** std::map::operator[]. */
  method LookupOrInsert(am: AddrMan, a: NetAddr, ghost n: int, ghost t: Tables) returns (id: int)
    requires n in am.infos && am.infos[n].service.ip == a && SameLookups(t, am)
    modifies am`idByAddr
    ensures SameLookups(t, am)
    ensures id == Lookup(t.idByAddr, a)
  {
    if a !in am.idByAddr {
      am.idByAddr := am.idByAddr[a := 0];
    }
    id := am.idByAddr[a];
  }

  ghost function RefCounts(infos: map<int, AddrInfo>, left: set<int>): map<int, int> {
    map id | id in NewIds(infos) && id !in left :: infos[id].refCount
  }

  lemma OneRecordLess(infos: map<int, AddrInfo>, left: set<int>, n: int)
    requires n in infos && n in left
    ensures infos[n].inTried ==>
      && TriedIds(infos) - (left - {n}) == TriedIds(infos) - left + {n}
      && RefCounts(infos, left - {n}) == RefCounts(infos, left)
    ensures !infos[n].inTried ==>
      && TriedIds(infos) - (left - {n}) == TriedIds(infos) - left
      && RefCounts(infos, left - {n}) == RefCounts(infos, left)[n := infos[n].refCount]
  {
  }

  /** Checks every record, in ascending order, and collects the tried ids and the reference counts
      of the new ones. */
  method CheckRecords(am: AddrMan) returns (err: int, tried: set<int>, counts: map<int, int>)
    modifies am`idByAddr
    ensures SameLookups(old(am.View()), am)
    ensures err == 0 <==> forall id :: id in am.infos ==> RecordChecks(old(am.View()), id)
    ensures err == 0 ==> tried == TriedIds(am.infos) && counts == RefCounts(am.infos, {})
  {
    ghost var t := am.View();
    tried, counts := {}, map[];
    var left := am.infos.Keys;
    while |left| > 0
      invariant left <= t.infos.Keys && SameLookups(t, am)
      invariant forall id :: id in t.infos && id !in left ==> RecordChecks(t, id)
      invariant tried == TriedIds(t.infos) - left
      invariant counts == RefCounts(t.infos, left)
      decreases |left|
    {
      var n := Least(left);
      err := CheckRecord(am, n, t);
      if err != 0 { return; }
      OneRecordLess(t.infos, left, n);
      if am.infos[n].inTried {
        tried := tried + {n};
      } else {
        counts := counts[n := am.infos[n].refCount];
      }
      left := left - {n};
    }
    assert left == {};
    err := 0;
  }

  /** The slots before slot p of bucket n. */
  ghost function SlotsBefore(buckets: seq<seq<int>>, n: nat, p: nat): seq<int>
    requires n < |buckets| && p <= |buckets[n]|
  {
    Slots(buckets[..n]) + buckets[n][..p]
  }

  lemma {:induction false} SlotsPrefix(buckets: seq<seq<int>>, n: nat)
    requires n <= |buckets|
    ensures Slots(buckets[..n]) <= Slots(buckets)
    decreases |buckets|
  {
    if n == |buckets| {
      assert buckets[..n] == buckets;
    } else {
      var front := buckets[..|buckets| - 1];
      SlotsPrefix(front, n);
      assert front[..n] == buckets[..n];
    }
  }

  /** A slot whose id has been taken already, or never was tried, fails the check. */
  lemma SlotFails(infos: map<int, AddrInfo>, buckets: seq<seq<int>>, n: nat, p: nat)
    requires n < |buckets| && p < |buckets[n]|
    requires var id := buckets[n][p]; id !in TriedIds(infos) || id in SlotsBefore(buckets, n, p)
    ensures !TriedChecks(infos, buckets)
  {
    var id := buckets[n][p];
    SlotsPrefix(buckets, n + 1);
    assert buckets[..n + 1][..n] == buckets[..n];
    var upTo := Slots(buckets[..n]) + buckets[n];
    assert upTo == Slots(buckets[..n + 1]);
    var at := |Slots(buckets[..n])| + p;
    assert Slots(buckets)[at] == id;
    if id in SlotsBefore(buckets, n, p) {
      var i :| 0 <= i < |SlotsBefore(buckets, n, p)| && SlotsBefore(buckets, n, p)[i] == id;
      assert Slots(buckets)[i] == id && i < at;
    }
  }

  lemma SlotsBeforeNext(buckets: seq<seq<int>>, n: nat, p: nat)
    requires n < |buckets| && p < |buckets[n]|
    ensures SlotsBefore(buckets, n, p + 1) == SlotsBefore(buckets, n, p) + [buckets[n][p]]
  {
  }

  lemma DistinctNext(s: seq<int>, x: int)
    requires Distinct(s) && x !in s
    ensures Distinct(s + [x])
  {
  }

  /** Strikes the id of every slot off the tried ids. */
  method CheckTried(buckets: seq<seq<int>>, ghost infos: map<int, AddrInfo>, tried: set<int>)
    returns (err: int, left: set<int>)
    requires tried == TriedIds(infos)
    ensures err == 0 && left == {} <==> TriedChecks(infos, buckets)
    ensures err == 0 || err == -11
  {
    left := tried;
    var n := 0;
    while n < |buckets|
      invariant 0 <= n <= |buckets|
      invariant Distinct(Slots(buckets[..n]))
      invariant forall id :: id in Slots(buckets[..n]) ==> id in tried
      invariant forall id :: id in left <==> id in tried && id !in Slots(buckets[..n])
    {
      var p := 0;
      assert SlotsBefore(buckets, n, 0) == Slots(buckets[..n]);
      while p < |buckets[n]|
        invariant 0 <= p <= |buckets[n]|
        invariant Distinct(SlotsBefore(buckets, n, p))
        invariant forall id :: id in SlotsBefore(buckets, n, p) ==> id in tried
        invariant forall id :: id in left <==> id in tried && id !in SlotsBefore(buckets, n, p)
      {
        var id := buckets[n][p];
        if id !in left {
          SlotFails(infos, buckets, n, p);
          return -11, left;
        }
        SlotsBeforeNext(buckets, n, p);
        DistinctNext(SlotsBefore(buckets, n, p), id);
        left := left - {id};
        p := p + 1;
      }
      assert buckets[n][..p] == buckets[n] && buckets[..n + 1][..n] == buckets[..n];
      assert SlotsBefore(buckets, n, p) == Slots(buckets[..n + 1]);
      n := n + 1;
    }
    assert buckets[..n] == buckets;
    err := 0;
    if left != {} {
      ghost var id := Member(left);
      assert id in TriedIds(infos) && id !in Slots(buckets);
    }
  }

  /** References of id not yet met when the buckets before n, and of bucket n all but rest, have
      been visited. */
  ghost function Owed(infos: map<int, AddrInfo>, buckets: seq<set<int>>, n: nat, rest: set<int>, id: int): int
    requires n <= |buckets| && id in infos
  {
    infos[id].refCount - |Holders(buckets[..n], id)|
      - (if n < |buckets| && id in buckets[n] && id !in rest then 1 else 0)
  }

  ghost predicate CountsOwed(infos: map<int, AddrInfo>, buckets: seq<set<int>>, n: nat, rest: set<int>,
                             counts: map<int, int>)
    requires n <= |buckets|
  {
    && (forall id :: id in NewIds(infos) ==> Owed(infos, buckets, n, rest, id) >= 0)
    && (forall id :: id in counts <==> id in NewIds(infos) && Owed(infos, buckets, n, rest, id) > 0)
    && (forall id :: id in counts ==> id in infos && counts[id] == Owed(infos, buckets, n, rest, id))
  }

  lemma HoldersNext(buckets: seq<set<int>>, n: nat, id: int)
    requires n < |buckets|
    ensures |Holders(buckets[..n + 1], id)| == |Holders(buckets[..n], id)| + (if id in buckets[n] then 1 else 0)
  {
    var before := Holders(buckets[..n], id);
    forall b ensures b in Holders(buckets[..n + 1], id) <==> b in before || (b == n && id in buckets[n]) {}
    if id in buckets[n] {
      assert Holders(buckets[..n + 1], id) == before + {n};
    } else {
      assert Holders(buckets[..n + 1], id) == before;
    }
  }

  lemma OwedNextBucket(infos: map<int, AddrInfo>, buckets: seq<set<int>>, n: nat, rest: set<int>, counts: map<int, int>)
    requires n < |buckets| && CountsOwed(infos, buckets, n, {}, counts)
    requires n + 1 < |buckets| ==> rest == buckets[n + 1]
    ensures CountsOwed(infos, buckets, n + 1, rest, counts)
  {
    forall id | id in infos ensures Owed(infos, buckets, n + 1, rest, id) == Owed(infos, buckets, n, {}, id) {
      HoldersNext(buckets, n, id);
    }
  }

  lemma BucketFails(infos: map<int, AddrInfo>, buckets: seq<set<int>>, n: nat, rest: set<int>, counts: map<int, int>,
                    id: int)
    requires n < |buckets| && CountsOwed(infos, buckets, n, rest, counts)
    requires id in rest && id in buckets[n] && id !in counts
    ensures !NewChecks(infos, buckets)
  {
    if id in NewIds(infos) {
      assert Owed(infos, buckets, n, rest, id) == 0;
      HoldersNext(buckets, n, id);
      SubsetSize(Holders(buckets[..n + 1], id), Holders(buckets, id));
    }
  }

  lemma OwedOneLess(infos: map<int, AddrInfo>, buckets: seq<set<int>>, n: nat, rest: set<int>, counts: map<int, int>,
                    id: int)
    requires n < |buckets| && CountsOwed(infos, buckets, n, rest, counts)
    requires id in rest && id in buckets[n] && id in counts
    ensures CountsOwed(infos, buckets, n, rest - {id},
                       if counts[id] == 1 then counts - {id} else counts[id := counts[id] - 1])
  {
    var rest' := rest - {id};
    assert Owed(infos, buckets, n, rest', id) == Owed(infos, buckets, n, rest, id) - 1;
    forall k | k in infos && k != id ensures Owed(infos, buckets, n, rest', k) == Owed(infos, buckets, n, rest, k) {}
  }

  /** The members of bucket n, if there is one. */
  ghost function Members(buckets: seq<set<int>>, n: nat): set<int> {
    if n < |buckets| then buckets[n] else {}
  }

  /** Counts one reference down for every member of bucket n. */
  method CheckBucket(buckets: seq<set<int>>, ghost infos: map<int, AddrInfo>, n: int, counts: map<int, int>)
    returns (ok: bool, left: map<int, int>)
    requires 0 <= n < |buckets| && CountsOwed(infos, buckets, n, buckets[n], counts)
    ensures ok ==> CountsOwed(infos, buckets, n, {}, left) && forall id :: id in buckets[n] ==> id in NewIds(infos)
    ensures !ok ==> !NewChecks(infos, buckets)
  {
    left := counts;
    var rest := buckets[n];
    while |rest| > 0
      invariant rest <= buckets[n] && CountsOwed(infos, buckets, n, rest, left)
      invariant forall id :: id in buckets[n] && id !in rest ==> id in NewIds(infos)
      decreases |rest|
    {
      var id := Least(rest);
      if id !in left {
        BucketFails(infos, buckets, n, rest, left, id);
        return false, left;
      }
      OwedOneLess(infos, buckets, n, rest, left, id);
      if left[id] == 1 {
        left := left - {id};
      } else {
        left := left[id := left[id] - 1];
      }
      rest := rest - {id};
    }
    assert rest == {};
    ok := true;
  }

  /** Counts one reference down for every member of every new bucket. */
  method CheckNew(buckets: seq<set<int>>, ghost infos: map<int, AddrInfo>, counts: map<int, int>)
    returns (err: int, left: map<int, int>)
    requires counts == RefCounts(infos, {}) && forall id :: id in NewIds(infos) ==> infos[id].refCount >= 1
    ensures err == 0 && left == map[] <==> NewChecks(infos, buckets)
    ensures err == 0 || err == -12
  {
    left := counts;
    NothingVisited(infos, buckets);
    var n := 0;
    while n < |buckets|
      invariant 0 <= n <= |buckets|
      invariant CountsOwed(infos, buckets, n, Members(buckets, n), left)
      invariant forall b, id :: 0 <= b < n && id in buckets[b] ==> id in NewIds(infos)
    {
      var ok;
      ok, left := CheckBucket(buckets, infos, n, left);
      if !ok { return -12, left; }
      OwedNextBucket(infos, buckets, n, Members(buckets, n + 1), left);
      n := n + 1;
    }
    err := 0;
    NothingOwed(infos, buckets, left);
  }

  lemma NothingVisited(infos: map<int, AddrInfo>, buckets: seq<set<int>>)
    requires forall id :: id in NewIds(infos) ==> infos[id].refCount >= 1
    ensures CountsOwed(infos, buckets, 0, Members(buckets, 0), RefCounts(infos, {}))
  {
    assert forall id :: Holders(buckets[..0], id) == {};
  }

  lemma NothingOwed(infos: map<int, AddrInfo>, buckets: seq<set<int>>, counts: map<int, int>)
    requires CountsOwed(infos, buckets, |buckets|, {}, counts)
    ensures counts == map[] <==> forall id :: id in NewIds(infos) ==> infos[id].refCount == |Holders(buckets, id)|
  {
    assert buckets[..|buckets|] == buckets;
    if counts == map[] {
      forall id | id in NewIds(infos) ensures infos[id].refCount == |Holders(buckets, id)| {
        assert id !in counts;
        assert Owed(infos, buckets, |buckets|, {}, id) == 0;
      }
    } else {
      var id := Member(counts.Keys);
      assert id in counts && Owed(infos, buckets, |buckets|, {}, id) > 0;
    }
  }

  /** The whole check. */
  method Check(am: AddrMan) returns (err: int)
    modifies am`idByAddr
    ensures err == 0 <==> Checks(old(am.View()))
    ensures AllIndexed(old(am.View())) ==> am.View() == old(am.View())
  {
    ghost var t := am.View();
    if |am.order| != am.triedCount + am.newCount { return -7; }
    var tried, counts;
    err, tried, counts := CheckRecords(am);
    if err != 0 { return; }
    if |tried| != am.triedCount { return -9; }
    NewIdsCounted(t.infos);
    if |counts| != am.newCount { return -10; }
    assert forall id :: id in NewIds(t.infos) ==> RecordChecks(t, id);
    var triedLeft, newLeft;
    err, triedLeft := CheckTried(am.triedBuckets, am.infos, tried);
    if err != 0 { return; }
    err, newLeft := CheckNew(am.newBuckets, am.infos, counts);
    if err != 0 { return; }
    if triedLeft != {} { return -13; }
    if newLeft != map[] { return -15; }
    return 0;
  }

  lemma NewIdsCounted(infos: map<int, AddrInfo>)
    ensures |RefCounts(infos, {})| == |NewIds(infos)|
  {
    assert RefCounts(infos, {}).Keys == NewIds(infos);
  }

  /** In every state of every run the check changes nothing, and returns zero exactly if the times are in order,
      as they are when the run is given proper ones. */
  method CheckAfterRun(am: AddrMan, ghost ops: seq<Op>, ghost states: seq<Tables>) returns (err: int)
    requires Run(am.env, am.key, ops, states) && am.View() == states[|ops|]
    modifies am`idByAddr
    ensures am.View() == old(am.View())
    ensures err == 0 <==> Dated(am.infos)
    ensures (forall k :: 0 <= k < |ops| ==> Timely(ops[k])) ==> err == 0
  {
    RunsAreStructured(am.env, am.key, ops, states, |ops|);
    OnlyDatesFail(am.env, am.View());
    if forall k :: 0 <= k < |ops| ==> Timely(ops[k]) { RunsAreConsistent(am.env, am.key, ops, states, |ops|); }
    err := Check(am);
  }
}
