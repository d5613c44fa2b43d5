/** The operations of the address manager as relations between tables: every choice of the
    random number generator is one of the related results. Consistency survives each of them,
    and hence every run. */
module AddrSteps {
  import opened Arithmetic
  import opened AddrTypes
  import opened AddrTables
  import opened FiniteSets

  // ----- Add -----

  /** What Add does to the record of an address that is already known. */
  function Refreshed(info: AddrInfo, addr: Address, penalty: int, now: int): AddrInfo {
    var interval := if now - addr.time < 24 * 60 * 60 then 60 * 60 else 24 * 60 * 60;
    var stale := addr.time != 0 && (info.time == 0 || info.time < addr.time - interval - penalty);
    info.(time := if stale then ToU32(Max(0, addr.time - penalty)) else info.time,
          services := info.services + addr.services)
  }

  /** No further bucket is considered for a refreshed record. */
  predicate Settles(info: AddrInfo, addr: Address) {
    || addr.time == 0 || (info.time != 0 && addr.time <= info.time)
    || info.inTried || info.refCount == NEW_BUCKETS_PER_ADDRESS
  }

  /** ShrinkNew removes the first expendable entry if there is one, and otherwise any of them may go. */
  ghost predicate Evictable(t: Tables, b: int, now: int, victim: int)
    requires 0 <= b < |t.newBuckets| && forall id :: id in t.newBuckets[b] ==> id in t.infos
  {
    && victim in t.newBuckets[b]
    && forall id :: id in t.newBuckets[b] && t.infos[id].Expendable(now) ==>
         t.infos[victim].Expendable(now) && victim <= id
  }

  /** An entry that already counts its reference enters bucket b, at the cost of another if b is full. */
  ghost predicate Places(env: Env, t: Tables, b: int, id: int, now: int, t': Tables)
    requires Ordered(t.infos, t.order) && 0 <= b < |t.newBuckets|
    requires forall k :: k in t.newBuckets[b] ==> k in t.infos
  {
    if |t.newBuckets[b]| < NEW_BUCKET_SIZE then t' == Inserted(t, b, id)
    else exists victim :: Evictable(t, b, now, victim) && t' == Replaced(t, b, victim, id)
  }

  function Replaced(t: Tables, b: int, victim: int, id: int): Tables
    requires Ordered(t.infos, t.order) && victim in t.infos && 0 <= b < |t.newBuckets|
  {
    Inserted(Unreferenced(t, b, victim), b, id)
  }

  lemma ReplacedKeeps(env: Env, t: Tables, b: int, id: int, victim: int)
    requires StructuredBut(env, t, id) && id in t.infos && t.idCount >= 0
    requires 0 <= b < |t.newBuckets| && id !in t.newBuckets[b] && victim in t.newBuckets[b]
    ensures victim in t.infos && Structured(env, Replaced(t, b, victim, id))
  {
    assert victim in t.infos && |t.newBuckets[b]| <= NEW_BUCKET_SIZE;
    UnreferencedBuckets(t, b, victim, id);
    UnreferencedKeeps(env, t, b, victim, id);
    InsertedKeeps(env, Unreferenced(t, b, victim), b, id);
  }

  lemma UnreferencedBuckets(t: Tables, b: int, victim: int, id: int)
    requires Ordered(t.infos, t.order) && victim in t.infos && id in t.infos && id != victim
    requires 0 <= b < |t.newBuckets| && victim in t.newBuckets[b]
    ensures var t1 := Unreferenced(t, b, victim);
      && id in t1.infos && t1.idCount == t.idCount && |t1.newBuckets| == |t.newBuckets|
      && t1.newBuckets[b] == t.newBuckets[b] - {victim}
  {
  }

  lemma PlacesFullKeeps(env: Env, t: Tables, b: int, id: int, now: int, t': Tables)
    requires StructuredBut(env, t, id) && id in t.infos && t.idCount >= 0
    requires 0 <= b < |t.newBuckets| && id !in t.newBuckets[b] && |t.newBuckets[b]| >= NEW_BUCKET_SIZE
    requires Places(env, t, b, id, now, t')
    ensures Structured(env, t')
  {
    var victim :| Evictable(t, b, now, victim) && t' == Replaced(t, b, victim, id);
    ReplacedKeeps(env, t, b, id, victim);
  }

  lemma PlacesKeeps(env: Env, t: Tables, b: int, id: int, now: int, t': Tables)
    requires StructuredBut(env, t, id) && id in t.infos && t.idCount >= 0
    requires 0 <= b < |t.newBuckets| && id !in t.newBuckets[b]
    requires Places(env, t, b, id, now, t')
    ensures Structured(env, t')
  {
    if |t.newBuckets[b]| < NEW_BUCKET_SIZE {
      InsertedKeeps(env, t, b, id);
    } else {
      PlacesFullKeeps(env, t, b, id, now, t');
    }
  }

  lemma CreatedIsNowhere(env: Env, t: Tables, b: int)
    requires Structured(env, t) && 0 <= b < |t.newBuckets|
    ensures t.idCount !in t.newBuckets[b]
  {
    assert t.idCount !in t.infos;
  }

  /** A record that has been refreshed counts one more reference, for bucket b. */
  ghost predicate TakesBucket(env: Env, t: Tables, id: int, info: AddrInfo, b: int, now: int, t': Tables)
    requires id in t.infos && Ordered(t.infos, t.order) && NewPlaced(t.infos, t.newBuckets, -1)
    requires SamePlace(t.infos[id], info) && 0 <= b < |t.newBuckets|
  {
    Places(env, Restated(t, id, info.(refCount := info.refCount + 1)), b, id, now, t')
  }

  /** The address of entry id is announced again: its record is refreshed, and unless that settles the matter, one
      of the 2^N draws for an entry with N references gives it one more bucket. */
  ghost predicate AddKnownStep(env: Env, t: Tables, id: int, addr: Address, source: NetAddr, penalty: int, now: int,
                               t': Tables)
    requires id in t.infos && Ordered(t.infos, t.order) && NewPlaced(t.infos, t.newBuckets, -1)
  {
    exists draw: nat ::
      draw < Pow2(t.infos[id].refCount) && AddKnownDrawn(env, t, id, addr, source, penalty, now, draw, t')
  }

  ghost predicate AddKnownDrawn(env: Env, t: Tables, id: int, addr: Address, source: NetAddr, penalty: int, now: int,
                                draw: nat, t': Tables)
    requires id in t.infos && Ordered(t.infos, t.order) && NewPlaced(t.infos, t.newBuckets, -1)
  {
    var b := NewBucket(env, t.key, addr.service.ip, source);
    var info := Refreshed(t.infos[id], addr, penalty, now);
    if Settles(info, addr) || draw != 0 || id in t.newBuckets[b] then t' == Restated(t, id, info)
    else TakesBucket(env, t, id, info, b, now, t')
  }

  /** A new entry is created and placed in the bucket its source selects. */
  ghost predicate AddUnknownStep(env: Env, t: Tables, addr: Address, source: NetAddr, penalty: int, now: int,
                                 t': Tables)
    requires Stamped(t.infos, t.idCount) && Ordered(t.infos, t.order) && NewPlaced(t.infos, t.newBuckets, -1)
  {
    var b := NewBucket(env, t.key, addr.service.ip, source);
    Places(env, Created(t, addr, source, ToU32(Max(0, addr.time - penalty))), b, t.idCount, now, t')
  }

  ghost predicate AddStep(env: Env, t: Tables, addr: Address, source: NetAddr, penalty: int, now: int, t': Tables,
                          added: bool)
    requires Structured(env, t)
  {
    var ip := addr.service.ip;
    if !env.routable(ip) then t' == t && !added
    else if ip in t.idByAddr then
      !added && AddKnownStep(env, t, t.idByAddr[ip], addr, source, penalty, now, t')
    else
      added && AddUnknownStep(env, t, addr, source, penalty, now, t')
  }

  /** An entry of the new table may take a further reference. */
  lemma ReferencedKeeps(env: Env, t: Tables, id: int, info: AddrInfo)
    requires Structured(env, t) && id in t.infos && SamePlace(t.infos[id], info)
    requires !info.inTried && info.refCount < NEW_BUCKETS_PER_ADDRESS
    ensures StructuredBut(env, Restated(t, id, info.(refCount := info.refCount + 1)), id)
  {
    RestatedKeeps(env, t, id, info);
    OneReferenceMore(env, Restated(t, id, info), id);
    assert t.infos[id := info][id := info.(refCount := info.refCount + 1)]
      == t.infos[id := info.(refCount := info.refCount + 1)];
  }

  lemma OneReferenceMore(env: Env, t: Tables, id: int)
    requires Structured(env, t) && id in t.infos
    requires !t.infos[id].inTried && t.infos[id].refCount < NEW_BUCKETS_PER_ADDRESS
    ensures StructuredBut(env, t.(infos := Recounted(t.infos, id, t.infos[id].refCount + 1)), id)
  {
    var n := t.infos[id].refCount + 1;
    RecountedKeeps(t.infos, t.idByAddr, t.order, id, n);
    RecountedTried(env, t.key, t.infos, t.triedBuckets, id, n);
    NewPlacedReferenced(t.infos, t.newBuckets, id);
  }

  lemma NewPlacedReferenced(infos: map<int, AddrInfo>, buckets: seq<set<int>>, id: int)
    requires NewPlaced(infos, buckets, -1) && -1 !in infos
    requires id in infos && !infos[id].inTried && infos[id].refCount < NEW_BUCKETS_PER_ADDRESS
    ensures NewPlaced(Recounted(infos, id, infos[id].refCount + 1), buckets, id)
  {
  }

  /** What the step makes of the record, and whether a bucket is taken that the record has been counted for. */
  lemma AddKnownCases(env: Env, t: Tables, id: int, addr: Address, source: NetAddr, penalty: int, now: int,
                      t': Tables)
    returns (info: AddrInfo, draw: nat, more: bool)
    requires Structured(env, t) && id in t.infos && AddKnownStep(env, t, id, addr, source, penalty, now, t')
    ensures info == Refreshed(t.infos[id], addr, penalty, now) && draw < Pow2(t.infos[id].refCount)
    ensures more <==>
      !Settles(info, addr) && draw == 0 && id !in t.newBuckets[NewBucket(env, t.key, addr.service.ip, source)]
    ensures SamePlace(t.infos[id], info)
    ensures info.lastTry == t.infos[id].lastTry && info.lastSuccess == t.infos[id].lastSuccess
    ensures !more ==> t' == Restated(t, id, info)
    ensures more ==>
      var t2 := Restated(t, id, info.(refCount := info.refCount + 1));
      var b := NewBucket(env, t.key, addr.service.ip, source);
      StructuredBut(env, t2, id) && id !in t.newBuckets[b] && Places(env, t2, b, id, now, t')
  {
    info := Refreshed(t.infos[id], addr, penalty, now);
    draw :| draw < Pow2(t.infos[id].refCount) && AddKnownDrawn(env, t, id, addr, source, penalty, now, draw, t');
    more := !Settles(info, addr) && draw == 0 && id !in t.newBuckets[NewBucket(env, t.key, addr.service.ip, source)];
    if more {
      RoomForMore(t.infos, t.newBuckets, id, info, addr);
      ReferencedKeeps(env, t, id, info);
    }
  }

  lemma RoomForMore(infos: map<int, AddrInfo>, buckets: seq<set<int>>, id: int, info: AddrInfo, addr: Address)
    requires NewPlaced(infos, buckets, -1) && id in infos && SamePlace(infos[id], info) && !Settles(info, addr)
    ensures !info.inTried && info.refCount < NEW_BUCKETS_PER_ADDRESS
  {
  }

  lemma AddKnownKeeps(env: Env, t: Tables, id: int, addr: Address, source: NetAddr, penalty: int, now: int, t': Tables)
    requires Structured(env, t) && id in t.infos
    requires AddKnownStep(env, t, id, addr, source, penalty, now, t')
    ensures Structured(env, t')
  {
    var info, draw, more := AddKnownCases(env, t, id, addr, source, penalty, now, t');
    if more {
      var b := NewBucket(env, t.key, addr.service.ip, source);
      PlacesKeeps(env, Restated(t, id, info.(refCount := info.refCount + 1)), b, id, now, t');
    } else {
      RestatedKeeps(env, t, id, info);
    }
  }

  lemma AddUnknownKeeps(env: Env, t: Tables, addr: Address, source: NetAddr, penalty: int, now: int, t': Tables)
    requires Structured(env, t) && addr.service.ip !in t.idByAddr
    requires AddUnknownStep(env, t, addr, source, penalty, now, t')
    ensures Structured(env, t')
  {
    var time := ToU32(Max(0, addr.time - penalty));
    var b := NewBucket(env, t.key, addr.service.ip, source);
    CreatedKeeps(env, t, addr, source, time);
    CreatedIsNowhere(env, t, b);
    PlacesKeeps(env, Created(t, addr, source, time), b, t.idCount, now, t');
  }

  lemma AddKeeps(env: Env, t: Tables, addr: Address, source: NetAddr, penalty: int, now: int, t': Tables, added: bool)
    requires Structured(env, t) && AddStep(env, t, addr, source, penalty, now, t', added)
    ensures Structured(env, t')
  {
    var ip := addr.service.ip;
    if env.routable(ip) {
      if ip in t.idByAddr {
        AddKnownKeeps(env, t, t.idByAddr[ip], addr, source, penalty, now, t');
      } else {
        AddUnknownKeeps(env, t, addr, source, penalty, now, t');
      }
    }
  }

  // ----- Good -----

  function Emptied(buckets: seq<set<int>>, id: int): seq<set<int>> {
    seq(|buckets|, b requires 0 <= b < |buckets| => buckets[b] - {id})
  }

  /** An entry is taken out of all its new buckets. */
  function Uprooted(t: Tables, id: int): Tables
    requires id in t.infos
  {
    t.(infos := Recounted(t.infos, id, 0), newBuckets := Emptied(t.newBuckets, id), newCount := t.newCount - 1)
  }

  /** There is room in tried bucket k. */
  function Settled(t: Tables, id: int, k: int): Tables
    requires id in t.infos && 0 <= k < |t.triedBuckets|
  {
    t.(infos := t.infos[id := t.infos[id].(inTried := true)],
       triedBuckets := t.triedBuckets[k := t.triedBuckets[k] + [id]],
       triedCount := t.triedCount + 1)
  }

  /** The new bucket an evicted tried entry goes to: its own, or else the one its successor came from. */
  function ReturnBucket(env: Env, t: Tables, evicted: int, origin: int): int
    requires evicted in t.infos && |t.newBuckets| == NEW_BUCKET_COUNT
  {
    var b := NewBucket(env, t.key, t.infos[evicted].service.ip, t.infos[evicted].source);
    if |t.newBuckets[b]| < NEW_BUCKET_SIZE then b else origin
  }

  /** id replaces the entry at position pos of the shuffled bucket k, which returns to new bucket dest. */
  function Exchanged(t: Tables, id: int, k: int, bucket: seq<int>, pos: int, dest: int): Tables
    requires id in t.infos && 0 <= k < |t.triedBuckets| && 0 <= pos < |bucket| && bucket[pos] in t.infos
    requires 0 <= dest < |t.newBuckets|
  {
    var evicted := bucket[pos];
    var infos1 := t.infos[evicted := t.infos[evicted].(inTried := false, refCount := 1)];
    t.(infos := infos1[id := infos1[id].(inTried := true)],
       triedBuckets := t.triedBuckets[k := bucket[pos := id]],
       newBuckets := t.newBuckets[dest := t.newBuckets[dest] + {evicted}],
       newCount := t.newCount + 1)
  }

  ghost predicate MakeTriedStep(env: Env, t: Tables, id: int, origin: int, t': Tables)
    requires id in t.infos && 0 <= origin < |t.newBuckets| == NEW_BUCKET_COUNT && |t.triedBuckets| == TRIED_BUCKET_COUNT
  {
    var t1 := Uprooted(t, id);
    var k := TriedBucket(env, t.key, t.infos[id].service);
    if |t.triedBuckets[k]| < TRIED_BUCKET_SIZE then t' == Settled(t1, id, k)
    else exists bucket: seq<int>, pos ::
      && multiset(bucket) == multiset(t.triedBuckets[k]) && 0 <= pos < |bucket|
      && bucket[pos] in t.infos
      && t' == Exchanged(t1, id, k, bucket, pos, ReturnBucket(env, t1, bucket[pos], origin))
  }

  /** The shuffled bucket and the position that made a step an exchange. */
  lemma ExchangeOf(env: Env, t: Tables, id: int, origin: int, t': Tables) returns (bucket: seq<int>, pos: int)
    requires id in t.infos && 0 <= origin < |t.newBuckets| == NEW_BUCKET_COUNT && |t.triedBuckets| == TRIED_BUCKET_COUNT
    requires |t.triedBuckets[TriedBucket(env, t.key, t.infos[id].service)]| >= TRIED_BUCKET_SIZE
    requires MakeTriedStep(env, t, id, origin, t')
    ensures multiset(bucket) == multiset(t.triedBuckets[TriedBucket(env, t.key, t.infos[id].service)])
    ensures 0 <= pos < |bucket| && bucket[pos] in t.infos
    ensures t' == Exchanged(Uprooted(t, id), id, TriedBucket(env, t.key, t.infos[id].service), bucket, pos,
                            ReturnBucket(env, Uprooted(t, id), bucket[pos], origin))
  {
    var t1 := Uprooted(t, id);
    var k := TriedBucket(env, t.key, t.infos[id].service);
    bucket, pos :|
      && multiset(bucket) == multiset(t.triedBuckets[k]) && 0 <= pos < |bucket|
      && bucket[pos] in t.infos
      && t' == Exchanged(t1, id, k, bucket, pos, ReturnBucket(env, t1, bucket[pos], origin));
  }

  lemma EmptiedHolders(buckets: seq<set<int>>, id: int)
    ensures Holders(Emptied(buckets, id), id) == {}
    ensures forall k :: k != id ==> Holders(Emptied(buckets, id), k) == Holders(buckets, k)
  {
    forall k | k != id ensures Holders(Emptied(buckets, id), k) == Holders(buckets, k) {
      forall b ensures b in Holders(Emptied(buckets, id), k) <==> b in Holders(buckets, k) {}
    }
  }

  lemma UprootedPlaces(infos: map<int, AddrInfo>, buckets: seq<set<int>>, id: int)
    requires NewPlaced(infos, buckets, -1) && id in infos && -1 !in infos
    ensures NewPlaced(infos - {id}, Emptied(buckets, id), -1)
    ensures Holders(Emptied(buckets, id), id) == {}
  {
    EmptiedHolders(buckets, id);
    forall b | 0 <= b < |buckets| ensures |Emptied(buckets, id)[b]| <= NEW_BUCKET_SIZE {
      SubsetSize(buckets[b] - {id}, buckets[b]);
    }
  }

  lemma SettledPlaces(infos: map<int, AddrInfo>, buckets: seq<set<int>>, id: int, info: AddrInfo)
    requires NewPlaced(infos - {id}, buckets, -1) && id in infos && -1 !in infos
    requires Holders(buckets, id) == {} && info.refCount == 0 && info.inTried
    ensures NewPlaced(infos[id := info], buckets, -1)
  {
    var infos' := infos[id := info];
    assert infos' - {id} == infos - {id};
    forall b, k | 0 <= b < |buckets| && k in buckets[b] ensures k in infos' {
      assert k in infos - {id};
    }
    forall k | k in infos'
      ensures infos'[k].refCount == |Holders(buckets, k)| <= NEW_BUCKETS_PER_ADDRESS
      ensures infos'[k].inTried <==> infos'[k].refCount == 0
    {
      if k != id { assert k in infos - {id}; }
    }
  }

  lemma SettledTried(env: Env, key: Bytes, infos: map<int, AddrInfo>, buckets: seq<seq<int>>, id: int, info: AddrInfo)
    requires TriedPlaced(env, key, infos, buckets) && id in infos && !infos[id].inTried
    requires info.inTried
    requires |buckets[TriedBucket(env, key, info.service)]| < TRIED_BUCKET_SIZE
    ensures var k := TriedBucket(env, key, info.service);
      TriedPlaced(env, key, infos[id := info], buckets[k := buckets[k] + [id]])
  {
    var k := TriedBucket(env, key, info.service);
    assert id !in buckets[k];
  }

  lemma SettledCounts(infos: map<int, AddrInfo>, id: int, info: AddrInfo, newCount: int, triedCount: int)
    requires Counted(infos, newCount, triedCount) && id in infos && !infos[id].inTried && info.inTried
    ensures Counted(infos[id := info], newCount - 1, triedCount + 1)
  {
    assert NewIds(infos[id := info]) == NewIds(infos) - {id};
    assert TriedIds(infos[id := info]) == TriedIds(infos) + {id};
  }

  lemma SettledKeeps(env: Env, t: Tables, id: int)
    requires Structured(env, t) && id in t.infos && !t.infos[id].inTried
    requires |t.triedBuckets[TriedBucket(env, t.key, t.infos[id].service)]| < TRIED_BUCKET_SIZE
    ensures Structured(env, Settled(Uprooted(t, id), id, TriedBucket(env, t.key, t.infos[id].service)))
  {
    var info := t.infos[id].(refCount := 0, inTried := true);
    var k := TriedBucket(env, t.key, t.infos[id].service);
    var t' := Settled(Uprooted(t, id), id, k);
    assert t'.infos == t.infos[id := info];
    RewrittenIndexes(t.infos, t.idCount, t.idByAddr, t.order, id, info);
    UprootedPlaces(t.infos, t.newBuckets, id);
    SettledPlaces(t.infos, Emptied(t.newBuckets, id), id, info);
    SettledTried(env, t.key, t.infos, t.triedBuckets, id, info);
    SettledCounts(t.infos, id, info, t.newCount, t.triedCount);
  }

  lemma {:induction false} PermutationFacts(a: seq<int>, b: seq<int>)
    requires multiset(a) == multiset(b)
    ensures |a| == |b|
    ensures forall x :: x in a <==> x in b
    ensures Distinct(a) ==> Distinct(b)
  {
    assert |a| == |multiset(a)| == |multiset(b)| == |b|;
    forall x ensures x in a <==> x in b {
      assert x in a <==> x in multiset(a);
      assert x in b <==> x in multiset(b);
    }
    if Distinct(a) && !Distinct(b) {
      var i, j :| 0 <= i < j < |b| && b[i] == b[j];
      assert b == b[..j] + b[j..] && b[i] == b[..j][i] && b[j] == b[j..][0];
      assert multiset(b[..j])[b[i]] >= 1 && multiset(b[j..])[b[i]] >= 1;
      assert multiset(b)[b[i]] >= 2;
      DistinctOnce(a, b[i]);
      assert false;
    }
  }

  lemma {:induction false} DistinctOnce(a: seq<int>, x: int)
    requires Distinct(a)
    ensures multiset(a)[x] <= 1
  {
    if a != [] {
      var rest := a[..|a| - 1];
      assert a == rest + [a[|a| - 1]];
      DistinctOnce(rest, x);
      if x == a[|a| - 1] { assert x !in rest; assert multiset(rest)[x] == 0; }
    }
  }

  lemma ExchangedPlaces(infos: map<int, AddrInfo>, buckets: seq<set<int>>, id: int, info: AddrInfo,
                        ev: int, evInfo: AddrInfo, dest: int)
    requires NewPlaced(infos - {id}, buckets, -1) && id in infos && ev in infos && id != ev && -1 !in infos
    requires Holders(buckets, id) == {} && info.refCount == 0 && info.inTried
    requires infos[ev].inTried && !evInfo.inTried && evInfo.refCount == 1
    requires 0 <= dest < |buckets| && |buckets[dest]| < NEW_BUCKET_SIZE
    ensures NewPlaced(infos[ev := evInfo][id := info], buckets[dest := buckets[dest] + {ev}], -1)
  {
    var infos' := infos[ev := evInfo][id := info];
    var buckets' := buckets[dest := buckets[dest] + {ev}];
    assert ev in infos - {id} && Holders(buckets, ev) == {};
    assert ev !in buckets[dest] by { assert dest !in Holders(buckets, ev); }
    HoldersAfterInsert(buckets, dest, ev);
    forall b, k | 0 <= b < |buckets'| && k in buckets'[b] ensures k in infos' {
      if k != ev { assert k in buckets[b]; assert k in infos - {id}; }
    }
    forall k | k in infos'
      ensures infos'[k].refCount == |Holders(buckets', k)| <= NEW_BUCKETS_PER_ADDRESS
      ensures infos'[k].inTried <==> infos'[k].refCount == 0
    {
      if k != id && k != ev { assert k in infos - {id}; }
    }
  }

  lemma ExchangedTried(env: Env, key: Bytes, infos: map<int, AddrInfo>, buckets: seq<seq<int>>, id: int, info: AddrInfo,
                       ev: int, evInfo: AddrInfo, bucket: seq<int>, pos: int)
    requires TriedPlaced(env, key, infos, buckets) && id in infos && !infos[id].inTried
    requires info.inTried && !evInfo.inTried
    requires multiset(bucket) == multiset(buckets[TriedBucket(env, key, info.service)])
    requires 0 <= pos < |bucket| && bucket[pos] == ev
    ensures ev in infos && infos[ev].inTried && id != ev
    ensures TriedPlaced(env, key, infos[ev := evInfo][id := info],
                        buckets[TriedBucket(env, key, info.service) := bucket[pos := id]])
  {
    var k := TriedBucket(env, key, info.service);
    PermutationFacts(buckets[k], bucket);
    assert ev in buckets[k] && id !in buckets[k];
    var buckets' := buckets[k := bucket[pos := id]];
    var infos' := infos[ev := evInfo][id := info];
    ReplacedMembers(bucket, pos, id);
    forall b, i | 0 <= b < |buckets'| && i in buckets'[b]
      ensures i in infos' && infos'[i].inTried && TriedBucket(env, key, infos'[i].service) == b
    {
      if b == k && i != id { assert i in buckets[k] && i != ev; }
      else if b != k {
        assert i in buckets[b] && TriedBucket(env, key, infos[i].service) == b;
        assert TriedBucket(env, key, infos[ev].service) == k;
      }
    }
    forall i | i in infos' && infos'[i].inTried
      ensures i in buckets'[TriedBucket(env, key, infos'[i].service)]
    {
      if i != id { assert i in buckets[TriedBucket(env, key, infos[i].service)]; }
    }
  }

  lemma ReplacedMembers(s: seq<int>, pos: int, id: int)
    requires 0 <= pos < |s| && Distinct(s) && id !in s
    ensures forall x :: x in s[pos := id] <==> x == id || (x in s && x != s[pos])
    ensures Distinct(s[pos := id])
  {
    var s' := s[pos := id];
    assert s'[pos] == id;
    forall x | x in s && x != s[pos] ensures x in s' {
      var j :| 0 <= j < |s| && s[j] == x;
      assert s'[j] == x;
    }
  }

  lemma ExchangedCounts(infos: map<int, AddrInfo>, id: int, info: AddrInfo, ev: int, evInfo: AddrInfo, newCount: int,
                        triedCount: int)
    requires Counted(infos, newCount, triedCount) && id in infos && ev in infos
    requires !infos[id].inTried && info.inTried && infos[ev].inTried && !evInfo.inTried
    ensures Counted(infos[ev := evInfo][id := info], newCount, triedCount)
  {
    UnsettledCounts(infos, ev, evInfo, newCount, triedCount);
    SettledCounts(infos[ev := evInfo], id, info, newCount + 1, triedCount - 1);
  }

  lemma UnsettledCounts(infos: map<int, AddrInfo>, ev: int, evInfo: AddrInfo, newCount: int, triedCount: int)
    requires Counted(infos, newCount, triedCount) && ev in infos && infos[ev].inTried && !evInfo.inTried
    ensures Counted(infos[ev := evInfo], newCount + 1, triedCount - 1)
  {
    assert NewIds(infos[ev := evInfo]) == NewIds(infos) + {ev};
    assert TriedIds(infos[ev := evInfo]) == TriedIds(infos) - {ev};
  }

  lemma ExchangedKeeps(env: Env, t: Tables, id: int, bucket: seq<int>, pos: int, dest: int)
    requires Structured(env, t) && id in t.infos && !t.infos[id].inTried
    requires multiset(bucket) == multiset(t.triedBuckets[TriedBucket(env, t.key, t.infos[id].service)])
    requires 0 <= pos < |bucket| && bucket[pos] in t.infos
    requires 0 <= dest < |t.newBuckets| && |Emptied(t.newBuckets, id)[dest]| < NEW_BUCKET_SIZE
    ensures var k := TriedBucket(env, t.key, t.infos[id].service);
      Structured(env, Exchanged(Uprooted(t, id), id, k, bucket, pos, dest))
  {
    var ev := bucket[pos];
    var info := t.infos[id].(refCount := 0, inTried := true);
    var evInfo := t.infos[ev].(inTried := false, refCount := 1);
    var k := TriedBucket(env, t.key, t.infos[id].service);
    var t' := Exchanged(Uprooted(t, id), id, k, bucket, pos, dest);
    ExchangedTried(env, t.key, t.infos, t.triedBuckets, id, info, ev, evInfo, bucket, pos);
    var infos' := t.infos[ev := evInfo][id := info];
    assert t'.infos == infos';
    RewrittenIndexes(t.infos, t.idCount, t.idByAddr, t.order, ev, evInfo);
    RewrittenIndexes(t.infos[ev := evInfo], t.idCount, t.idByAddr, t.order, id, info);
    UprootedPlaces(t.infos, t.newBuckets, id);
    ExchangedPlaces(t.infos, Emptied(t.newBuckets, id), id, info, ev, evInfo, dest);
    ExchangedCounts(t.infos, id, info, ev, evInfo, t.newCount, t.triedCount);
  }

  /** There is always room where the evicted entry returns to. */
  lemma ReturnBucketHasRoom(env: Env, t: Tables, id: int, ev: int, origin: int)
    requires Structured(env, t) && id in t.infos && ev in t.infos
    requires 0 <= origin < |t.newBuckets| && id in t.newBuckets[origin]
    ensures |Emptied(t.newBuckets, id)[ReturnBucket(env, Uprooted(t, id), ev, origin)]| < NEW_BUCKET_SIZE
  {
    assert |t.newBuckets[origin]| <= NEW_BUCKET_SIZE;
  }

  lemma MakeTriedKeeps(env: Env, t: Tables, id: int, origin: int, t': Tables)
    requires Structured(env, t) && id in t.infos && !t.infos[id].inTried
    requires 0 <= origin < |t.newBuckets| && id in t.newBuckets[origin]
    requires MakeTriedStep(env, t, id, origin, t')
    ensures Structured(env, t')
  {
    if |t.triedBuckets[TriedBucket(env, t.key, t.infos[id].service)]| < TRIED_BUCKET_SIZE {
      SettledKeeps(env, t, id);
    } else {
      var bucket, pos := ExchangeOf(env, t, id, origin, t');
      ReturnBucketHasRoom(env, t, id, bucket[pos], origin);
      ExchangedKeeps(env, t, id, bucket, pos, ReturnBucket(env, Uprooted(t, id), bucket[pos], origin));
    }
  }

  /** A successful connection is recorded. */
  function Succeeded(info: AddrInfo, time: int): AddrInfo {
    info.(lastSuccess := time, lastTry := time, time := ToU32(time), attempts := 0)
  }

  /** The entry whose address and port are those of the service, if there is one. */
  ghost predicate Knows(t: Tables, service: Service) {
    && service.ip in t.idByAddr
    && t.idByAddr[service.ip] in t.infos
    && t.infos[t.idByAddr[service.ip]].service == service
  }

  ghost predicate GoodStep(env: Env, t: Tables, service: Service, time: int, t': Tables)
    requires Structured(env, t)
  {
    if !Knows(t, service) then t' == t
    else
      var id := t.idByAddr[service.ip];
      var t1 := Restated(t, id, Succeeded(t.infos[id], time));
      if t.infos[id].inTried then t' == t1
      else exists origin ::
        0 <= origin < |t.newBuckets| && id in t.newBuckets[origin] && MakeTriedStep(env, t1, id, origin, t')
  }

  lemma GoodKeeps(env: Env, t: Tables, service: Service, time: int, t': Tables)
    requires Structured(env, t) && GoodStep(env, t, service, time, t')
    ensures Structured(env, t')
  {
    if Knows(t, service) {
      var id := t.idByAddr[service.ip];
      var t1 := Restated(t, id, Succeeded(t.infos[id], time));
      RestatedKeeps(env, t, id, Succeeded(t.infos[id], time));
      if !t.infos[id].inTried {
        var origin :| 0 <= origin < |t.newBuckets| && id in t.newBuckets[origin] &&
          MakeTriedStep(env, t1, id, origin, t');
        MakeTriedKeeps(env, t1, id, origin, t');
      }
    }
  }
}
