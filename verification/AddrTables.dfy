/** The address manager's tables as a value, the consistency that src/addrman.cpp:435-491
    (Check_) describes, and the steps its operations are made of. */
module AddrTables {
  import opened AddrTypes
  import opened FiniteSets

  datatype Tables = Tables(
    key: Bytes,
    idCount: int,
    infos: map<int, AddrInfo>,
    idByAddr: map<NetAddr, int>,
    order: seq<int>,
    triedCount: int,
    triedBuckets: seq<seq<int>>,
    newCount: int,
    newBuckets: seq<set<int>>)

  /** The constructor's tables. */
  function EmptyTables(key: Bytes): Tables {
    Tables(key, 0, map[], map[], [],
           0, seq(TRIED_BUCKET_COUNT, _ => []), 0, seq(NEW_BUCKET_COUNT, _ => {}))
  }

  // ----- consistency -----

  ghost function NewIds(infos: map<int, AddrInfo>): set<int> {
    set id | id in infos && !infos[id].inTried
  }

  ghost function TriedIds(infos: map<int, AddrInfo>): set<int> {
    set id | id in infos && infos[id].inTried
  }

  /** The new buckets that hold id. */
  ghost function Holders(buckets: seq<set<int>>, id: int): set<int> {
    set b | 0 <= b < |buckets| && id in buckets[b]
  }

  ghost predicate Stamped(infos: map<int, AddrInfo>, idCount: int) {
    forall id :: id in infos ==> 0 <= id < idCount
  }

  /** idByAddr inverts infos. */
  ghost predicate Indexed(infos: map<int, AddrInfo>, idByAddr: map<NetAddr, int>) {
    && (forall id :: id in infos ==>
          infos[id].service.ip in idByAddr && idByAddr[infos[id].service.ip] == id)
    && (forall a :: a in idByAddr ==>
          idByAddr[a] in infos && infos[idByAddr[a]].service.ip == a)
  }

  /** randomPos inverts order. */
  ghost predicate Ordered(infos: map<int, AddrInfo>, order: seq<int>) {
    && (forall id :: id in infos ==>
          0 <= infos[id].randomPos < |order| && order[infos[id].randomPos] == id)
    && (forall p :: 0 <= p < |order| ==>
          order[p] in infos && infos[order[p]].randomPos == p)
  }

  /** The counters count. An entry that is being added is already counted. */
  ghost predicate Counted(infos: map<int, AddrInfo>, newCount: int, triedCount: int) {
    newCount == |NewIds(infos)| && triedCount == |TriedIds(infos)|
  }

  /** Reference counts are the numbers of buckets that hold the entry; `pending` has been given
      its reference to a bucket but is not in it yet (-1: there is no such entry). */
  ghost predicate NewPlaced(infos: map<int, AddrInfo>, buckets: seq<set<int>>, pending: int) {
    && |buckets| == NEW_BUCKET_COUNT
    && (forall b :: 0 <= b < |buckets| ==> |buckets[b]| <= NEW_BUCKET_SIZE)
    && (forall b, id :: 0 <= b < |buckets| && id in buckets[b] ==> id in infos)
    && (forall id :: id in infos ==>
          && infos[id].refCount == |Holders(buckets, id)| + (if id == pending then 1 else 0)
          && infos[id].refCount <= NEW_BUCKETS_PER_ADDRESS
          && (infos[id].inTried <==> infos[id].refCount == 0))
  }

  /** Every tried entry sits exactly once in its own bucket, and the buckets hold nothing else. */
  ghost predicate TriedPlaced(env: Env, key: Bytes, infos: map<int, AddrInfo>, buckets: seq<seq<int>>) {
    && |buckets| == TRIED_BUCKET_COUNT
    && (forall b :: 0 <= b < |buckets| ==> |buckets[b]| <= TRIED_BUCKET_SIZE && Distinct(buckets[b]))
    && (forall b, id :: 0 <= b < |buckets| && id in buckets[b] ==>
          id in infos && infos[id].inTried && TriedBucket(env, key, infos[id].service) == b)
    && (forall id :: id in infos && infos[id].inTried ==> id in buckets[TriedBucket(env, key, infos[id].service)])
  }

  /** Times of attempts and successes are not negative, and a tried entry has succeeded. */
  ghost predicate Dated(infos: map<int, AddrInfo>) {
    forall id :: id in infos ==>
      infos[id].lastTry >= 0 && infos[id].lastSuccess >= 0 && (infos[id].inTried ==> infos[id].lastSuccess != 0)
  }

  /** Ids, positions, counts and buckets agree. */
  ghost predicate StructuredBut(env: Env, t: Tables, pending: int) {
    && Stamped(t.infos, t.idCount)
    && Indexed(t.infos, t.idByAddr)
    && Ordered(t.infos, t.order)
    && Counted(t.infos, t.newCount, t.triedCount)
    && NewPlaced(t.infos, t.newBuckets, pending)
    && TriedPlaced(env, t.key, t.infos, t.triedBuckets)
  }

  ghost predicate Structured(env: Env, t: Tables) {
    t.idCount >= 0 && StructuredBut(env, t, -1)
  }

  ghost predicate Consistent(env: Env, t: Tables) {
    Structured(env, t) && Dated(t.infos)
  }

  lemma EmptyIsConsistent(env: Env, key: Bytes)
    ensures Consistent(env, EmptyTables(key))
  {
    assert NewIds(EmptyTables(key).infos) == {} && TriedIds(EmptyTables(key).infos) == {};
  }

  // ----- steps -----

  ghost predicate SameButPosition(info: AddrInfo, info': AddrInfo) {
    && info'.service == info.service && info'.services == info.services && info'.time == info.time
    && info'.lastTry == info.lastTry && info'.source == info.source && info'.lastSuccess == info.lastSuccess
    && info'.attempts == info.attempts && info'.refCount == info.refCount && info'.inTried == info.inTried
  }

  /** Two tables of records that differ in positions only. */
  ghost predicate SameButPositions(infos: map<int, AddrInfo>, infos': map<int, AddrInfo>) {
    && (forall id :: id in infos <==> id in infos')
    && (forall id :: id in infos ==> SameButPosition(infos[id], infos'[id]))
  }

  /** Create, together with the counting and the reference its only caller gives the entry. */
  function Created(t: Tables, addr: Address, source: NetAddr, time: int): Tables
  {
    var info := FreshInfo(addr, source).(time := time, randomPos := |t.order|, refCount := 1);
    t.(idCount := t.idCount + 1,
       infos := t.infos[t.idCount := info],
       idByAddr := t.idByAddr[addr.service.ip := t.idCount],
       order := t.order + [t.idCount],
       newCount := t.newCount + 1)
  }

  function Swapped(t: Tables, i: int, j: int): Tables
    requires 0 <= i < |t.order| && 0 <= j < |t.order|
    requires t.order[i] in t.infos && t.order[j] in t.infos
  {
    if i == j then t else
    var a, b := t.order[i], t.order[j];
    var infos1 := t.infos[a := t.infos[a].(randomPos := j)];
    t.(infos := infos1[b := infos1[b].(randomPos := i)], order := t.order[i := b][j := a])
  }

  /** Deletes an entry from everything but its bucket. */
  function Forgotten(t: Tables, id: int): Tables
    requires Ordered(t.infos, t.order) && id in t.infos
  {
    var t1 := Swapped(t, t.infos[id].randomPos, |t.order| - 1);
    t1.(order := t1.order[..|t1.order| - 1],
        idByAddr := t1.idByAddr - {t1.infos[id].service.ip},
        infos := t1.infos - {id},
        newCount := t1.newCount - 1)
  }

  /** Takes id out of new bucket b, forgetting it when that was its last one. */
  function Unreferenced(t: Tables, b: int, id: int): Tables
    requires Ordered(t.infos, t.order) && id in t.infos && 0 <= b < |t.newBuckets|
  {
    var info := t.infos[id].(refCount := t.infos[id].refCount - 1);
    var t1 := t.(infos := t.infos[id := info]);
    var t2 := if info.refCount == 0 then Forgotten(t1, id) else t1;
    t2.(newBuckets := t2.newBuckets[b := t2.newBuckets[b] - {id}])
  }

  function Inserted(t: Tables, b: int, id: int): Tables
    requires 0 <= b < |t.newBuckets|
  {
    t.(newBuckets := t.newBuckets[b := t.newBuckets[b] + {id}])
  }

  /** Replaces the statistics of one entry. */
  function Restated(t: Tables, id: int, info: AddrInfo): Tables {
    t.(infos := t.infos[id := info])
  }

  lemma CreatedIndexes(t: Tables, addr: Address, source: NetAddr, time: int)
    requires Stamped(t.infos, t.idCount) && Indexed(t.infos, t.idByAddr) && Ordered(t.infos, t.order)
    requires addr.service.ip !in t.idByAddr
    ensures Indexed(Created(t, addr, source, time).infos, Created(t, addr, source, time).idByAddr)
    ensures Ordered(Created(t, addr, source, time).infos, Created(t, addr, source, time).order)
  {
  }

  lemma CreatedCounts(t: Tables, addr: Address, source: NetAddr, time: int)
    requires Stamped(t.infos, t.idCount) && Counted(t.infos, t.newCount, t.triedCount)
    ensures Counted(Created(t, addr, source, time).infos, t.newCount + 1, t.triedCount)
  {
    var infos := Created(t, addr, source, time).infos;
    assert t.idCount !in t.infos;
    forall k ensures k in NewIds(infos) <==> k in NewIds(t.infos) + {t.idCount} { }
    assert NewIds(infos) == NewIds(t.infos) + {t.idCount};
    forall k ensures k in TriedIds(infos) <==> k in TriedIds(t.infos) { }
    assert TriedIds(infos) == TriedIds(t.infos);
  }

  lemma CreatedPlaces(infos: map<int, AddrInfo>, buckets: seq<set<int>>, id: int, info: AddrInfo)
    requires NewPlaced(infos, buckets, -1) && -1 !in infos && id !in infos
    requires info.refCount == 1 && !info.inTried
    ensures NewPlaced(infos[id := info], buckets, id)
    ensures Holders(buckets, id) == {}
  {
    assert Holders(buckets, id) == {};
  }

  lemma CreatedKeeps(env: Env, t: Tables, addr: Address, source: NetAddr, time: int)
    requires Structured(env, t) && addr.service.ip !in t.idByAddr
    ensures StructuredBut(env, Created(t, addr, source, time), t.idCount)
    ensures Holders(t.newBuckets, t.idCount) == {}
  {
    CreatedIndexes(t, addr, source, time);
    CreatedCounts(t, addr, source, time);
    CreatedPlaces(t.infos, t.newBuckets, t.idCount, Created(t, addr, source, time).infos[t.idCount]);
  }

  lemma SwappedKeeps(t: Tables, i: int, j: int)
    requires Ordered(t.infos, t.order) && 0 <= i < |t.order| && 0 <= j < |t.order|
    ensures Ordered(Swapped(t, i, j).infos, Swapped(t, i, j).order)
    ensures SameButPositions(t.infos, Swapped(t, i, j).infos)
    ensures |Swapped(t, i, j).order| == |t.order|
    ensures Swapped(t, i, j).order[j] == t.order[i]
  {
    if i != j {
      var t' := Swapped(t, i, j);
      var a, b := t.order[i], t.order[j];
      assert a != b;
      forall id | id in t'.infos
        ensures 0 <= t'.infos[id].randomPos < |t'.order| && t'.order[t'.infos[id].randomPos] == id
      {
        assert 0 <= t.infos[id].randomPos < |t.order| && t.order[t.infos[id].randomPos] == id;
      }
      forall p | 0 <= p < |t'.order|
        ensures t'.order[p] in t'.infos && t'.infos[t'.order[p]].randomPos == p
      {
        assert t.order[p] in t.infos && t.infos[t.order[p]].randomPos == p;
      }
    }
  }

  lemma OrderedWithoutLast(infos: map<int, AddrInfo>, order: seq<int>)
    requires Ordered(infos, order) && |order| > 0
    ensures Ordered(infos - {order[|order| - 1]}, order[..|order| - 1])
  {
  }

  lemma IndexedWithout(infos: map<int, AddrInfo>, idByAddr: map<NetAddr, int>, id: int)
    requires Indexed(infos, idByAddr) && id in infos
    ensures Indexed(infos - {id}, idByAddr - {infos[id].service.ip})
  {
  }

  lemma IndexedAlike(infos: map<int, AddrInfo>, infos': map<int, AddrInfo>, idByAddr: map<NetAddr, int>)
    requires Indexed(infos, idByAddr) && SameButPositions(infos, infos')
    ensures Indexed(infos', idByAddr)
  {
    forall a | a in idByAddr
      ensures idByAddr[a] in infos' && infos'[idByAddr[a]].service.ip == a
    {
      var id := idByAddr[a];
      assert id in infos && SameButPosition(infos[id], infos'[id]);
    }
  }

  lemma AlikeWithout(infos: map<int, AddrInfo>, infos': map<int, AddrInfo>, id: int)
    requires SameButPositions(infos, infos')
    ensures SameButPositions(infos - {id}, infos' - {id})
  {
  }

  lemma ForgottenAfterSwap(t: Tables, id: int)
    requires Ordered(t.infos, t.order) && id in t.infos
    ensures var last := |t.order| - 1; var t1 := Swapped(t, t.infos[id].randomPos, last);
      && Ordered(t1.infos, t1.order) && SameButPositions(t.infos, t1.infos)
      && |t1.order| == last + 1 && t1.order[last] == id && id in t1.infos
      && t1.idByAddr == t.idByAddr
      && Forgotten(t, id).infos == t1.infos - {id}
      && Forgotten(t, id).order == t1.order[..last]
      && Forgotten(t, id).idByAddr == t.idByAddr - {t.infos[id].service.ip}
  {
    SwappedKeeps(t, t.infos[id].randomPos, |t.order| - 1);
  }

  lemma ForgottenKeeps(t: Tables, id: int)
    requires Ordered(t.infos, t.order) && Indexed(t.infos, t.idByAddr)
    requires id in t.infos
    ensures Ordered(Forgotten(t, id).infos, Forgotten(t, id).order)
    ensures Indexed(Forgotten(t, id).infos, Forgotten(t, id).idByAddr)
    ensures SameButPositions(t.infos - {id}, Forgotten(t, id).infos)
  {
    ForgottenAfterSwap(t, id);
    var t1 := Swapped(t, t.infos[id].randomPos, |t.order| - 1);
    OrderedWithoutLast(t1.infos, t1.order);
    IndexedAlike(t.infos, t1.infos, t.idByAddr);
    IndexedWithout(t1.infos, t1.idByAddr, id);
    AlikeWithout(t.infos, t1.infos, id);
  }

  lemma SameKinds(infos: map<int, AddrInfo>, infos': map<int, AddrInfo>)
    requires SameButPositions(infos, infos')
    ensures NewIds(infos') == NewIds(infos) && TriedIds(infos') == TriedIds(infos)
  {
    forall id ensures id in NewIds(infos') <==> id in NewIds(infos) {}
    forall id ensures id in TriedIds(infos') <==> id in TriedIds(infos) {}
  }

  lemma CountedWithout(infos: map<int, AddrInfo>, id: int, newCount: int, triedCount: int)
    requires Counted(infos, newCount, triedCount) && id in infos && !infos[id].inTried
    ensures Counted(infos - {id}, newCount - 1, triedCount)
  {
    assert NewIds(infos - {id}) == NewIds(infos) - {id};
    assert TriedIds(infos - {id}) == TriedIds(infos);
  }

  /** Removing one member from a bucket changes the holders of that member alone. */
  lemma HoldersAfterRemove(buckets: seq<set<int>>, b: int, id: int)
    requires 0 <= b < |buckets| && id in buckets[b]
    ensures |Holders(buckets[b := buckets[b] - {id}], id)| == |Holders(buckets, id)| - 1
    ensures forall k :: k != id ==> Holders(buckets[b := buckets[b] - {id}], k) == Holders(buckets, k)
  {
    assert Holders(buckets[b := buckets[b] - {id}], id) == Holders(buckets, id) - {b};
  }

  lemma HoldersAfterInsert(buckets: seq<set<int>>, b: int, id: int)
    requires 0 <= b < |buckets| && id !in buckets[b]
    ensures |Holders(buckets[b := buckets[b] + {id}], id)| == |Holders(buckets, id)| + 1
    ensures forall k :: k != id ==> Holders(buckets[b := buckets[b] + {id}], k) == Holders(buckets, k)
  {
    assert Holders(buckets[b := buckets[b] + {id}], id) == Holders(buckets, id) + {b};
  }

  lemma NewPlacedAlike(infos: map<int, AddrInfo>, infos': map<int, AddrInfo>, buckets: seq<set<int>>, pending: int)
    requires NewPlaced(infos, buckets, pending) && SameButPositions(infos, infos')
    ensures NewPlaced(infos', buckets, pending)
  {
  }

  lemma TriedPlacedAlike(env: Env, key: Bytes, infos: map<int, AddrInfo>, infos': map<int, AddrInfo>,
                         buckets: seq<seq<int>>)
    requires TriedPlaced(env, key, infos, buckets) && SameButPositions(infos, infos')
    ensures TriedPlaced(env, key, infos', buckets)
  {
  }

  lemma TriedPlacedWithout(env: Env, key: Bytes, infos: map<int, AddrInfo>, id: int, buckets: seq<seq<int>>)
    requires TriedPlaced(env, key, infos, buckets) && id in infos && !infos[id].inTried
    ensures TriedPlaced(env, key, infos - {id}, buckets)
  {
  }

  /** One reference less, in the record and in the bucket. */
  lemma NewPlacedUnreferenced(infos: map<int, AddrInfo>, buckets: seq<set<int>>, b: int, id: int, pending: int)
    requires NewPlaced(infos, buckets, pending)
    requires 0 <= b < |buckets| && id in buckets[b] && id != pending
    ensures infos[id].refCount > 0
    ensures infos[id].refCount > 1 ==>
      NewPlaced(infos[id := infos[id].(refCount := infos[id].refCount - 1)], buckets[b := buckets[b] - {id}], pending)
    ensures infos[id].refCount == 1 ==> NewPlaced(infos - {id}, buckets[b := buckets[b] - {id}], pending)
  {
    HoldersAfterRemove(buckets, b, id);
    assert b in Holders(buckets, id);
    var buckets' := buckets[b := buckets[b] - {id}];
    if infos[id].refCount == 1 {
      assert Holders(buckets', id) == {};
      forall c | 0 <= c < |buckets'| ensures id !in buckets'[c] {
        assert c !in Holders(buckets', id);
      }
    }
  }

  function Recounted(infos: map<int, AddrInfo>, id: int, n: int): map<int, AddrInfo>
    requires id in infos
  {
    infos[id := infos[id].(refCount := n)]
  }

  lemma RecountedKeeps(infos: map<int, AddrInfo>, idByAddr: map<NetAddr, int>, order: seq<int>, id: int, n: int)
    requires Indexed(infos, idByAddr) && Ordered(infos, order) && id in infos
    ensures Indexed(Recounted(infos, id, n), idByAddr) && Ordered(Recounted(infos, id, n), order)
    ensures NewIds(Recounted(infos, id, n)) == NewIds(infos)
    ensures TriedIds(Recounted(infos, id, n)) == TriedIds(infos)
  {
    var infos' := Recounted(infos, id, n);
    forall k ensures k in NewIds(infos') <==> k in NewIds(infos) {}
    forall k ensures k in TriedIds(infos') <==> k in TriedIds(infos) {}
  }

  lemma RecountedTried(env: Env, key: Bytes, infos: map<int, AddrInfo>, buckets: seq<seq<int>>, id: int, n: int)
    requires TriedPlaced(env, key, infos, buckets) && id in infos
    ensures TriedPlaced(env, key, Recounted(infos, id, n), buckets)
  {
  }

  lemma UnreferencedLast(env: Env, t: Tables, b: int, id: int, pending: int)
    requires StructuredBut(env, t, pending) && id in t.infos && t.infos[id].refCount == 1
    requires 0 <= b < |t.newBuckets| && id in t.newBuckets[b] && id != pending
    ensures StructuredBut(env, Unreferenced(t, b, id), pending)
  {
    var t1 := t.(infos := Recounted(t.infos, id, 0));
    var t' := Unreferenced(t, b, id);
    RecountedKeeps(t.infos, t.idByAddr, t.order, id, 0);
    ForgottenKeeps(t1, id);
    assert t1.infos - {id} == t.infos - {id};
    assert SameButPositions(t.infos - {id}, t'.infos);
    assert Counted(t'.infos, t'.newCount, t'.triedCount) by {
      SameKinds(t.infos - {id}, t'.infos);
      CountedWithout(t.infos, id, t.newCount, t.triedCount);
    }
    assert NewPlaced(t'.infos, t'.newBuckets, pending) by {
      NewPlacedUnreferenced(t.infos, t.newBuckets, b, id, pending);
      NewPlacedAlike(t.infos - {id}, t'.infos, t'.newBuckets, pending);
    }
    assert TriedPlaced(env, t'.key, t'.infos, t'.triedBuckets) by {
      TriedPlacedWithout(env, t.key, t.infos, id, t.triedBuckets);
      TriedPlacedAlike(env, t.key, t.infos - {id}, t'.infos, t.triedBuckets);
    }
  }

  lemma UnreferencedKeeps(env: Env, t: Tables, b: int, id: int, pending: int)
    requires StructuredBut(env, t, pending)
    requires 0 <= b < |t.newBuckets| && id in t.newBuckets[b] && id != pending
    ensures id in t.infos && StructuredBut(env, Unreferenced(t, b, id), pending)
  {
    NewPlacedUnreferenced(t.infos, t.newBuckets, b, id, pending);
    if t.infos[id].refCount == 1 {
      UnreferencedLast(env, t, b, id, pending);
    } else {
      var n := t.infos[id].refCount - 1;
      RecountedKeeps(t.infos, t.idByAddr, t.order, id, n);
      RecountedTried(env, t.key, t.infos, t.triedBuckets, id, n);
      assert Unreferenced(t, b, id) ==
        t.(infos := Recounted(t.infos, id, n), newBuckets := t.newBuckets[b := t.newBuckets[b] - {id}]);
    }
  }

  lemma InsertedKeeps(env: Env, t: Tables, b: int, id: int)
    requires StructuredBut(env, t, id) && id in t.infos && t.idCount >= 0
    requires 0 <= b < |t.newBuckets| && id !in t.newBuckets[b] && |t.newBuckets[b]| < NEW_BUCKET_SIZE
    ensures Structured(env, Inserted(t, b, id))
  {
    HoldersAfterInsert(t.newBuckets, b, id);
  }

  /** A record that kept its address, its position and its place in the tables. */
  ghost predicate SamePlace(info: AddrInfo, info': AddrInfo) {
    && info'.service == info.service && info'.randomPos == info.randomPos
    && info'.refCount == info.refCount && info'.inTried == info.inTried
  }

  lemma NewPlacedRestated(infos: map<int, AddrInfo>, buckets: seq<set<int>>, id: int, info: AddrInfo)
    requires NewPlaced(infos, buckets, -1) && id in infos && SamePlace(infos[id], info)
    ensures NewPlaced(infos[id := info], buckets, -1)
  {
  }

  lemma TriedPlacedRestated(env: Env, key: Bytes, infos: map<int, AddrInfo>, buckets: seq<seq<int>>, id: int,
                            info: AddrInfo)
    requires TriedPlaced(env, key, infos, buckets) && id in infos && SamePlace(infos[id], info)
    ensures TriedPlaced(env, key, infos[id := info], buckets)
  {
  }

  /** Rewriting a record that keeps its address and position does not disturb the indexes. */
  lemma RewrittenIndexes(infos: map<int, AddrInfo>, idCount: int, idByAddr: map<NetAddr, int>, order: seq<int>,
                         id: int, info: AddrInfo)
    requires Stamped(infos, idCount) && Indexed(infos, idByAddr) && Ordered(infos, order)
    requires id in infos && info.service == infos[id].service && info.randomPos == infos[id].randomPos
    ensures Stamped(infos[id := info], idCount)
    ensures Indexed(infos[id := info], idByAddr)
    ensures Ordered(infos[id := info], order)
  {
  }

  lemma RewrittenKinds(infos: map<int, AddrInfo>, id: int, info: AddrInfo)
    requires id in infos && info.inTried == infos[id].inTried
    ensures NewIds(infos[id := info]) == NewIds(infos) && TriedIds(infos[id := info]) == TriedIds(infos)
  {
    forall k ensures k in NewIds(infos[id := info]) <==> k in NewIds(infos) {}
    forall k ensures k in TriedIds(infos[id := info]) <==> k in TriedIds(infos) {}
  }

  /** Statistics may change freely as long as the entry keeps its address and its place. */
  lemma RestatedKeeps(env: Env, t: Tables, id: int, info: AddrInfo)
    requires Structured(env, t) && id in t.infos && SamePlace(t.infos[id], info)
    ensures Structured(env, Restated(t, id, info))
  {
    RewrittenIndexes(t.infos, t.idCount, t.idByAddr, t.order, id, info);
    RewrittenKinds(t.infos, id, info);
    NewPlacedRestated(t.infos, t.newBuckets, id, info);
    TriedPlacedRestated(env, t.key, t.infos, t.triedBuckets, id, info);
  }
}
