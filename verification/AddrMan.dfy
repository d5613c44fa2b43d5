/** The address manager as the class of src/addrman.cpp: fields that its methods update in place.
    Every public operation is an instance of AddrRuns.Step, so whatever holds of all runs of
    that relation holds of the class. */
module AddrMan {
  import opened Arithmetic
  import opened AddrTypes
  import opened AddrTables
  import opened AddrSteps
  import opened AddrRuns
  import opened AddrSelect
  import opened Ascending
  import opened FiniteSets

  /** Any number in range may be drawn. */
  method GetRandInt(n: int) returns (r: int)
    requires n > 0
    ensures 0 <= r < n
  {
    r :| 0 <= r < n;
  }

  /** The n-th of the new buckets, counted from rnd. */
  function Slot(n: int, rnd: int): (b: int)
    ensures 0 <= b < NEW_BUCKET_COUNT
  {
    (n + rnd) % NEW_BUCKET_COUNT
  }

  lemma HolderExists(infos: map<int, AddrInfo>, buckets: seq<set<int>>, id: int, rnd: int)
    requires NewPlaced(infos, buckets, -1) && id in infos && !infos[id].inTried && id != -1
    ensures exists m :: 0 <= m < NEW_BUCKET_COUNT && id in buckets[Slot(m, rnd)]
  {
    var b := Member(Holders(buckets, id));
    var m := (b - rnd) % NEW_BUCKET_COUNT;
    assert Slot(m, rnd) == b;
  }

  lemma TriedMembersKnown(env: Env, key: Bytes, infos: map<int, AddrInfo>, bucket: seq<int>, buckets: seq<seq<int>>,
                          k: int)
    requires TriedPlaced(env, key, infos, buckets) && 0 <= k < |buckets| && bucket == buckets[k]
    ensures forall p :: 0 <= p < |bucket| ==> bucket[p] in infos
  {
    forall p | 0 <= p < |bucket| ensures bucket[p] in infos {
      var ev := bucket[p];
      assert ev in bucket;
    }
  }

  lemma ExchangeIsStep(env: Env, t: Tables, id: int, origin: int, bucket: seq<int>, pos: int, t': Tables)
    requires id in t.infos && 0 <= origin < |t.newBuckets| == NEW_BUCKET_COUNT && |t.triedBuckets| == TRIED_BUCKET_COUNT
    requires |t.triedBuckets[TriedBucket(env, t.key, t.infos[id].service)]| >= TRIED_BUCKET_SIZE
    requires multiset(bucket) == multiset(t.triedBuckets[TriedBucket(env, t.key, t.infos[id].service)])
    requires 0 <= pos < |bucket| && bucket[pos] in t.infos
    requires
      var t1 := Uprooted(t, id);
      var k := TriedBucket(env, t.key, t.infos[id].service);
      t' == Exchanged(t1, id, k, bucket, pos, ReturnBucket(env, t1, bucket[pos], origin))
    ensures MakeTriedStep(env, t, id, origin, t')
  {
  }

  lemma RefreshedMayTakeAnother(env: Env, t: Tables, id: int, addr: Address, penalty: int, now: int)
    requires Structured(env, t) && id in t.infos
    ensures var info := Refreshed(t.infos[id], addr, penalty, now);
      && SamePlace(t.infos[id], info) && 0 <= info.refCount <= NEW_BUCKETS_PER_ADDRESS
    ensures |t.newBuckets| == NEW_BUCKET_COUNT
  {
  }

  /** Seen earlier, or at the same time and known earlier. */
  ghost predicate IsOlder(infos: map<int, AddrInfo>, a: int, b: int) {
    a in infos && b in infos && (infos[a].time < infos[b].time || (infos[a].time == infos[b].time && a <= b))
  }

  class AddrMan {
    const env: Env
    var key: Bytes
    var idCount: int
    var infos: map<int, AddrInfo>
    var idByAddr: map<NetAddr, int>
    var order: seq<int>
    var triedCount: int
    var triedBuckets: seq<seq<int>>
    var newCount: int
    var newBuckets: seq<set<int>>

    ghost function View(): Tables
      reads this
    {
      Tables(key, idCount, infos, idByAddr, order, triedCount, triedBuckets, newCount, newBuckets)
    }

    ghost predicate Valid()
      reads this
    {
      Structured(env, View())
    }

    constructor (env: Env, key: Bytes)
      ensures this.env == env && View() == EmptyTables(key) && Valid()
    {
      this.env := env;
      this.key := key;
      idCount := 0;
      infos, idByAddr, order := map[], map[], [];
      triedCount, newCount := 0, 0;
      triedBuckets := seq(TRIED_BUCKET_COUNT, _ => []);
      newBuckets := seq(NEW_BUCKET_COUNT, _ => {});
      new;
      assert View() == EmptyTables(key);
      EmptyIsConsistent(env, key);
    }

    method Find(a: NetAddr) returns (found: bool, id: int)
      requires Indexed(infos, idByAddr)
      ensures found <==> a in idByAddr
      ensures found ==> id in infos && id == idByAddr[a] && infos[id].service.ip == a
      ensures !found ==> forall k :: k in infos ==> infos[k].service.ip != a
    {
      if a !in idByAddr { return false, 0; }
      id := idByAddr[a];
      found := id in infos;
    }

    method Create(addr: Address, source: NetAddr) returns (id: int)
      modifies this
      ensures id == old(idCount)
      ensures View() == old(View()).(idCount := id + 1,
        infos := old(infos)[id := FreshInfo(addr, source).(randomPos := |old(order)|)],
        idByAddr := old(idByAddr)[addr.service.ip := id],
        order := old(order) + [id])
    {
      id := idCount;
      idCount := idCount + 1;
      infos := infos[id := FreshInfo(addr, source)];
      idByAddr := idByAddr[addr.service.ip := id];
      infos := infos[id := infos[id].(randomPos := |order|)];
      order := order + [id];
    }

    method SwapRandom(i: int, j: int)
      requires 0 <= i < |order| && 0 <= j < |order| && order[i] in infos && order[j] in infos
      modifies this`infos, this`order
      ensures View() == Swapped(old(View()), i, j)
    {
      if i == j { return; }
      assert i < |order| && j < |order|;
      var id1, id2 := order[i], order[j];
      assert id1 in infos;
      assert id2 in infos;
      infos := infos[id1 := infos[id1].(randomPos := j)];
      infos := infos[id2 := infos[id2].(randomPos := i)];
      order := order[i := id2];
      order := order[j := id1];
    }

    /** Shuffles the front of tried bucket k and returns the position to replace. */
    method SelectTried(k: int) returns (pos: int, ghost draws: seq<int>, ghost winner: nat)
      requires 0 <= k < |triedBuckets| && |triedBuckets[k]| > 0 && -1 !in infos && AllKnown(infos, triedBuckets[k])
      modifies this`triedBuckets
      ensures Selects(infos, old(triedBuckets)[k], draws, winner) && pos == draws[winner]
      ensures triedBuckets == old(triedBuckets)[k := Shuffle(old(triedBuckets)[k], draws)]
      ensures AllKnown(infos, triedBuckets[k])
    {
      var tried := triedBuckets[k];
      var oldest := -1;
      pos := -1;
      draws, winner := [], 0;
      ghost var bucket := tried;
      var i := 0;
      while i < TRIED_ENTRIES_INSPECT_ON_EVICT && i < |tried|
        invariant 0 <= i == |draws| <= Min(TRIED_ENTRIES_INSPECT_ON_EVICT, |bucket|)
        invariant Drawn(bucket, draws) && tried == Shuffle(bucket, draws)
        invariant triedBuckets == old(triedBuckets)[k := tried]
        invariant AllKnown(infos, tried) && (i == 0 <==> oldest == -1)
        invariant i > 0 ==> IsOldest(infos, tried, i, winner) && oldest == tried[winner] && pos == draws[winner]
      {
        var draw := GetRandInt(|tried| - i);
        var p := draw + i;
        OneMoreDraw(bucket, draws, p);
        OneMoreInspected(infos, tried, i, p, winner);
        var temp := tried[p];
        tried := tried[p := tried[i]];
        tried := tried[i := temp];
        triedBuckets := triedBuckets[k := tried];
        draws := draws + [p];
        if oldest == -1 || infos[temp].lastSuccess < infos[oldest].lastSuccess {
          oldest := temp;
          pos := p;
          winner := i;
        }
        i := i + 1;
      }
    }

    method Delete(id: int)
      requires Ordered(infos, order) && id in infos
      modifies this
      ensures View() == Forgotten(old(View()), id)
    {
      SwapRandom(infos[id].randomPos, |order| - 1);
      order := order[..|order| - 1];
      idByAddr := idByAddr - {infos[id].service.ip};
      infos := infos - {id};
      newCount := newCount - 1;
    }

    /** Takes id out of new bucket b, deleting the entry with its last reference. */
    method Release(b: int, id: int)
      requires Ordered(infos, order) && id in infos && 0 <= b < |newBuckets|
      modifies this
      ensures View() == Unreferenced(old(View()), b, id)
    {
      infos := infos[id := infos[id].(refCount := infos[id].refCount - 1)];
      assert Ordered(infos, order);
      if infos[id].refCount == 0 {
        Delete(id);
      }
      newBuckets := newBuckets[b := newBuckets[b] - {id}];
    }

    /** The first entry of a bucket, in the order of its ids, that is not worth keeping. */
    method FirstTerrible(ids: seq<int>, now: int) returns (i: int)
      requires forall j :: 0 <= j < |ids| ==> ids[j] in infos
      ensures 0 <= i <= |ids| && (i < |ids| ==> infos[ids[i]].Expendable(now))
      ensures forall j :: 0 <= j < i ==> !infos[ids[j]].Expendable(now)
    {
      i := 0;
      while i < |ids|
        invariant 0 <= i <= |ids|
        invariant forall j :: 0 <= j < i ==> !infos[ids[j]].Expendable(now)
      {
        if infos[ids[i]].IsTerrible(now) { return; }
        i := i + 1;
      }
    }

    /** Removes an entry from a new bucket: the first terrible one, or else the oldest of four drawn. */
    method ShrinkNew(b: int, now: int) returns (r: int, ghost victim: int, ghost picks: seq<int>)
      requires Ordered(infos, order) && 0 <= b < |newBuckets| && |newBuckets[b]| > 0
      requires -1 !in infos && forall id :: id in newBuckets[b] ==> id in infos
      modifies this
      ensures Evictable(old(View()), b, now, victim)
      ensures View() == Unreferenced(old(View()), b, victim)
      ensures r == 0 <==> exists id :: id in old(newBuckets)[b] && old(infos)[id].Expendable(now)
      ensures r == 0 || r == 1
      ensures r == 1 ==> |picks| == 4 && victim in picks
      ensures r == 1 ==> victim in old(infos) && forall id :: id in picks ==>
        && id in old(newBuckets)[b] && id in old(infos) && old(infos)[victim].time <= old(infos)[id].time
        && (old(infos)[victim].time == old(infos)[id].time ==> victim <= id)
    {
      var ids := Sorted(newBuckets[b]);
      picks := [];
      var i := FirstTerrible(ids, now);
      if i < |ids| {
        victim := ids[i];
        assert Evictable(View(), b, now, victim);
        Release(b, ids[i]);
        return 0, victim, picks;
      }
      assert forall id :: id in newBuckets[b] ==> !infos[id].Expendable(now);
      var n0 := GetRandInt(|newBuckets[b]|);
      var n1 := GetRandInt(|newBuckets[b]|);
      var n2 := GetRandInt(|newBuckets[b]|);
      var n3 := GetRandInt(|newBuckets[b]|);
      picks := [ids[n0], ids[n1], ids[n2], ids[n3]];
      var oldest := OldestOf(ids, n0, n1, n2, n3);
      victim := oldest;
      assert oldest in ids;
      assert Evictable(View(), b, now, victim);
      Release(b, oldest);
      return 1, victim, picks;
    }

    /** Scans the ids once; an id counts when its rank is one of the four. */
    method OldestOf(ids: seq<int>, n0: int, n1: int, n2: int, n3: int) returns (oldest: int)
      requires 0 <= n0 < |ids| && 0 <= n1 < |ids| && 0 <= n2 < |ids| && 0 <= n3 < |ids|
      requires -1 !in infos && Increasing(ids) && forall i :: 0 <= i < |ids| ==> ids[i] in infos
      ensures oldest in [ids[n0], ids[n1], ids[n2], ids[n3]] && oldest in ids
      ensures forall id :: id in [ids[n0], ids[n1], ids[n2], ids[n3]] ==> IsOlder(infos, oldest, id)
    {
      oldest := -1;
      var rank := 0;
      while rank < |ids|
        invariant 0 <= rank <= |ids|
        invariant oldest == -1 <==> (rank <= n0 && rank <= n1 && rank <= n2 && rank <= n3)
        invariant oldest != -1 ==> oldest in infos && oldest in ids[..rank]
        invariant oldest != -1 ==> oldest in [ids[n0], ids[n1], ids[n2], ids[n3]]
        invariant rank > n0 ==> oldest != -1 && IsOlder(infos, oldest, ids[n0])
        invariant rank > n1 ==> oldest != -1 && IsOlder(infos, oldest, ids[n1])
        invariant rank > n2 ==> oldest != -1 && IsOlder(infos, oldest, ids[n2])
        invariant rank > n3 ==> oldest != -1 && IsOlder(infos, oldest, ids[n3])
      {
        if rank == n0 || rank == n1 || rank == n2 || rank == n3 {
          if oldest == -1 || infos[ids[rank]].time < infos[oldest].time {
            oldest := ids[rank];
          }
        }
        rank := rank + 1;
      }
    }

    /** Takes id out of every new bucket, counting its references down. */
    method Uproot(id: int)
      requires Valid() && id in infos
      modifies this`infos, this`newBuckets, this`newCount
      ensures View() == Uprooted(old(View()), id)
      ensures infos[id].refCount == 0
    {
      var b := 0;
      while b < |newBuckets|
        invariant 0 <= b <= |newBuckets| == |old(newBuckets)|
        invariant forall c :: 0 <= c < b ==> newBuckets[c] == old(newBuckets)[c] - {id}
        invariant forall c :: b <= c < |newBuckets| ==> newBuckets[c] == old(newBuckets)[c]
        invariant newCount == old(newCount)
        invariant id in infos && infos == Recounted(old(infos), id, |Holders(newBuckets, id)|)
      {
        if id in newBuckets[b] {
          HoldersAfterRemove(newBuckets, b, id);
          newBuckets := newBuckets[b := newBuckets[b] - {id}];
          infos := infos[id := infos[id].(refCount := infos[id].refCount - 1)];
        }
        b := b + 1;
      }
      newCount := newCount - 1;
      assert newBuckets == Emptied(old(newBuckets), id);
      EmptiedHolders(old(newBuckets), id);
      assert |Holders(newBuckets, id)| == 0;
    }

    /** Moves an entry from the new to the tried table. */
    method MakeTried(id: int, origin: int)
      requires Valid() && id in infos && !infos[id].inTried
      requires 0 <= origin < |newBuckets| && id in newBuckets[origin]
      modifies this
      ensures MakeTriedStep(env, old(View()), id, origin, View())
    {
      assert id in newBuckets[origin];
      Uproot(id);
      assert infos[id].refCount == 0;
      ghost var t1 := View();
      var k := TriedBucket(env, key, infos[id].service);
      if |triedBuckets[k]| < TRIED_BUCKET_SIZE {
        triedBuckets := triedBuckets[k := triedBuckets[k] + [id]];
        triedCount := triedCount + 1;
        infos := infos[id := infos[id].(inTried := true)];
        return;
      }
      TriedMembersKnown(env, key, old(infos), triedBuckets[k], triedBuckets, k);
      var bucket, pos := ReplaceSelected(id, k, origin);
      ExchangeIsStep(env, old(View()), id, origin, bucket, pos, View());
    }

    /** The selected entry of a full tried bucket, which is shuffled for it, makes room for id. */
    method ReplaceSelected(id: int, k: int, origin: int) returns (ghost bucket: seq<int>, ghost pos: int)
      requires id in infos && -1 !in infos && |newBuckets| == NEW_BUCKET_COUNT && 0 <= origin < |newBuckets|
      requires 0 <= k < |triedBuckets| && |triedBuckets[k]| > 0 && AllKnown(infos, triedBuckets[k])
      modifies this
      ensures multiset(bucket) == multiset(old(triedBuckets)[k])
      ensures 0 <= pos < |bucket| && bucket[pos] in old(infos)
      ensures View() == Exchanged(old(View()), id, k, bucket, pos, ReturnBucket(env, old(View()), bucket[pos], origin))
    {
      ghost var before := triedBuckets[k];
      var selected, draws, winner := SelectTried(k);
      bucket, pos := triedBuckets[k], selected;
      ShuffleIsPermutation(before, draws);
      ghost var t := View();
      Evict(id, k, selected, origin);
      assert View() == Exchanged(t, id, k, bucket, pos, ReturnBucket(env, t, bucket[pos], origin));
    }

    /** Replaces the tried entry at the selected position, which goes back to a new bucket. */
    method Evict(id: int, k: int, pos: int, origin: int)
      requires id in infos && 0 <= k < |triedBuckets| && 0 <= pos < |triedBuckets[k]| && triedBuckets[k][pos] in infos
      requires |newBuckets| == NEW_BUCKET_COUNT && 0 <= origin < |newBuckets|
      modifies this
      ensures View() == Exchanged(old(View()), id, k, old(triedBuckets)[k], pos,
                                  ReturnBucket(env, old(View()), old(triedBuckets)[k][pos], origin))
    {
      var evicted := triedBuckets[k][pos];
      assert evicted in infos;
      var b := NewBucket(env, key, infos[evicted].service.ip, infos[evicted].source);
      infos := infos[evicted := infos[evicted].(inTried := false, refCount := 1)];
      if |newBuckets[b]| < NEW_BUCKET_SIZE {
        newBuckets := newBuckets[b := newBuckets[b] + {evicted}];
      } else {
        newBuckets := newBuckets[origin := newBuckets[origin] + {evicted}];
      }
      newCount := newCount + 1;
      triedBuckets := triedBuckets[k := triedBuckets[k][pos := id]];
      infos := infos[id := infos[id].(inTried := true)];
    }

    method Good(service: Service, time: int)
      requires Valid()
      modifies this
      ensures Step(env, old(View()), Op.Good(service, time), View()) && Valid()
    {
      ghost var t := View();
      var found, id := Find(service.ip);
      if !found { return; }
      if infos[id].service != service { return; }
      ghost var info := Succeeded(infos[id], time);
      infos := infos[id := infos[id].(lastSuccess := time)];
      infos := infos[id := infos[id].(lastTry := time)];
      infos := infos[id := infos[id].(time := ToU32(time))];
      infos := infos[id := infos[id].(attempts := 0)];
      assert View() == Restated(t, id, info);
      RestatedKeeps(env, t, id, info);
      if infos[id].inTried { return; }
      var origin := FindNewBucket(id);
      MakeTried(id, origin);
      GoodKeeps(env, t, service, time, View());
    }

    /** Looks for a new bucket that holds id, from a random one onwards. */
    method FindNewBucket(id: int) returns (origin: int)
      requires Valid() && id in infos && !infos[id].inTried
      ensures 0 <= origin < |newBuckets| && id in newBuckets[origin]
    {
      var rnd := GetRandInt(|newBuckets|);
      origin := -1;
      var n := 0;
      while n < |newBuckets|
        invariant 0 <= n <= |newBuckets| && origin == -1
        invariant forall m :: 0 <= m < n ==> id !in newBuckets[Slot(m, rnd)]
      {
        var b := Slot(n, rnd);
        if id in newBuckets[b] {
          origin := b;
          return;
        }
        n := n + 1;
      }
      HolderExists(infos, newBuckets, id, rnd);
      assert false;
    }

    method Attempt(service: Service, time: int)
      requires Valid()
      modifies this`infos
      ensures Step(env, old(View()), Op.Attempt(service, time), View()) && Valid()
    {
      ghost var t := View();
      var found, id := Find(service.ip);
      if !found { return; }
      if infos[id].service != service { return; }
      infos := infos[id := infos[id].(lastTry := time)];
      infos := infos[id := infos[id].(attempts := infos[id].attempts + 1)];
      assert AttemptStep(t, service, time, View());
      AttemptKeeps(env, t, service, time, View());
    }

    method Connected(service: Service, time: int)
      requires Valid()
      modifies this`infos
      ensures Step(env, old(View()), Op.Connected(service, time), View()) && Valid()
    {
      ghost var t := View();
      var found, id := Find(service.ip);
      if !found { return; }
      if infos[id].service != service { return; }
      if time - infos[id].time > 20 * 60 {
        infos := infos[id := infos[id].(time := ToU32(time))];
      }
      assert ConnectedStep(t, service, time, View());
      ConnectedKeeps(env, t, service, time, View());
    }

    method GetAddr() returns (out: seq<Address>)
      requires Valid()
      modifies this`infos, this`order
      ensures GetAddrStep(old(View()), out, View())
      ensures Step(env, old(View()), Op.GetAddr, View()) && Valid()
    {
      ghost var t := View();
      var nodes := GETADDR_MAX_PCT * |order| / 100;
      if nodes > GETADDR_MAX { nodes := GETADDR_MAX; }
      out := [];
      var n := 0;
      while n < nodes
        invariant 0 <= n <= nodes == Sample(t) && |out| == n
        invariant Sampled(t, out, View())
      {
        var draw := GetRandInt(|order| - n);
        SampleOneMore(t, out, View(), draw + n);
        SwapRandom(n, draw + n);
        assert order[n] in infos;
        out := out + [infos[order[n]].ToAddress()];
        n := n + 1;
      }
      GetAddrKeeps(env, t, out, View());
      GetAddrIsStep(env, t, out, View());
    }

    /** The entry has been given a reference to bucket b and enters it. */
    method Place(b: int, id: int, now: int)
      requires StructuredBut(env, View(), id) && id in infos && idCount >= 0
      requires 0 <= b < |newBuckets| && id !in newBuckets[b]
      modifies this
      ensures Places(env, old(View()), b, id, now, View())
    {
      ghost var t := View();
      if |newBuckets[b]| == NEW_BUCKET_SIZE {
        var r, victim, picks := ShrinkNew(b, now);
        newBuckets := newBuckets[b := newBuckets[b] + {id}];
        assert View() == Replaced(t, b, victim, id);
      } else {
        newBuckets := newBuckets[b := newBuckets[b] + {id}];
        assert View() == Inserted(t, b, id);
      }
    }

    /** An entry with N references takes another one with probability 1 / 2^N. */
    static method Lucky(refCount: int) returns (lucky: bool, ghost luck: nat)
      requires refCount >= 0
      ensures luck < Pow2(refCount) && (lucky <==> luck == 0)
    {
      var factor := 1;
      var n := 0;
      while n < refCount
        invariant 0 <= n <= refCount && factor == Pow2(n) >= 1
      {
        factor := factor * 2;
        n := n + 1;
      }
      if factor > 1 {
        var draw := GetRandInt(factor);
        return draw == 0, draw;
      }
      return true, 0;
    }

    method Add(addr: Address, source: NetAddr, penalty: int, now: int) returns (added: bool)
      requires Valid()
      modifies this
      ensures AddStep(env, old(View()), addr, source, penalty, now, View(), added)
      ensures Step(env, old(View()), Op.Add(addr, source, penalty, now), View()) && Valid()
    {
      ghost var t := View();
      added := AddEntry(addr, source, penalty, now);
      AddKeeps(env, t, addr, source, penalty, now, View(), added);
      AddIsStep(env, t, addr, source, penalty, now, View(), added);
    }

    method AddEntry(addr: Address, source: NetAddr, penalty: int, now: int) returns (added: bool)
      requires Valid()
      modifies this
      ensures AddStep(env, old(View()), addr, source, penalty, now, View(), added)
    {
      if !env.routable(addr.service.ip) { return false; }
      var found, id := Find(addr.service.ip);
      if found {
        AddKnown(id, addr, source, penalty, now);
        return false;
      }
      AddUnknown(addr, source, penalty, now);
      return true;
    }

    method AddUnknown(addr: Address, source: NetAddr, penalty: int, now: int)
      requires Valid() && addr.service.ip !in idByAddr
      modifies this
      ensures AddUnknownStep(env, old(View()), addr, source, penalty, now, View())
    {
      ghost var t := View();
      var id := Create(addr, source);
      infos := infos[id := infos[id].(time := ToU32(Max(0, infos[id].time - penalty)))];
      newCount := newCount + 1;
      var b := NewBucket(env, key, infos[id].service.ip, source);
      CreatedIsNowhere(env, t, b);
      if id !in newBuckets[b] {
        infos := infos[id := infos[id].(refCount := infos[id].refCount + 1)];
        assert View() == Created(t, addr, source, ToU32(Max(0, addr.time - penalty)));
        CreatedKeeps(env, t, addr, source, ToU32(Max(0, addr.time - penalty)));
        Place(b, id, now);
      }
    }

    /** Brings time and services of a known entry up to date. */
    method Refresh(id: int, addr: Address, penalty: int, now: int)
      requires id in infos
      modifies this`infos
      ensures View() == Restated(old(View()), id, Refreshed(old(infos)[id], addr, penalty, now))
    {
      var online := now - addr.time < 24 * 60 * 60;
      var interval := if online then 60 * 60 else 24 * 60 * 60;
      if addr.time != 0 && (infos[id].time == 0 || infos[id].time < addr.time - interval - penalty) {
        infos := infos[id := infos[id].(time := ToU32(Max(0, addr.time - penalty)))];
      }
      infos := infos[id := infos[id].(services := infos[id].services + addr.services)];
    }

    lemma RefreshedIsAStep(t: Tables, id: int, addr: Address, source: NetAddr, penalty: int, now: int, luck: nat)
      requires id in t.infos && Ordered(t.infos, t.order) && NewPlaced(t.infos, t.newBuckets, -1)
      requires luck < Pow2(t.infos[id].refCount)
      requires Settles(Refreshed(t.infos[id], addr, penalty, now), addr) || luck != 0
        || id in t.newBuckets[NewBucket(env, t.key, addr.service.ip, source)]
      ensures AddKnownStep(env, t, id, addr, source, penalty, now,
        Restated(t, id, Refreshed(t.infos[id], addr, penalty, now)))
    {
      assert AddKnownDrawn(env, t, id, addr, source, penalty, now, luck,
        Restated(t, id, Refreshed(t.infos[id], addr, penalty, now)));
    }

    lemma ReferencedIsAStep(t: Tables, id: int, info: AddrInfo, addr: Address, source: NetAddr, penalty: int,
                            now: int, t': Tables)
      requires id in t.infos && Ordered(t.infos, t.order) && NewPlaced(t.infos, t.newBuckets, -1)
      requires info == Refreshed(t.infos[id], addr, penalty, now) && !Settles(info, addr)
      requires id !in t.newBuckets[NewBucket(env, t.key, addr.service.ip, source)]
      requires TakesBucket(env, t, id, info, NewBucket(env, t.key, addr.service.ip, source), now, t')
      ensures AddKnownStep(env, t, id, addr, source, penalty, now, t')
    {
      assert AddKnownDrawn(env, t, id, addr, source, penalty, now, 0, t');
    }

    method TakeAnother(id: int, b: int, addr: Address, source: NetAddr, penalty: int, now: int,
                       ghost t: Tables, ghost info: AddrInfo)
      requires Structured(env, t) && id in t.infos && SamePlace(t.infos[id], info)
      requires !info.inTried && info.refCount < NEW_BUCKETS_PER_ADDRESS
      requires info == Refreshed(t.infos[id], addr, penalty, now) && !Settles(info, addr)
      requires b == NewBucket(env, t.key, addr.service.ip, source) && |t.newBuckets| == NEW_BUCKET_COUNT
      requires View() == Restated(t, id, info) && id !in t.newBuckets[b]
      modifies this
      ensures AddKnownStep(env, t, id, addr, source, penalty, now, View())
    {
      Reference(id, b, now, t, info);
      ReferencedIsAStep(t, id, info, addr, source, penalty, now, View());
    }

    method AddKnown(id: int, addr: Address, source: NetAddr, penalty: int, now: int)
      requires Valid() && id in infos && infos[id].service.ip == addr.service.ip
      modifies this
      ensures AddKnownStep(env, old(View()), id, addr, source, penalty, now, View())
    {
      ghost var t := View();
      ghost var refreshed := Refreshed(infos[id], addr, penalty, now);
      RefreshedMayTakeAnother(env, t, id, addr, penalty, now);
      Refresh(id, addr, penalty, now);
      var more, luck := TakesAnother(infos[id], addr);
      var b := NewBucket(env, key, infos[id].service.ip, source);
      assert View() == Restated(t, id, refreshed) && infos[id] == refreshed && newBuckets == t.newBuckets;
      if more && id !in newBuckets[b] {
        TakeAnother(id, b, addr, source, penalty, now, t, refreshed);
      } else {
        RefreshedIsAStep(t, id, addr, source, penalty, now, luck);
      }
    }

    /** Decides whether a refreshed entry may enter a further bucket. */
    static method TakesAnother(info: AddrInfo, addr: Address) returns (more: bool, ghost luck: nat)
      requires info.refCount >= 0
      ensures luck < Pow2(info.refCount) && (more <==> !Settles(info, addr) && luck == 0)
    {
      if addr.time == 0 || (info.time != 0 && addr.time <= info.time) { return false, 0; }
      if info.inTried { return false, 0; }
      if info.refCount == NEW_BUCKETS_PER_ADDRESS { return false, 0; }
      more, luck := Lucky(info.refCount);
    }

    method Reference(id: int, b: int, now: int, ghost t: Tables, ghost info: AddrInfo)
      requires Structured(env, t) && id in t.infos && SamePlace(t.infos[id], info)
      requires !info.inTried && info.refCount < NEW_BUCKETS_PER_ADDRESS
      requires View() == Restated(t, id, info)
      requires 0 <= b < |newBuckets| && id !in newBuckets[b]
      modifies this
      ensures var t2 := Restated(t, id, info.(refCount := info.refCount + 1));
        StructuredBut(env, t2, id) && Places(env, t2, b, id, now, View())
    {
      ReferencedKeeps(env, t, id, info);
      infos := infos[id := infos[id].(refCount := infos[id].refCount + 1)];
      assert View() == Restated(t, id, info.(refCount := info.refCount + 1));
      Place(b, id, now);
    }
  }
}
