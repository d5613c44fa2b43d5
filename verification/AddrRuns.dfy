/** Runs of the address manager: any sequence of operations, with any random choices, from the
    empty tables. */
module AddrRuns {
  import opened Arithmetic
  import opened AddrTypes
  import opened AddrTables
  import opened AddrSteps
  import opened FiniteSets

  // ----- the operations that only touch statistics or the order -----

  ghost predicate AttemptStep(t: Tables, service: Service, time: int, t': Tables) {
    if !Knows(t, service) then t' == t
    else
      var id := t.idByAddr[service.ip];
      t' == Restated(t, id, t.infos[id].(lastTry := time, attempts := t.infos[id].attempts + 1))
  }

  ghost predicate ConnectedStep(t: Tables, service: Service, time: int, t': Tables) {
    if !Knows(t, service) then t' == t
    else
      var id := t.idByAddr[service.ip];
      var info := t.infos[id];
      t' == if time - info.time > 20 * 60 then Restated(t, id, info.(time := ToU32(time))) else t
  }

  /** GetAddr returns this many addresses. */
  function Sample(t: Tables): (n: int)
    ensures 0 <= n <= |t.order|
  {
    Min(GETADDR_MAX_PCT * |t.order| / 100, GETADDR_MAX)
  }

  /** The first |out| positions of the order have been drawn and are returned. */
  ghost predicate Sampled(t: Tables, out: seq<Address>, t': Tables) {
    && t' == t.(infos := t'.infos, order := t'.order)
    && SameButPositions(t.infos, t'.infos)
    && Ordered(t'.infos, t'.order)
    && multiset(t'.order) == multiset(t.order)
    && |out| <= |t'.order| == |t.order|
    && forall n :: 0 <= n < |out| ==> out[n] == t'.infos[t'.order[n]].ToAddress()
  }

  ghost predicate GetAddrStep(t: Tables, out: seq<Address>, t': Tables) {
    Sampled(t, out, t') && |out| == Sample(t)
  }

  lemma SampleOneMore(t: Tables, out: seq<Address>, u: Tables, p: int)
    requires Sampled(t, out, u) && |out| <= p < |u.order|
    ensures var t' := Swapped(u, |out|, p);
      t'.order[|out|] in t'.infos && Sampled(t, out + [t'.infos[t'.order[|out|]].ToAddress()], t')
  {
    var n := |out|;
    var t' := Swapped(u, n, p);
    SwappedKeeps(u, n, p);
    assert multiset(t'.order) == multiset(u.order);
    var out' := out + [t'.infos[t'.order[n]].ToAddress()];
    forall m | 0 <= m < |out'| ensures out'[m] == t'.infos[t'.order[m]].ToAddress() {
      if m < n { assert t'.order[m] == u.order[m]; }
    }
  }

  // ----- runs -----

  datatype Op =
    | Add(addr: Address, source: NetAddr, penalty: int, now: int)
    | Good(service: Service, time: int)
    | Attempt(service: Service, time: int)
    | Connected(service: Service, time: int)
    | GetAddr

  /** t' is a possible outcome of op; tables that are not structured promise nothing. */
  ghost predicate Step(env: Env, t: Tables, op: Op, t': Tables) {
    Structured(env, t) ==>
      match op
      case Add(addr, source, penalty, now) => exists added :: AddStep(env, t, addr, source, penalty, now, t', added)
      case Good(service, time) => GoodStep(env, t, service, time, t')
      case Attempt(service, time) => AttemptStep(t, service, time, t')
      case Connected(service, time) => ConnectedStep(t, service, time, t')
      case GetAddr => exists out :: GetAddrStep(t, out, t')
  }

  lemma GetAddrIsStep(env: Env, t: Tables, out: seq<Address>, t': Tables)
    requires GetAddrStep(t, out, t')
    ensures Step(env, t, GetAddr, t')
  {
  }

  lemma AddIsStep(env: Env, t: Tables, addr: Address, source: NetAddr, penalty: int, now: int, t': Tables, added: bool)
    requires Structured(env, t) && AddStep(env, t, addr, source, penalty, now, t', added)
    ensures Step(env, t, Add(addr, source, penalty, now), t')
  {
  }

  ghost predicate Run(env: Env, key: Bytes, ops: seq<Op>, states: seq<Tables>) {
    && |states| == |ops| + 1
    && states[0] == EmptyTables(key)
    && (forall i :: 0 <= i < |ops| ==> Step(env, states[i], ops[i], states[i + 1]))
  }

  lemma GetAddrKeeps(env: Env, t: Tables, out: seq<Address>, t': Tables)
    requires Structured(env, t) && GetAddrStep(t, out, t')
    ensures Structured(env, t')
  {
    IndexedAlike(t.infos, t'.infos, t.idByAddr);
    SameKinds(t.infos, t'.infos);
    NewPlacedAlike(t.infos, t'.infos, t.newBuckets, -1);
    TriedPlacedAlike(env, t.key, t.infos, t'.infos, t.triedBuckets);
  }

  lemma AttemptKeeps(env: Env, t: Tables, service: Service, time: int, t': Tables)
    requires Structured(env, t) && AttemptStep(t, service, time, t')
    ensures Structured(env, t')
  {
    if Knows(t, service) {
      var id := t.idByAddr[service.ip];
      var info := t.infos[id].(lastTry := time, attempts := t.infos[id].attempts + 1);
      RestatedKeeps(env, t, id, info);
      assert t' == Restated(t, id, info);
    }
  }

  lemma ConnectedKeeps(env: Env, t: Tables, service: Service, time: int, t': Tables)
    requires Structured(env, t) && ConnectedStep(t, service, time, t')
    ensures Structured(env, t')
  {
    if Knows(t, service) {
      var id := t.idByAddr[service.ip];
      RestatedKeeps(env, t, id, t.infos[id].(time := ToU32(time)));
    }
  }

  lemma StepKeeps(env: Env, t: Tables, op: Op, t': Tables)
    requires Structured(env, t) && Step(env, t, op, t')
    ensures Structured(env, t')
  {
    match op
    case Add(addr, source, penalty, now) =>
      var added :| AddStep(env, t, addr, source, penalty, now, t', added);
      AddKeeps(env, t, addr, source, penalty, now, t', added);
    case Good(service, time) => GoodKeeps(env, t, service, time, t');
    case Attempt(service, time) => AttemptKeeps(env, t, service, time, t');
    case Connected(service, time) => ConnectedKeeps(env, t, service, time, t');
    case GetAddr =>
      var out :| GetAddrStep(t, out, t');
      GetAddrKeeps(env, t, out, t');
  }

  /** Every state of every run is structured, whatever the times. */
  lemma {:induction false} RunsAreStructured(env: Env, key: Bytes, ops: seq<Op>, states: seq<Tables>, i: nat)
    requires Run(env, key, ops, states) && i < |states|
    ensures Structured(env, states[i])
  {
    if i == 0 {
      EmptyIsConsistent(env, key);
    } else {
      RunsAreStructured(env, key, ops, states, i - 1);
      StepKeeps(env, states[i - 1], ops[i - 1], states[i]);
    }
  }

  // ----- size -----

  /** The tables cannot outgrow their buckets, and the order lists exactly the counted entries. */
  lemma SizeIsBounded(env: Env, t: Tables)
    requires Structured(env, t)
    ensures |t.order| == |t.infos| == t.newCount + t.triedCount
    ensures t.newCount <= 256 * 64 && t.triedCount <= 64 * 64
  {
    OrderLength(t.infos, t.order);
    assert NewIds(t.infos) + TriedIds(t.infos) == t.infos.Keys;
    assert NewIds(t.infos) !! TriedIds(t.infos);
    NewSize(t.infos, t.newBuckets);
    TriedSize(env, t.key, t.infos, t.triedBuckets);
  }

  lemma NewSize(infos: map<int, AddrInfo>, buckets: seq<set<int>>)
    requires NewPlaced(infos, buckets, -1) && -1 !in infos
    ensures |NewIds(infos)| <= NEW_BUCKET_COUNT * NEW_BUCKET_SIZE
  {
    forall id | id in NewIds(infos) ensures id in Union(buckets) {
      assert Holders(buckets, id) != {};
      var b :| b in Holders(buckets, id);
      UnionContains(buckets, b, id);
    }
    SubsetSize(NewIds(infos), Union(buckets));
    UnionSize(buckets, NEW_BUCKET_SIZE);
  }

  lemma TriedSize(env: Env, key: Bytes, infos: map<int, AddrInfo>, buckets: seq<seq<int>>)
    requires TriedPlaced(env, key, infos, buckets)
    ensures |TriedIds(infos)| <= TRIED_BUCKET_COUNT * TRIED_BUCKET_SIZE
  {
    var sets := seq(|buckets|, b requires 0 <= b < |buckets| => set x | x in buckets[b]);
    forall b | 0 <= b < |sets| ensures |sets[b]| <= TRIED_BUCKET_SIZE { MembersSize(buckets[b]); }
    forall id | id in TriedIds(infos) ensures id in Union(sets) {
      UnionContains(sets, TriedBucket(env, key, infos[id].service), id);
    }
    SubsetSize(TriedIds(infos), Union(sets));
    UnionSize(sets, TRIED_BUCKET_SIZE);
  }

  lemma OrderLength(infos: map<int, AddrInfo>, order: seq<int>)
    requires Ordered(infos, order)
    ensures |order| == |infos|
  {
    forall id ensures id in infos.Keys <==> id in set x | x in order {
      if id in infos { assert order[infos[id].randomPos] == id; }
    }
    assert infos.Keys == set x | x in order;
    forall i, j | 0 <= i < j < |order| ensures order[i] != order[j] {}
    DistinctSize(order);
  }

  // ----- what the operations mean for the addresses known -----

  ghost function Known(t: Tables): set<NetAddr> { t.idByAddr.Keys }

  ghost predicate IsTried(t: Tables, a: NetAddr) {
    a in t.idByAddr && t.idByAddr[a] in t.infos && t.infos[t.idByAddr[a]].inTried
  }

  /** Placing an entry costs at most one other address, and that one was not tried. */
  lemma PlacesForgets(env: Env, t: Tables, b: int, id: int, now: int, t': Tables) returns (lost: set<NetAddr>)
    requires Indexed(t.infos, t.idByAddr) && Ordered(t.infos, t.order) && NewPlaced(t.infos, t.newBuckets, id)
    requires 0 <= b < |t.newBuckets| && id !in t.newBuckets[b] && Places(env, t, b, id, now, t')
    ensures |lost| <= 1 && Known(t') == Known(t) - lost
    ensures |t.newBuckets[b]| < NEW_BUCKET_SIZE ==> lost == {}
    ensures forall a :: a in lost ==> a in t.idByAddr && t.idByAddr[a] != id && !IsTried(t, a)
  {
    lost := {};
    if |t.newBuckets[b]| >= NEW_BUCKET_SIZE {
      var victim := VictimOf(env, t, b, id, now, t');
      VictimIsNew(t.infos, t.newBuckets, b, victim, id);
      lost := ReplacedForgets(t, b, victim, id);
    }
  }

  lemma ReplacedForgets(t: Tables, b: int, victim: int, id: int) returns (lost: set<NetAddr>)
    requires Indexed(t.infos, t.idByAddr) && Ordered(t.infos, t.order) && 0 <= b < |t.newBuckets|
    requires victim in t.infos && !t.infos[victim].inTried && victim != id
    ensures |lost| <= 1 && Known(Replaced(t, b, victim, id)) == Known(t) - lost
    ensures forall a :: a in lost ==> a in t.idByAddr && t.idByAddr[a] != id && !IsTried(t, a)
  {
    NewIsNotTried(t, victim);
    ReplacedAddresses(t, b, victim, id);
    lost := if t.infos[victim].refCount == 1 then {t.infos[victim].service.ip} else {};
  }

  lemma VictimOf(env: Env, t: Tables, b: int, id: int, now: int, t': Tables) returns (victim: int)
    requires Ordered(t.infos, t.order) && 0 <= b < |t.newBuckets| && |t.newBuckets[b]| >= NEW_BUCKET_SIZE
    requires (forall k :: k in t.newBuckets[b] ==> k in t.infos) && Places(env, t, b, id, now, t')
    ensures victim in t.newBuckets[b] && t' == Replaced(t, b, victim, id)
  {
    victim :| Evictable(t, b, now, victim) && t' == Replaced(t, b, victim, id);
  }

  lemma NewIsNotTried(t: Tables, id: int)
    requires Indexed(t.infos, t.idByAddr) && id in t.infos && !t.infos[id].inTried
    ensures var a := t.infos[id].service.ip; a in t.idByAddr && t.idByAddr[a] == id && !IsTried(t, a)
  {
  }

  lemma VictimIsNew(infos: map<int, AddrInfo>, buckets: seq<set<int>>, b: int, victim: int, pending: int)
    requires NewPlaced(infos, buckets, pending) && 0 <= b < |buckets| && victim in buckets[b]
    ensures victim in infos && !infos[victim].inTried
  {
    assert b in Holders(buckets, victim);
  }

  lemma ReplacedAddresses(t: Tables, b: int, victim: int, id: int)
    requires Ordered(t.infos, t.order) && victim in t.infos && 0 <= b < |t.newBuckets|
    ensures Replaced(t, b, victim, id).idByAddr ==
      if t.infos[victim].refCount == 1 then t.idByAddr - {t.infos[victim].service.ip} else t.idByAddr
  {
    if t.infos[victim].refCount == 1 {
      var t1 := t.(infos := Recounted(t.infos, victim, 0));
      assert Ordered(t1.infos, t1.order);
      ForgottenAfterSwap(t1, victim);
    }
  }

  /** Add makes a routable address known. At most one other is forgotten for it, never a tried one. */
  lemma AddForgets(env: Env, t: Tables, addr: Address, source: NetAddr, penalty: int, now: int, t': Tables, added: bool)
    returns (lost: set<NetAddr>)
    requires Structured(env, t) && AddStep(env, t, addr, source, penalty, now, t', added)
    ensures added <==> env.routable(addr.service.ip) && addr.service.ip !in Known(t)
    ensures |lost| <= 1 && addr.service.ip !in lost
    ensures env.routable(addr.service.ip) ==> Known(t') == Known(t) - lost + {addr.service.ip}
    ensures !env.routable(addr.service.ip) ==> t' == t
    ensures forall a :: a in lost ==> a in Known(t) && !IsTried(t, a)
  {
    var ip := addr.service.ip;
    lost := {};
    if env.routable(ip) {
      if ip in t.idByAddr {
        lost := AddKnownForgets(env, t, t.idByAddr[ip], addr, source, penalty, now, t');
        assert ip in Known(t) - lost;
      } else {
        lost := AddUnknownForgets(env, t, addr, source, penalty, now, t');
      }
    }
  }

  lemma RestatedStaysTried(t: Tables, id: int, info: AddrInfo, a: NetAddr)
    requires id in t.infos && info.inTried == t.infos[id].inTried && IsTried(t, a)
    ensures IsTried(Restated(t, id, info), a)
  {
  }

  lemma CreatedStaysTried(t: Tables, addr: Address, source: NetAddr, time: int, a: NetAddr)
    requires t.idCount !in t.infos && addr.service.ip !in t.idByAddr && IsTried(t, a)
    ensures IsTried(Created(t, addr, source, time), a)
  {
  }

  lemma AddKnownForgets(env: Env, t: Tables, id: int, addr: Address, source: NetAddr, penalty: int, now: int,
                        t': Tables)
    returns (lost: set<NetAddr>)
    requires Structured(env, t) && id in t.infos && AddKnownStep(env, t, id, addr, source, penalty, now, t')
    requires addr.service.ip in t.idByAddr && t.idByAddr[addr.service.ip] == id
    ensures |lost| <= 1 && addr.service.ip !in lost && Known(t') == Known(t) - lost
    ensures forall a :: a in lost ==> a in Known(t) && !IsTried(t, a)
  {
    lost := {};
    var info, draw, more := AddKnownCases(env, t, id, addr, source, penalty, now, t');
    if more {
      var b := NewBucket(env, t.key, addr.service.ip, source);
      var t2 := Restated(t, id, info.(refCount := info.refCount + 1));
      lost := PlacesForgets(env, t2, b, id, now, t');
      forall a | a in lost ensures !IsTried(t, a) {
        if IsTried(t, a) { RestatedStaysTried(t, id, t2.infos[id], a); }
      }
    }
  }

  lemma AddUnknownPlaces(env: Env, t: Tables, addr: Address, source: NetAddr, penalty: int, now: int, t': Tables)
    requires Structured(env, t) && addr.service.ip !in t.idByAddr
    requires AddUnknownStep(env, t, addr, source, penalty, now, t')
    ensures var t2 := Created(t, addr, source, ToU32(Max(0, addr.time - penalty)));
      var b := NewBucket(env, t.key, addr.service.ip, source);
      && Indexed(t2.infos, t2.idByAddr) && Ordered(t2.infos, t2.order) && NewPlaced(t2.infos, t2.newBuckets, t.idCount)
      && 0 <= b < |t2.newBuckets| && t.idCount !in t2.newBuckets[b] && Places(env, t2, b, t.idCount, now, t')
  {
    CreatedKeeps(env, t, addr, source, ToU32(Max(0, addr.time - penalty)));
    CreatedIsNowhere(env, t, NewBucket(env, t.key, addr.service.ip, source));
  }

  lemma CreatedForgets(env: Env, t: Tables, addr: Address, source: NetAddr, time: int, b: int, now: int, t': Tables)
    returns (lost: set<NetAddr>)
    requires t.idCount !in t.infos && addr.service.ip !in t.idByAddr
    requires var t2 := Created(t, addr, source, time);
      && Indexed(t2.infos, t2.idByAddr) && Ordered(t2.infos, t2.order) && NewPlaced(t2.infos, t2.newBuckets, t.idCount)
      && 0 <= b < |t2.newBuckets| && t.idCount !in t2.newBuckets[b] && Places(env, t2, b, t.idCount, now, t')
    ensures |lost| <= 1 && addr.service.ip !in lost && Known(t') == Known(t) - lost + {addr.service.ip}
    ensures forall a :: a in lost ==> a in Known(t) && !IsTried(Created(t, addr, source, time), a)
  {
    var t2 := Created(t, addr, source, time);
    assert t2.idByAddr[addr.service.ip] == t.idCount;
    lost := PlacesForgets(env, t2, b, t.idCount, now, t');
    OneAddressMore(Known(t), addr.service.ip, lost, Known(t2));
  }

  lemma OneAddressMore(known: set<NetAddr>, a: NetAddr, lost: set<NetAddr>, known': set<NetAddr>)
    requires known' == known + {a} && a !in lost
    ensures known' - lost == known - lost + {a}
  {
  }

  lemma AddUnknownForgets(env: Env, t: Tables, addr: Address, source: NetAddr, penalty: int, now: int, t': Tables)
    returns (lost: set<NetAddr>)
    requires Structured(env, t) && addr.service.ip !in t.idByAddr
    requires AddUnknownStep(env, t, addr, source, penalty, now, t')
    ensures |lost| <= 1 && addr.service.ip !in lost && Known(t') == Known(t) - lost + {addr.service.ip}
    ensures forall a :: a in lost ==> a in Known(t) && !IsTried(t, a)
  {
    var time := ToU32(Max(0, addr.time - penalty));
    AddUnknownPlaces(env, t, addr, source, penalty, now, t');
    lost := CreatedForgets(env, t, addr, source, time, NewBucket(env, t.key, addr.service.ip, source), now, t');
    forall a | a in lost ensures !IsTried(t, a) {
      if IsTried(t, a) { CreatedStaysTried(t, addr, source, time, a); }
    }
  }

  /** Good forgets nothing and makes the entry tried, with a clean record; some other tried entry
      may have to go back to the new table, in which case the counts stay as they are. */
  lemma GoodMakesTried(env: Env, t: Tables, service: Service, time: int, t': Tables)
    requires Structured(env, t) && GoodStep(env, t, service, time, t')
    ensures SameEntries(t, t')
    ensures Knows(t, service) ==>
      && IsTried(t', service.ip)
      && var info := t'.infos[t.idByAddr[service.ip]];
         && info.service == service && info.refCount == 0 && info.attempts == 0
         && info.lastSuccess == time && info.lastTry == time && info.time == ToU32(time)
    ensures !Knows(t, service) ==> t' == t
  {
    if Knows(t, service) && !t.infos[t.idByAddr[service.ip]].inTried {
      var id := t.idByAddr[service.ip];
      var t1 := Restated(t, id, Succeeded(t.infos[id], time));
      RestatedKeeps(env, t, id, Succeeded(t.infos[id], time));
      var origin :| 0 <= origin < |t.newBuckets| && id in t.newBuckets[origin] &&
        MakeTriedStep(env, t1, id, origin, t');
      MakeTriedMakesTried(env, t1, id, origin, t');
    }
  }

  /** The two tables list the same entries and count as many. */
  ghost predicate SameEntries(t: Tables, t': Tables) {
    && t'.idByAddr == t.idByAddr && t'.infos.Keys == t.infos.Keys && t'.order == t.order
    && t'.newCount + t'.triedCount == t.newCount + t.triedCount
    && t.triedCount <= t'.triedCount <= t.triedCount + 1
  }

  lemma ExchangedEntries(t: Tables, id: int, k: int, bucket: seq<int>, pos: int, dest: int)
    requires id in t.infos && 0 <= k < |t.triedBuckets| && 0 <= pos < |bucket| && bucket[pos] in t.infos
    requires bucket[pos] != id && 0 <= dest < |t.newBuckets|
    ensures var t' := Exchanged(Uprooted(t, id), id, k, bucket, pos, dest);
      SameEntries(t, t') && t'.infos[id] == t.infos[id].(refCount := 0, inTried := true)
  {
  }

  lemma SettledEntries(t: Tables, id: int, k: int)
    requires id in t.infos && 0 <= k < |t.triedBuckets|
    ensures var t' := Settled(Uprooted(t, id), id, k);
      SameEntries(t, t') && t'.infos[id] == t.infos[id].(refCount := 0, inTried := true)
  {
  }

  lemma MakeTriedMakesTried(env: Env, t: Tables, id: int, origin: int, t': Tables)
    requires TriedPlaced(env, t.key, t.infos, t.triedBuckets) && id in t.infos && !t.infos[id].inTried
    requires 0 <= origin < |t.newBuckets| == NEW_BUCKET_COUNT && MakeTriedStep(env, t, id, origin, t')
    ensures SameEntries(t, t')
    ensures t'.infos[id] == t.infos[id].(refCount := 0, inTried := true)
  {
    var k := TriedBucket(env, t.key, t.infos[id].service);
    if |t.triedBuckets[k]| < TRIED_BUCKET_SIZE {
      SettledEntries(t, id, k);
    } else {
      var bucket, pos := ExchangeOf(env, t, id, origin, t');
      BucketHoldsTried(env, t.key, t.infos, t.triedBuckets, k, bucket, pos);
      ExchangedEntries(t, id, k, bucket, pos, ReturnBucket(env, Uprooted(t, id), bucket[pos], origin));
    }
  }

  lemma BucketHoldsTried(env: Env, key: Bytes, infos: map<int, AddrInfo>, buckets: seq<seq<int>>, k: int,
                         bucket: seq<int>, pos: int)
    requires TriedPlaced(env, key, infos, buckets) && 0 <= k < |buckets|
    requires multiset(bucket) == multiset(buckets[k]) && 0 <= pos < |bucket|
    ensures bucket[pos] in infos && infos[bucket[pos]].inTried
  {
    PermutationFacts(buckets[k], bucket);
    var ev := bucket[pos];
    assert ev in bucket && ev in buckets[k];
  }

  /** A tried address is never forgotten, whatever happens in one step. */
  lemma TriedStaysKnown(env: Env, t: Tables, op: Op, t': Tables, a: NetAddr)
    requires Structured(env, t) && Step(env, t, op, t') && IsTried(t, a)
    ensures a in Known(t')
  {
    match op
    case Add(addr, source, penalty, now) =>
      var added :| AddStep(env, t, addr, source, penalty, now, t', added);
      var lost := AddForgets(env, t, addr, source, penalty, now, t', added);
    case Good(service, time) => GoodMakesTried(env, t, service, time, t');
    case Attempt(service, time) =>
    case Connected(service, time) =>
    case GetAddr =>
  }

  /** GetAddr returns distinct known addresses, as many as it should. */
  lemma GetAddrIsFair(env: Env, t: Tables, out: seq<Address>, t': Tables)
    requires Structured(env, t) && GetAddrStep(t, out, t')
    ensures |out| == Min(23 * (t.newCount + t.triedCount) / 100, 2500)
    ensures forall i :: 0 <= i < |out| ==> out[i].service.ip in Known(t)
    ensures forall i :: 0 <= i < |out| && out[i].service.ip in Known(t) ==>
              t.idByAddr[out[i].service.ip] in t.infos && out[i] == t.infos[t.idByAddr[out[i].service.ip]].ToAddress()
    ensures forall i, j :: 0 <= i < j < |out| ==> out[i].service.ip != out[j].service.ip
  {
    SizeIsBounded(env, t);
    forall i | 0 <= i < |out|
      ensures t'.order[i] in t.infos
      ensures out[i].service.ip in t.idByAddr && t.idByAddr[out[i].service.ip] == t'.order[i]
      ensures out[i] == t.infos[t'.order[i]].ToAddress()
    {
      var id := t'.order[i];
      assert id in t'.infos;
      assert id in t.infos;
    }
  }
}
