/** What the operations of the address manager do to records and buckets, told by the fields of the records and
    by literal times, whatever is drawn. */
module AddrEffects {
  import opened Arithmetic
  import opened AddrTypes
  import opened AddrTables
  import opened AddrSteps
  import opened AddrRuns

  // ----- which entry of a full bucket goes -----

  predicate TriedLately(info: AddrInfo, now: int) {
    info.lastTry != 0 && now - 60 <= info.lastTry
  }

  /** Never seen or not for two months, ahead of the clock, three attempts and no success, or twenty and none in a
      week. */
  predicate Hopeless(info: AddrInfo, now: int) {
    || info.time == 0 || info.time > now + 600 || info.time < now - 60 * 24 * 60 * 60
    || (info.lastSuccess == 0 && info.attempts >= 3)
    || (info.lastSuccess < now - 7 * 24 * 60 * 60 && info.attempts >= 20)
  }

  /** While the bucket holds a hopeless entry that was not tried lately, the one that goes is the first of these. */
  ghost predicate GoesFirst(infos: map<int, AddrInfo>, bucket: set<int>, now: int, victim: int)
    requires forall id :: id in bucket ==> id in infos
  {
    && victim in bucket
    && forall id :: id in bucket && Hopeless(infos[id], now) && !TriedLately(infos[id], now) ==>
         Hopeless(infos[victim], now) && !TriedLately(infos[victim], now) && victim <= id
  }

  lemma EvictableGoesFirst(t: Tables, b: int, now: int, victim: int)
    requires 0 <= b < |t.newBuckets| && forall id :: id in t.newBuckets[b] ==> id in t.infos
    requires Evictable(t, b, now, victim)
    ensures GoesFirst(t.infos, t.newBuckets[b], now, victim)
  {
    forall id | id in t.newBuckets[b]
      ensures t.infos[id].Expendable(now) <==> Hopeless(t.infos[id], now) && !TriedLately(t.infos[id], now)
    {
    }
  }

  /** Except for one entry the records are the same, up to positions. */
  ghost predicate OthersSame(infos: map<int, AddrInfo>, infos': map<int, AddrInfo>, a: int) {
    forall k :: k != a ==> (k in infos <==> k in infos') && (k in infos ==> SameButPosition(infos[k], infos'[k]))
  }

  /** One entry of bucket b has made room for another: it has lost one reference, or was forgotten with its last. */
  ghost predicate MadeRoom(t: Tables, b: int, victim: int, id: int, t': Tables)
    requires 0 <= b < |t.newBuckets| && victim in t.infos
  {
    && t'.newBuckets == t.newBuckets[b := t.newBuckets[b] - {victim} + {id}]
    && OthersSame(t.infos, t'.infos, victim)
    && (if t.infos[victim].refCount == 1 then victim !in t'.infos
        else victim in t'.infos && t'.infos[victim] == t.infos[victim].(refCount := t.infos[victim].refCount - 1))
  }

  lemma ReplacedMakesRoom(t: Tables, b: int, victim: int, id: int)
    requires Ordered(t.infos, t.order) && Indexed(t.infos, t.idByAddr) && 0 <= b < |t.newBuckets|
    requires victim in t.infos && id in t.infos && victim != id
    ensures MadeRoom(t, b, victim, id, Replaced(t, b, victim, id))
  {
    if t.infos[victim].refCount == 1 {
      var t1 := t.(infos := Recounted(t.infos, victim, 0));
      RecountedKeeps(t.infos, t.idByAddr, t.order, victim, 0);
      ForgottenKeeps(t1, victim);
    }
  }

  /** An entry has entered bucket b, beside the others if there was room, or else instead of the one that goes first. */
  ghost predicate Entered(t: Tables, b: int, id: int, now: int, t': Tables)
    requires 0 <= b < |t.newBuckets| && forall k :: k in t.newBuckets[b] ==> k in t.infos
  {
    if |t.newBuckets[b]| < 64 then
      t'.newBuckets == t.newBuckets[b := t.newBuckets[b] + {id}] && t'.infos == t.infos
    else exists victim ::
      GoesFirst(t.infos, t.newBuckets[b], now, victim) && victim != id && MadeRoom(t, b, victim, id, t')
  }

  lemma PlacedHasEntered(env: Env, t: Tables, b: int, id: int, now: int, t': Tables)
    requires StructuredBut(env, t, id) && id in t.infos && 0 <= b < |t.newBuckets| && id !in t.newBuckets[b]
    requires Places(env, t, b, id, now, t')
    ensures Entered(t, b, id, now, t')
  {
    if |t.newBuckets[b]| >= NEW_BUCKET_SIZE {
      var victim :| Evictable(t, b, now, victim) && t' == Replaced(t, b, victim, id);
      EvictableGoesFirst(t, b, now, victim);
      ReplacedMakesRoom(t, b, victim, id);
    }
  }

  // ----- Add -----

  /** The bucket for an address and who announced it: 32 of the 256 for one group of sources, chosen by both groups. */
  function SourceBucket(env: Env, key: Bytes, ip: NetAddr, source: NetAddr): nat {
    var first := env.hash([Data(key), Data(env.group(ip)), Data(env.group(source))]);
    env.hash([Data(key), Data(env.group(source)), Number(first % 32)]) % 256
  }

  /** An unknown routable address becomes an entry with a fresh record and one reference. */
  lemma AddCreates(env: Env, t: Tables, addr: Address, source: NetAddr, penalty: int, now: int, t': Tables,
                   added: bool)
    requires Structured(env, t) && AddStep(env, t, addr, source, penalty, now, t', added)
    requires env.routable(addr.service.ip) && addr.service.ip !in t.idByAddr
    ensures added
    ensures var info := AddrInfo(addr.service, addr.services, Max(0, addr.time - penalty) % 0x1_0000_0000, 0, source,
                                 0, 0, 1, false, |t.order|);
      var b := SourceBucket(env, t.key, addr.service.ip, source);
      && b < |t.newBuckets|
      && var t2 := t.(infos := t.infos[t.idCount := info]);
         (forall k :: k in t.newBuckets[b] ==> k in t2.infos) && Entered(t2, b, t.idCount, now, t')
  {
    var created := UnknownEnters(env, t, addr, source, penalty, now, t');
    var t2 := t.(infos := t.infos[t.idCount := created.infos[t.idCount]]);
    EnteredAlike(created, t2, NewBucket(env, t.key, addr.service.ip, source), t.idCount, now, t');
  }

  lemma UnknownEnters(env: Env, t: Tables, addr: Address, source: NetAddr, penalty: int, now: int, t': Tables)
    returns (created: Tables)
    requires Structured(env, t) && addr.service.ip !in t.idByAddr
    requires AddUnknownStep(env, t, addr, source, penalty, now, t')
    ensures created == Created(t, addr, source, Max(0, addr.time - penalty) % 0x1_0000_0000)
    ensures var b := NewBucket(env, t.key, addr.service.ip, source);
      && b < |created.newBuckets| && (forall k :: k in created.newBuckets[b] ==> k in created.infos)
      && Entered(created, b, t.idCount, now, t')
  {
    var time := ToU32(Max(0, addr.time - penalty));
    var b := NewBucket(env, t.key, addr.service.ip, source);
    created := Created(t, addr, source, time);
    CreatedKeeps(env, t, addr, source, time);
    CreatedIsNowhere(env, t, b);
    PlacedHasEntered(env, created, b, t.idCount, now, t');
  }

  /** Only records and new buckets matter to that. */
  lemma EnteredAlike(t1: Tables, t2: Tables, b: int, id: int, now: int, t': Tables)
    requires t1.infos == t2.infos && t1.newBuckets == t2.newBuckets
    requires 0 <= b < |t1.newBuckets| && (forall k :: k in t1.newBuckets[b] ==> k in t1.infos)
    requires Entered(t1, b, id, now, t')
    ensures Entered(t2, b, id, now, t')
  {
    if |t1.newBuckets[b]| >= 64 {
      var victim :| GoesFirst(t1.infos, t1.newBuckets[b], now, victim) && victim != id
        && MadeRoom(t1, b, victim, id, t');
      assert MadeRoom(t2, b, victim, id, t');
    }
  }

  /** The time of a known entry moves when the announced one is later by an hour, or a day for addresses not online,
      and the penalty; services are added. */
  function Announced(info: AddrInfo, addr: Address, penalty: int, now: int): AddrInfo {
    var ahead := addr.time - info.time;
    var moves := addr.time != 0 &&
      (info.time == 0 || ahead > penalty + if addr.time > now - 24 * 60 * 60 then 60 * 60 else 24 * 60 * 60);
    info.(time := if moves then Max(0, addr.time - penalty) % 0x1_0000_0000 else info.time,
          services := info.services + addr.services)
  }

  /** A known routable address is refreshed. If it was announced with a later time than it then has, is in the new
      table with fewer than four references and not in the bucket of this source, one of the 2^N draws for its N
      references puts it there. */
  lemma AddRefreshes(env: Env, t: Tables, addr: Address, source: NetAddr, penalty: int, now: int, t': Tables,
                     added: bool)
    returns (draw: nat)
    requires Structured(env, t) && AddStep(env, t, addr, source, penalty, now, t', added)
    requires env.routable(addr.service.ip) && addr.service.ip in t.idByAddr
    ensures !added && t.idByAddr[addr.service.ip] in t.infos
    ensures var id := t.idByAddr[addr.service.ip];
      var info, b := Announced(t.infos[id], addr, penalty, now), SourceBucket(env, t.key, addr.service.ip, source);
      && info.refCount >= 0 && draw < Pow2(info.refCount)
      && MembersKnown(t.infos, t.newBuckets)
      && if addr.time != 0 && (info.time == 0 || info.time < addr.time)
            && !info.inTried && info.refCount < 4 && id !in t.newBuckets[b] && draw == 0
         then TookBucket(t, id, info, b, now, t')
         else t' == t.(infos := t.infos[id := info])
  {
    var id := t.idByAddr[addr.service.ip];
    draw := KnownEnters(env, t, id, addr, source, penalty, now, t');
    AnnouncedIsRefreshed(t.infos[id], addr, penalty, now);
    Referenced(t.infos, t.newBuckets, id);
  }

  lemma KnownEnters(env: Env, t: Tables, id: int, addr: Address, source: NetAddr, penalty: int, now: int, t': Tables)
    returns (draw: nat)
    requires Structured(env, t) && id in t.infos && AddKnownStep(env, t, id, addr, source, penalty, now, t')
    ensures var info, b := Refreshed(t.infos[id], addr, penalty, now), NewBucket(env, t.key, addr.service.ip, source);
      && info.refCount >= 0 && draw < Pow2(info.refCount) && MembersKnown(t.infos, t.newBuckets)
      && if !Settles(info, addr) && draw == 0 && id !in t.newBuckets[b] then TookBucket(t, id, info, b, now, t')
         else t' == t.(infos := t.infos[id := info])
  {
    var b := NewBucket(env, t.key, addr.service.ip, source);
    var info, luck, more := AddKnownCases(env, t, id, addr, source, penalty, now, t');
    draw := luck;
    Referenced(t.infos, t.newBuckets, id);
    if more { TakesAnother(env, t, id, info, b, now, t'); }
  }

  ghost predicate MembersKnown(infos: map<int, AddrInfo>, buckets: seq<set<int>>) {
    |buckets| == NEW_BUCKET_COUNT && forall b, k :: 0 <= b < |buckets| && k in buckets[b] ==> k in infos
  }

  /** With one more reference, the entry has entered bucket b. */
  ghost predicate TookBucket(t: Tables, id: int, info: AddrInfo, b: int, now: int, t': Tables)
    requires MembersKnown(t.infos, t.newBuckets) && 0 <= b < 256
  {
    Entered(t.(infos := t.infos[id := info.(refCount := info.refCount + 1)]), b, id, now, t')
  }

  lemma TakesAnother(env: Env, t: Tables, id: int, info: AddrInfo, b: int, now: int, t': Tables)
    requires MembersKnown(t.infos, t.newBuckets) && 0 <= b < 256 && id in t.infos && id !in t.newBuckets[b]
    requires StructuredBut(env, Restated(t, id, info.(refCount := info.refCount + 1)), id)
    requires Places(env, Restated(t, id, info.(refCount := info.refCount + 1)), b, id, now, t')
    ensures TookBucket(t, id, info, b, now, t')
  {
    PlacedHasEntered(env, Restated(t, id, info.(refCount := info.refCount + 1)), b, id, now, t');
  }

  lemma AnnouncedIsRefreshed(info: AddrInfo, addr: Address, penalty: int, now: int)
    ensures Announced(info, addr, penalty, now) == Refreshed(info, addr, penalty, now)
  {
  }

  lemma Referenced(infos: map<int, AddrInfo>, buckets: seq<set<int>>, id: int)
    requires NewPlaced(infos, buckets, -1) && id in infos && id != -1
    ensures 0 <= infos[id].refCount <= 4 && (infos[id].inTried <==> infos[id].refCount == 0)
    ensures MembersKnown(infos, buckets)
  {
  }

  // ----- Good -----

  /** The tried bucket for a service: four of the 64 for one group, chosen by the service. */
  function ServiceBucket(env: Env, key: Bytes, service: Service): nat {
    var first := env.hash([Data(key), Data(env.serviceKey(service))]);
    env.hash([Data(key), Data(env.group(service.ip)), Number(first % 4)]) % 64
  }

  /** Entry id has entered tried bucket k, which had room. */
  ghost predicate MovedIn(t: Tables, id: int, k: int, t': Tables)
    requires 0 <= k < |t.triedBuckets|
  {
    && t'.triedBuckets == t.triedBuckets[k := t.triedBuckets[k] + [id]]
    && Holders(t'.newBuckets, id) == {}
    && (forall i :: i != id ==> Holders(t'.newBuckets, i) == Holders(t.newBuckets, i))
    && t'.infos - {id} == t.infos - {id}
  }

  /** Entry id has replaced another one in tried bucket k, which is new again and stands in one new bucket. */
  ghost predicate MovedFor(t: Tables, id: int, k: int, evicted: int, dest: int, t': Tables)
    requires 0 <= k < |t.triedBuckets|
  {
    && evicted in t.triedBuckets[k] && evicted in t.infos && evicted in t'.infos && evicted != id
    && |t'.triedBuckets| == |t.triedBuckets|
    && (forall c :: 0 <= c < |t.triedBuckets| && c != k ==> t'.triedBuckets[c] == t.triedBuckets[c])
    && multiset(t'.triedBuckets[k]) == multiset(t.triedBuckets[k]) - multiset{evicted} + multiset{id}
    && t'.infos[evicted] == t.infos[evicted].(inTried := false, refCount := 1)
    && t'.infos - {id, evicted} == t.infos - {id, evicted}
    && Holders(t'.newBuckets, id) == {} && Holders(t'.newBuckets, evicted) == {dest}
    && (forall i :: i != id && i != evicted ==> Holders(t'.newBuckets, i) == Holders(t.newBuckets, i))
  }

  lemma SettledMovesIn(t: Tables, id: int, k: int)
    requires id in t.infos && 0 <= k < |t.triedBuckets|
    ensures MovedIn(t, id, k, Settled(Uprooted(t, id), id, k))
  {
    EmptiedHolders(t.newBuckets, id);
  }

  lemma ReturnedHolders(buckets: seq<set<int>>, id: int, evicted: int, dest: int)
    requires 0 <= dest < |buckets| && evicted != id && Holders(buckets, evicted) == {}
    ensures var buckets' := Emptied(buckets, id)[dest := Emptied(buckets, id)[dest] + {evicted}];
      && Holders(buckets', id) == {} && Holders(buckets', evicted) == {dest}
      && forall i :: i != id && i != evicted ==> Holders(buckets', i) == Holders(buckets, i)
  {
    EmptiedHolders(buckets, id);
    var emptied := Emptied(buckets, id);
    assert evicted !in emptied[dest] by { assert dest !in Holders(emptied, evicted); }
    HoldersAfterInsert(emptied, dest, evicted);
    var buckets' := emptied[dest := emptied[dest] + {evicted}];
    forall c ensures c in Holders(buckets', evicted) <==> c == dest {
      assert c !in Holders(emptied, evicted);
    }
  }

  lemma ExchangedRecords(infos: map<int, AddrInfo>, id: int, evicted: int)
    requires id in infos && evicted in infos && id != evicted
    ensures var u := Recounted(infos, id, 0);
      var v := u[evicted := u[evicted].(inTried := false, refCount := 1)];
      var w := v[id := v[id].(inTried := true)];
      && w[evicted] == infos[evicted].(inTried := false, refCount := 1)
      && w - {id, evicted} == infos - {id, evicted}
  {
  }

  lemma ExchangedMovesFor(t: Tables, id: int, k: int, bucket: seq<int>, pos: int, dest: int)
    requires id in t.infos && 0 <= k < |t.triedBuckets| && 0 <= pos < |bucket| && bucket[pos] in t.infos
    requires multiset(bucket) == multiset(t.triedBuckets[k]) && bucket[pos] != id && 0 <= dest < |t.newBuckets|
    requires Holders(t.newBuckets, bucket[pos]) == {}
    ensures MovedFor(t, id, k, bucket[pos], dest, Exchanged(Uprooted(t, id), id, k, bucket, pos, dest))
  {
    PermutationFacts(bucket, t.triedBuckets[k]);
    ReturnedHolders(t.newBuckets, id, bucket[pos], dest);
    ExchangedRecords(t.infos, id, bucket[pos]);
  }

  /** Tried entries are in no new bucket. */
  lemma TriedHasNoHolders(infos: map<int, AddrInfo>, buckets: seq<set<int>>, id: int)
    requires NewPlaced(infos, buckets, -1) && id in infos && id != -1 && infos[id].inTried
    ensures Holders(buckets, id) == {}
  {
  }

  /** A new entry that has been connected to leaves all new buckets for its tried bucket. If that holds 64, one of
      its entries makes room and becomes new again, with one reference: in the bucket of its own source if this has
      room, counted without the entry that leaves, or else in one that the entry leaves. */
  lemma GoodMoves(env: Env, t: Tables, service: Service, time: int, t': Tables) returns (evicted: int, origin: int)
    requires Structured(env, t) && GoodStep(env, t, service, time, t') && Knows(t, service)
    requires !t.infos[t.idByAddr[service.ip]].inTried
    ensures var id, k := t.idByAddr[service.ip], ServiceBucket(env, t.key, service);
      && k < |t.triedBuckets|
      && if |t.triedBuckets[k]| < 64 then MovedIn(t, id, k, t')
         else
           && 0 <= origin < |t.newBuckets| && id in t.newBuckets[origin] && evicted in t.infos
           && var home := SourceBucket(env, t.key, t.infos[evicted].service.ip, t.infos[evicted].source);
              && home < |t.newBuckets|
              && MovedFor(t, id, k, evicted, if |t.newBuckets[home] - {id}| < 64 then home else origin, t')
  {
    var id := t.idByAddr[service.ip];
    var info := Succeeded(t.infos[id], time);
    RestatedKeeps(env, t, id, info);
    origin :| 0 <= origin < |t.newBuckets| && id in t.newBuckets[origin] &&
      MakeTriedStep(env, Restated(t, id, info), id, origin, t');
    evicted := SucceededMoves(env, t, id, info, service, origin, t');
  }

  lemma SucceededMoves(env: Env, t: Tables, id: int, info: AddrInfo, service: Service, origin: int, t': Tables)
    returns (evicted: int)
    requires Structured(env, t) && id in t.infos && !info.inTried && info.service == service
    requires SamePlace(t.infos[id], info) && Structured(env, Restated(t, id, info)) && 0 <= origin < |t.newBuckets|
    requires MakeTriedStep(env, Restated(t, id, info), id, origin, t')
    ensures var k := TriedBucket(env, t.key, service);
      && k < |t.triedBuckets|
      && if |t.triedBuckets[k]| < 64 then MovedIn(t, id, k, t')
         else
           && evicted in t.infos
           && var home := NewBucket(env, t.key, t.infos[evicted].service.ip, t.infos[evicted].source);
              && home < |t.newBuckets|
              && MovedFor(t, id, k, evicted, if |t.newBuckets[home] - {id}| < 64 then home else origin, t')
  {
    var k, u := TriedBucket(env, t.key, service), Restated(t, id, info);
    evicted := -1;
    if |t.triedBuckets[k]| < TRIED_BUCKET_SIZE {
      SettledMovesIn(u, id, k);
      RestatedMovesIn(t, id, info, k, t');
    } else {
      evicted := MadeTried(env, u, id, origin, t');
      var home := NewBucket(env, t.key, t.infos[evicted].service.ip, t.infos[evicted].source);
      RestatedMovesFor(t, id, info, k, evicted, if |t.newBuckets[home] - {id}| < 64 then home else origin, t');
    }
  }

  lemma RestatedMovesIn(t: Tables, id: int, info: AddrInfo, k: int, t': Tables)
    requires id in t.infos && 0 <= k < |t.triedBuckets| && MovedIn(Restated(t, id, info), id, k, t')
    ensures MovedIn(t, id, k, t')
  {
    assert t.infos[id := info] - {id} == t.infos - {id};
  }

  lemma RestatedMovesFor(t: Tables, id: int, info: AddrInfo, k: int, evicted: int, dest: int, t': Tables)
    requires id in t.infos && 0 <= k < |t.triedBuckets|
    requires MovedFor(Restated(t, id, info), id, k, evicted, dest, t')
    ensures MovedFor(t, id, k, evicted, dest, t')
  {
    assert t.infos[id := info] - {id, evicted} == t.infos - {id, evicted};
  }

  lemma MadeTried(env: Env, t: Tables, id: int, origin: int, t': Tables) returns (evicted: int)
    requires NewPlaced(t.infos, t.newBuckets, -1) && TriedPlaced(env, t.key, t.infos, t.triedBuckets) && -1 !in t.infos
    requires id in t.infos && !t.infos[id].inTried && 0 <= origin < |t.newBuckets|
    requires |t.triedBuckets[TriedBucket(env, t.key, t.infos[id].service)]| >= TRIED_BUCKET_SIZE
    requires MakeTriedStep(env, t, id, origin, t')
    ensures evicted in t.infos && evicted != id
    ensures var home := NewBucket(env, t.key, t.infos[evicted].service.ip, t.infos[evicted].source);
      MovedFor(t, id, TriedBucket(env, t.key, t.infos[id].service), evicted,
               if |t.newBuckets[home] - {id}| < NEW_BUCKET_SIZE then home else origin, t')
  {
    var k := TriedBucket(env, t.key, t.infos[id].service);
    var bucket, pos := ExchangeOf(env, t, id, origin, t');
    evicted := bucket[pos];
    BucketHoldsTried(env, t.key, t.infos, t.triedBuckets, k, bucket, pos);
    TriedHasNoHolders(t.infos, t.newBuckets, evicted);
    ExchangedMovesFor(t, id, k, bucket, pos, ReturnBucket(env, Uprooted(t, id), evicted, origin));
  }

  // ----- statistics -----

  /** Attempt, Connected, and Good for an entry that is tried already change one record and nothing else. */
  lemma OnlyStatistics(env: Env, t: Tables, op: Op, t': Tables)
    requires Structured(env, t) && Step(env, t, op, t') && !op.Add? && !op.GetAddr? && Knows(t, op.service)
    requires op.Good? ==> t.infos[t.idByAddr[op.service.ip]].inTried
    ensures var id := t.idByAddr[op.service.ip];
      var info, seconds := t.infos[id], op.time % 0x1_0000_0000;
      t' == t.(infos := t.infos[id := match op
        case Attempt(_, time) => info.(lastTry := time, attempts := info.attempts + 1)
        case Connected(_, time) => if time - info.time > 1200 then info.(time := seconds) else info
        case _ => info.(lastSuccess := op.time, lastTry := op.time, attempts := 0, time := seconds)])
  {
    var id := t.idByAddr[op.service.ip];
    assert t.infos[id := t.infos[id]] == t.infos;
  }
}
