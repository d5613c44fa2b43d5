/** When the times in the records of the address manager stay in order: the operations keep them exactly if the
    times they are given do. */
module AddrDates {
  import opened Arithmetic
  import opened AddrTypes
  import opened AddrTables
  import opened AddrSteps
  import opened AddrRuns

  /** Every record is one of before, as far as its dates go, or that of an entry nobody has tried. */
  ghost predicate Undisturbed(infos: map<int, AddrInfo>, infos': map<int, AddrInfo>) {
    forall id :: id in infos' ==> KeepsDates(infos, id, infos'[id])
  }

  ghost predicate KeepsDates(infos: map<int, AddrInfo>, id: int, info: AddrInfo) {
    || (info.lastTry == 0 && info.lastSuccess == 0 && !info.inTried)
    || (id in infos && info.lastTry == infos[id].lastTry && info.lastSuccess == infos[id].lastSuccess
        && info.inTried == infos[id].inTried)
  }

  lemma UndisturbedTwice(a: map<int, AddrInfo>, b: map<int, AddrInfo>, c: map<int, AddrInfo>)
    requires Undisturbed(a, b) && Undisturbed(b, c)
    ensures Undisturbed(a, c)
  {
    forall id | id in c ensures KeepsDates(a, id, c[id]) {
      assert KeepsDates(b, id, c[id]);
      if id in b { assert KeepsDates(a, id, b[id]); }
    }
  }

  lemma UndisturbedIsDated(infos: map<int, AddrInfo>, infos': map<int, AddrInfo>)
    requires Undisturbed(infos, infos') && Dated(infos)
    ensures Dated(infos')
  {
    forall id | id in infos'
      ensures infos'[id].lastTry >= 0 && infos'[id].lastSuccess >= 0
      ensures infos'[id].inTried ==> infos'[id].lastSuccess != 0
    {
      assert KeepsDates(infos, id, infos'[id]);
    }
  }

  lemma AlikeIsUndisturbed(infos: map<int, AddrInfo>, infos': map<int, AddrInfo>)
    requires SameButPositions(infos, infos')
    ensures Undisturbed(infos, infos')
  {
  }

  lemma UnreferencedUndisturbed(t: Tables, b: int, id: int)
    requires Ordered(t.infos, t.order) && Indexed(t.infos, t.idByAddr) && id in t.infos && 0 <= b < |t.newBuckets|
    ensures Undisturbed(t.infos, Unreferenced(t, b, id).infos)
  {
    if t.infos[id].refCount == 1 {
      var t1 := t.(infos := Recounted(t.infos, id, 0));
      RecountedKeeps(t.infos, t.idByAddr, t.order, id, 0);
      ForgottenKeeps(t1, id);
      AlikeIsUndisturbed(t1.infos - {id}, Forgotten(t1, id).infos);
      UndisturbedTwice(t.infos, t1.infos - {id}, Forgotten(t1, id).infos);
    }
  }

  lemma PlacesUndisturbed(env: Env, t: Tables, b: int, id: int, now: int, t': Tables)
    requires Indexed(t.infos, t.idByAddr) && Ordered(t.infos, t.order) && 0 <= b < |t.newBuckets|
    requires (forall k :: k in t.newBuckets[b] ==> k in t.infos) && Places(env, t, b, id, now, t')
    ensures Undisturbed(t.infos, t'.infos)
  {
    if |t.newBuckets[b]| >= NEW_BUCKET_SIZE {
      var victim := VictimOf(env, t, b, id, now, t');
      UnreferencedUndisturbed(t, b, victim);
    }
  }

  lemma AddUndisturbed(env: Env, t: Tables, addr: Address, source: NetAddr, penalty: int, now: int, t': Tables,
                       added: bool)
    requires Structured(env, t) && AddStep(env, t, addr, source, penalty, now, t', added)
    ensures Undisturbed(t.infos, t'.infos)
  {
    var ip := addr.service.ip;
    if env.routable(ip) {
      if ip in t.idByAddr {
        AddKnownUndisturbed(env, t, t.idByAddr[ip], addr, source, penalty, now, t');
      } else {
        AddUnknownUndisturbed(env, t, addr, source, penalty, now, t');
      }
    }
  }

  lemma RewrittenUndisturbed(infos: map<int, AddrInfo>, id: int, info: AddrInfo)
    requires id in infos && KeepsDates(infos, id, info)
    ensures Undisturbed(infos, infos[id := info])
  {
  }

  lemma AddKnownUndisturbed(env: Env, t: Tables, id: int, addr: Address, source: NetAddr, penalty: int, now: int,
                            t': Tables)
    requires Structured(env, t) && id in t.infos && AddKnownStep(env, t, id, addr, source, penalty, now, t')
    ensures Undisturbed(t.infos, t'.infos)
  {
    var info, draw, more := AddKnownCases(env, t, id, addr, source, penalty, now, t');
    RewrittenUndisturbed(t.infos, id, info);
    if more {
      var t2 := Restated(t, id, info.(refCount := info.refCount + 1));
      RewrittenUndisturbed(t.infos, id, t2.infos[id]);
      PlacesUndisturbed(env, t2, NewBucket(env, t.key, addr.service.ip, source), id, now, t');
      UndisturbedTwice(t.infos, t2.infos, t'.infos);
    }
  }

  lemma AddUnknownUndisturbed(env: Env, t: Tables, addr: Address, source: NetAddr, penalty: int, now: int, t': Tables)
    requires Structured(env, t) && addr.service.ip !in t.idByAddr
    requires AddUnknownStep(env, t, addr, source, penalty, now, t')
    ensures Undisturbed(t.infos, t'.infos)
  {
    var time := ToU32(Max(0, addr.time - penalty));
    var t2 := Created(t, addr, source, time);
    CreatedKeeps(env, t, addr, source, time);
    PlacesUndisturbed(env, t2, NewBucket(env, t.key, addr.service.ip, source), t.idCount, now, t');
    UndisturbedTwice(t.infos, t2.infos, t'.infos);
  }

  // ----- the operations that state times -----

  /** Records other than id's keep their dates, and none has become tried. */
  ghost predicate OthersKeepDates(infos: map<int, AddrInfo>, id: int, infos': map<int, AddrInfo>) {
    && infos'.Keys == infos.Keys
    && forall k :: k in infos && k != id ==>
         && infos'[k].lastTry == infos[k].lastTry && infos'[k].lastSuccess == infos[k].lastSuccess
         && (infos'[k].inTried ==> infos[k].inTried)
  }

  lemma OthersAreDated(infos: map<int, AddrInfo>, id: int, infos': map<int, AddrInfo>)
    requires Dated(infos) && OthersKeepDates(infos, id, infos') && id in infos
    ensures Dated(infos') <==>
      (infos'[id].lastTry >= 0 && infos'[id].lastSuccess >= 0 && (infos'[id].inTried ==> infos'[id].lastSuccess != 0))
  {
  }

  lemma MakeTriedOthers(env: Env, t: Tables, id: int, origin: int, t': Tables)
    requires id in t.infos && |t.triedBuckets| == TRIED_BUCKET_COUNT
    requires 0 <= origin < |t.newBuckets| == NEW_BUCKET_COUNT && MakeTriedStep(env, t, id, origin, t')
    ensures OthersKeepDates(t.infos, id, t'.infos)
  {
    if |t.triedBuckets[TriedBucket(env, t.key, t.infos[id].service)]| >= TRIED_BUCKET_SIZE {
      var bucket, pos := ExchangeOf(env, t, id, origin, t');
      ExchangedOthers(t.infos, id, bucket[pos]);
    } else {
      SettledOthers(t.infos, id);
    }
  }

  lemma SettledOthers(infos: map<int, AddrInfo>, id: int)
    requires id in infos
    ensures var u := Recounted(infos, id, 0); OthersKeepDates(infos, id, u[id := u[id].(inTried := true)])
  {
  }

  lemma ExchangedOthers(infos: map<int, AddrInfo>, id: int, ev: int)
    requires id in infos && ev in infos
    ensures var u := Recounted(infos, id, 0); var v := u[ev := u[ev].(inTried := false, refCount := 1)];
      OthersKeepDates(infos, id, v[id := v[id].(inTried := true)])
  {
  }

  lemma GoodOthers(env: Env, t: Tables, service: Service, time: int, t': Tables)
    requires Structured(env, t) && GoodStep(env, t, service, time, t') && Knows(t, service)
    ensures OthersKeepDates(t.infos, t.idByAddr[service.ip], t'.infos)
  {
    var id := t.idByAddr[service.ip];
    if !t.infos[id].inTried {
      var t1 := Restated(t, id, Succeeded(t.infos[id], time));
      var origin :|
        0 <= origin < |t.newBuckets| && id in t.newBuckets[origin] && MakeTriedStep(env, t1, id, origin, t');
      MakeTriedOthers(env, t1, id, origin, t');
    }
  }

  lemma GoodDates(env: Env, t: Tables, service: Service, time: int, t': Tables)
    requires Consistent(env, t) && GoodStep(env, t, service, time, t')
    ensures Dated(t'.infos) <==> time > 0 || !Knows(t, service)
  {
    if Knows(t, service) {
      var id := t.idByAddr[service.ip];
      GoodMakesTried(env, t, service, time, t');
      GoodOthers(env, t, service, time, t');
      OthersAreDated(t.infos, id, t'.infos);
    }
  }

  lemma AttemptDates(env: Env, t: Tables, service: Service, time: int, t': Tables)
    requires Consistent(env, t) && AttemptStep(t, service, time, t')
    ensures Dated(t'.infos) <==> time >= 0 || !Knows(t, service)
  {
    if Knows(t, service) { OthersAreDated(t.infos, t.idByAddr[service.ip], t'.infos); }
  }

  // ----- all operations -----

  /** The time that an operation states is one that a record may hold; it does not matter for an unknown service. */
  ghost predicate Fits(t: Tables, op: Op) {
    && (op.Good? ==> op.time > 0 || !Knows(t, op.service))
    && (op.Attempt? ==> op.time >= 0 || !Knows(t, op.service))
  }

  /** A step leaves consistent tables exactly when its time fits. */
  lemma StepKeepsExactly(env: Env, t: Tables, op: Op, t': Tables)
    requires Consistent(env, t) && Step(env, t, op, t')
    ensures Consistent(env, t') <==> Fits(t, op)
  {
    StepKeeps(env, t, op, t');
    match op
    case Add(addr, source, penalty, now) =>
      var added :| AddStep(env, t, addr, source, penalty, now, t', added);
      AddUndisturbed(env, t, addr, source, penalty, now, t', added);
      UndisturbedIsDated(t.infos, t'.infos);
    case Good(service, time) => GoodDates(env, t, service, time, t');
    case Attempt(service, time) => AttemptDates(env, t, service, time, t');
    case Connected(service, time) => UndisturbedIsDated(t.infos, t'.infos);
    case GetAddr =>
      var out :| GetAddrStep(t, out, t');
      AlikeIsUndisturbed(t.infos, t'.infos);
      UndisturbedIsDated(t.infos, t'.infos);
  }

  /** Times as a clock gives them. */
  predicate Timely(op: Op) {
    (op.Good? ==> op.time > 0) && (op.Attempt? ==> op.time >= 0)
  }

  /** Every state of every run with such times is consistent. */
  lemma {:induction false} RunsAreConsistent(env: Env, key: Bytes, ops: seq<Op>, states: seq<Tables>, i: nat)
    requires Run(env, key, ops, states) && i < |states|
    requires forall k :: 0 <= k < |ops| ==> Timely(ops[k])
    ensures Consistent(env, states[i])
  {
    if i == 0 {
      EmptyIsConsistent(env, key);
    } else {
      RunsAreConsistent(env, key, ops, states, i - 1);
      StepKeepsExactly(env, states[i - 1], ops[i - 1], states[i]);
    }
  }

  // ----- runs with other times -----

  /** The tables after a first address has been added. */
  function AddedFirst(env: Env, key: Bytes, addr: Address, source: NetAddr, penalty: int): Tables {
    var time := ToU32(Max(0, addr.time - penalty));
    Inserted(Created(EmptyTables(key), addr, source, time), NewBucket(env, key, addr.service.ip, source), 0)
  }

  lemma FirstIsAdded(env: Env, key: Bytes, addr: Address, source: NetAddr, penalty: int, now: int)
    requires env.routable(addr.service.ip)
    ensures var t := AddedFirst(env, key, addr, source, penalty);
      && Step(env, EmptyTables(key), Add(addr, source, penalty, now), t) && Consistent(env, t)
      && t.idByAddr == map[addr.service.ip := 0] && Knows(t, addr.service) && !t.infos[0].inTried
      && 0 in t.newBuckets[NewBucket(env, key, addr.service.ip, source)]
      && t.triedBuckets == EmptyTables(key).triedBuckets
  {
    var t0, t := EmptyTables(key), AddedFirst(env, key, addr, source, penalty);
    EmptyIsConsistent(env, key);
    assert AddUnknownStep(env, t0, addr, source, penalty, now, t);
    AddIsStep(env, t0, addr, source, penalty, now, t, true);
    StepKeepsExactly(env, t0, Add(addr, source, penalty, now), t);
  }

  lemma TwoSteps(env: Env, key: Bytes, a: Op, b: Op, t: Tables, t': Tables)
    requires Step(env, EmptyTables(key), a, t) && Step(env, t, b, t')
    ensures Run(env, key, [a, b], [EmptyTables(key), t, t'])
  {
  }

  /** An address is added and connected to at time 0: it is a tried entry without a success. */
  lemma GoodAtZero(env: Env, key: Bytes, addr: Address, source: NetAddr, penalty: int, now: int)
    returns (states: seq<Tables>)
    requires env.routable(addr.service.ip)
    ensures Run(env, key, [Add(addr, source, penalty, now), Good(addr.service, 0)], states)
    ensures Structured(env, states[2]) && !Dated(states[2].infos)
  {
    var t := AddedFirst(env, key, addr, source, penalty);
    FirstIsAdded(env, key, addr, source, penalty, now);
    var u := Restated(t, 0, Succeeded(t.infos[0], 0));
    var t' := Settled(Uprooted(u, 0), 0, TriedBucket(env, key, u.infos[0].service));
    assert MakeTriedStep(env, u, 0, NewBucket(env, key, addr.service.ip, source), t');
    assert GoodStep(env, t, addr.service, 0, t');
    StepKeeps(env, t, Good(addr.service, 0), t');
    GoodDates(env, t, addr.service, 0, t');
    TwoSteps(env, key, Add(addr, source, penalty, now), Good(addr.service, 0), t, t');
    states := [EmptyTables(key), t, t'];
  }

  /** An attempt at a time before 0. */
  lemma AttemptBeforeZero(env: Env, key: Bytes, addr: Address, source: NetAddr, penalty: int, now: int)
    returns (states: seq<Tables>)
    requires env.routable(addr.service.ip)
    ensures Run(env, key, [Add(addr, source, penalty, now), Attempt(addr.service, -1)], states)
    ensures Structured(env, states[2]) && !Dated(states[2].infos)
  {
    var t := AddedFirst(env, key, addr, source, penalty);
    FirstIsAdded(env, key, addr, source, penalty, now);
    var t' := Restated(t, 0, t.infos[0].(lastTry := -1, attempts := t.infos[0].attempts + 1));
    assert AttemptStep(t, addr.service, -1, t');
    StepKeeps(env, t, Attempt(addr.service, -1), t');
    AttemptDates(env, t, addr.service, -1, t');
    TwoSteps(env, key, Add(addr, source, penalty, now), Attempt(addr.service, -1), t, t');
    states := [EmptyTables(key), t, t'];
  }
}
