/** The records of the stochastic address manager (src/addrman.h) and the bucket hashing
    (src/addrman.cpp). The hash, the grouping of addresses into ranges and the routability
    test are parameters, gathered in Env. */
module AddrTypes {
  import opened Words

  const TRIED_BUCKET_COUNT := 64
  const TRIED_BUCKET_SIZE := 64
  const NEW_BUCKET_COUNT := 256
  const NEW_BUCKET_SIZE := 64
  const TRIED_BUCKETS_PER_GROUP := 4
  const NEW_BUCKETS_PER_SOURCE_GROUP := 32
  const NEW_BUCKETS_PER_ADDRESS := 4
  const TRIED_ENTRIES_INSPECT_ON_EVICT := 4
  const HORIZON_DAYS := 60
  const RETRIES := 3
  const MAX_FAILURES := 20
  const MIN_FAIL_DAYS := 7
  const GETADDR_MAX_PCT := 23
  const GETADDR_MAX := 2500

  type Bytes = seq<bv8>
  type NetAddr = Bytes

  /** An address with its port; the address book is keyed by the address alone. */
  datatype Service = Service(ip: NetAddr, port: bv16)

  /** services holds the numbers of the bits set in nServices. */
  datatype Address = Address(service: Service, services: set<nat>, time: int, lastTry: int)

  datatype AddrInfo = AddrInfo(
    service: Service, services: set<nat>, time: int, lastTry: int,
    source: NetAddr, lastSuccess: int, attempts: int,
    refCount: int, inTried: bool, randomPos: int)
  {
    function ToAddress(): Address { Address(service, services, time, lastTry) }

    predicate IsTerrible(now: int)
      ensures IsTerrible(now) <==> Expendable(now)
    {
      if lastTry != 0 && lastTry >= now - 60 then false
      else if time > now + 10 * 60 then true
      else if time == 0 || now - time > HORIZON_DAYS * 86400 then true
      else if lastSuccess == 0 && attempts >= RETRIES then true
      else if now - lastSuccess > MIN_FAIL_DAYS * 86400 && attempts >= MAX_FAILURES then true
      else false
    }

    /** Not tried within the last minute, and: never seen, seen in the future, not seen for sixty days, tried three
        times without any success, or twenty times without one in a week. */
    predicate Expendable(now: int) {
      && (lastTry == 0 || now - lastTry > 60)
      && (|| time == 0 || time - now > 600 || now - time > 5184000
          || (attempts >= 3 && lastSuccess == 0)
          || (attempts >= 20 && now - lastSuccess > 604800))
    }
  }

  /** The record of a freshly created entry, as CAddrInfo::Init leaves it. */
  function FreshInfo(addr: Address, source: NetAddr): AddrInfo {
    AddrInfo(addr.service, addr.services, addr.time, 0, source, 0, 0, 0, false, -1)
  }

  /** Assignment of a 64-bit value to the 32-bit field nTime. */
  function ToU32(x: int): int { x % UINT }

  /** What is written to a hash stream. */
  datatype Field = Data(bytes: Bytes) | Number(n: nat)

  datatype Env = Env(
    hash: seq<Field> -> nat,
    group: NetAddr -> Bytes,
    serviceKey: Service -> Bytes,
    routable: NetAddr -> bool)

  function TriedBucket(env: Env, key: Bytes, service: Service): (b: int)
    ensures 0 <= b < TRIED_BUCKET_COUNT
  {
    var hash1 := env.hash([Data(key), Data(env.serviceKey(service))]);
    var hash2 := env.hash([Data(key), Data(env.group(service.ip)), Number(hash1 % TRIED_BUCKETS_PER_GROUP)]);
    hash2 % TRIED_BUCKET_COUNT
  }

  function NewBucket(env: Env, key: Bytes, ip: NetAddr, source: NetAddr): (b: int)
    ensures 0 <= b < NEW_BUCKET_COUNT
  {
    var hash1 := env.hash([Data(key), Data(env.group(ip)), Data(env.group(source))]);
    var hash2 := env.hash([Data(key), Data(env.group(source)), Number(hash1 % NEW_BUCKETS_PER_SOURCE_GROUP)]);
    hash2 % NEW_BUCKET_COUNT
  }

  ghost predicate Hit<X(!new)>(f: int -> X, n: nat, x: X) {
    exists i :: 0 <= i < n && f(i) == x
  }

  lemma {:induction false} ImageBound<X(!new)>(s: set<X>, f: int -> X, n: nat)
    requires forall x :: x in s ==> Hit(f, n, x)
    ensures |s| <= n
  {
    if n == 0 {
      assert s == {};
    } else {
      var rest := s - {f(n - 1)};
      forall x | x in rest ensures Hit(f, n - 1, x) {
        var i :| 0 <= i < n && f(i) == x;
        assert 0 <= i < n - 1 && f(i) == x;
      }
      ImageBound(rest, f, n - 1);
    }
  }

  /** However many services of one address range are known, their tried buckets are at most four. */
  lemma {:induction false} GroupReachesFewTriedBuckets(env: Env, key: Bytes, group: Bytes, services: set<Service>)
    requires forall s :: s in services ==> env.group(s.ip) == group
    ensures |set s | s in services :: TriedBucket(env, key, s)| <= 4
  {
    var f := (i: int) =>
      env.hash([Data(key), Data(group), Number(if i < 0 then 0 else i)]) % TRIED_BUCKET_COUNT;
    var buckets := set s | s in services :: TriedBucket(env, key, s);
    forall b | b in buckets ensures Hit(f, TRIED_BUCKETS_PER_GROUP, b) {
      var s :| s in services && b == TriedBucket(env, key, s);
      var i := env.hash([Data(key), Data(env.serviceKey(s))]) % TRIED_BUCKETS_PER_GROUP;
      assert 0 <= i < TRIED_BUCKETS_PER_GROUP && f(i) == b;
    }
    ImageBound(buckets, f, TRIED_BUCKETS_PER_GROUP);
  }

  /** One source range can reach at most thirty-two new buckets, whatever addresses it announces. */
  lemma {:induction false} SourceReachesFewNewBuckets(env: Env, key: Bytes, group: Bytes, news: set<(NetAddr, NetAddr)>)
    requires forall p :: p in news ==> env.group(p.1) == group
    ensures |set p | p in news :: NewBucket(env, key, p.0, p.1)| <= 32
  {
    var f := (i: int) =>
      env.hash([Data(key), Data(group), Number(if i < 0 then 0 else i)]) % NEW_BUCKET_COUNT;
    var buckets := set p | p in news :: NewBucket(env, key, p.0, p.1);
    forall b | b in buckets ensures Hit(f, NEW_BUCKETS_PER_SOURCE_GROUP, b) {
      var p :| p in news && b == NewBucket(env, key, p.0, p.1);
      var i := env.hash([Data(key), Data(env.group(p.0)), Data(group)]) % NEW_BUCKETS_PER_SOURCE_GROUP;
      assert 0 <= i < NEW_BUCKETS_PER_SOURCE_GROUP && f(i) == b;
    }
    ImageBound(buckets, f, NEW_BUCKETS_PER_SOURCE_GROUP);
  }
}
