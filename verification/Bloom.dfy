/** The Bloom filter for transactions (src/bloom.cpp). The hash of the filter and the byte form of an
    outpoint are functions; a script is the list of its data pushes. */
module Bloom {

  type Bytes = seq<int>

  datatype OutPoint = OutPoint(hash: Bytes, n: nat)

  /** An output: its data pushes, and whether it pays to a public key or to several. */
  datatype Output = Output(pushes: seq<Bytes>, paysToKey: bool)

  datatype Input = Input(prevout: OutPoint, pushes: seq<Bytes>)

  datatype Transaction = Transaction(vout: seq<Output>, vin: seq<Input>)

  const UPDATE_ALL := 1
  const UPDATE_P2PUBKEY_ONLY := 2

  /** What stays fixed while a filter is used. */
  datatype Setup = Setup(funcs: nat, tweak: nat, flags: nat, murmur: (nat, Bytes) -> nat, serialize: OutPoint -> Bytes)

  // ----- specification -----

  /** Hash: the bit that hash function i selects for a key, in a filter of that many bits. */
  function Index(s: Setup, size: nat, i: nat, key: Bytes): (k: nat)
    requires size > 0
    ensures k < size
  {
    s.murmur((i * 0xFBA4C795 + s.tweak) % 0x1_0000_0000, key) % size
  }

  predicate Usable(s: Setup, bits: seq<bool>) {
    |bits| > 0 || s.funcs == 0
  }

  /** The bits that a key selects are set. */
  ghost predicate Contains(s: Setup, bits: seq<bool>, key: Bytes)
    requires Usable(s, bits)
  {
    forall i: nat :: i < s.funcs ==> bits[Index(s, |bits|, i, key)]
  }

  /** No bit is lost. */
  ghost predicate Grown(bits: seq<bool>, bits': seq<bool>) {
    |bits'| == |bits| && forall k :: 0 <= k < |bits| && bits[k] ==> bits'[k]
  }

  /** The bits after inserting a key with the first n hash functions. */
  function Inserted(s: Setup, bits: seq<bool>, key: Bytes, n: nat): (r: seq<bool>)
    requires |bits| > 0 || n == 0
    ensures |r| == |bits|
  {
    if n == 0 then bits else Inserted(s, bits, key, n - 1)[Index(s, |bits|, n - 1, key) := true]
  }

  function Insert(s: Setup, bits: seq<bool>, key: Bytes): (r: seq<bool>)
    requires Usable(s, bits)
    ensures |r| == |bits|
  {
    Inserted(s, bits, key, s.funcs)
  }

  /** Some of the first n pushes that are not empty is contained. */
  ghost predicate Matches(s: Setup, bits: seq<bool>, pushes: seq<Bytes>, n: nat)
    requires Usable(s, bits) && n <= |pushes|
  {
    exists p :: 0 <= p < n && pushes[p] != [] && Contains(s, bits, pushes[p])
  }

  predicate Updates(s: Setup, out: Output) {
    s.flags % 4 == UPDATE_ALL || (s.flags % 4 == UPDATE_P2PUBKEY_ONLY && out.paysToKey)
  }

  /** The bits after the first n outputs of a transaction have been looked at. */
  ghost function AfterOutputs(s: Setup, bits: seq<bool>, tx: Transaction, hash: Bytes, n: nat): (r: seq<bool>)
    requires Usable(s, bits) && n <= |tx.vout|
    ensures |r| == |bits|
  {
    if n == 0 then bits
    else
      var before := AfterOutputs(s, bits, tx, hash, n - 1);
      var out := tx.vout[n - 1];
      if Matches(s, before, out.pushes, |out.pushes|) && Updates(s, out)
      then Insert(s, before, s.serialize(OutPoint(hash, n - 1))) else before
  }

  /** Output i matches when its turn comes. */
  ghost predicate OutputMatches(s: Setup, bits: seq<bool>, tx: Transaction, hash: Bytes, i: nat)
    requires Usable(s, bits) && i < |tx.vout|
  {
    Matches(s, AfterOutputs(s, bits, tx, hash, i), tx.vout[i].pushes, |tx.vout[i].pushes|)
  }

  ghost predicate InputMatches(s: Setup, bits: seq<bool>, input: Input)
    requires Usable(s, bits)
  {
    Contains(s, bits, s.serialize(input.prevout)) || Matches(s, bits, input.pushes, |input.pushes|)
  }

  /** A transaction is relevant: its hash, one of its outputs or, after those, one of its inputs matches. */
  ghost predicate Relevant(s: Setup, bits: seq<bool>, tx: Transaction, hash: Bytes)
    requires Usable(s, bits)
  {
    || Contains(s, bits, hash)
    || (exists i :: 0 <= i < |tx.vout| && OutputMatches(s, bits, tx, hash, i))
    || (exists j :: 0 <= j < |tx.vin| && InputMatches(s, AfterOutputs(s, bits, tx, hash, |tx.vout|), tx.vin[j]))
  }

  // ----- the code -----

  class BloomFilter {
    const s: Setup
    /** The bits of vData. */
    var bits: seq<bool>

    constructor (s0: Setup, size: nat)
      requires size > 0 || s0.funcs == 0
      ensures s == s0 && bits == seq(8 * size, _ => false) && Usable(s, bits)
    {
      s := s0;
      bits := seq(8 * size, _ => false);
    }

    /** The filter is a single byte 0xff. */
    predicate IsFull()
      reads this
    {
      |bits| == 8 && bits == seq(8, _ => true)
    }

    method InsertKey(key: Bytes)
      requires Usable(s, bits)
      modifies this
      ensures bits == Insert(s, old(bits), key)
    {
      if IsFull() {
        FullStays(s, bits, key, s.funcs);
        return;
      }
      var i := 0;
      while i < s.funcs
        invariant i <= s.funcs && bits == Inserted(s, old(bits), key, i)
      {
        var k := Index(s, |bits|, i, key);
        bits := bits[k := true];
        i := i + 1;
      }
    }

    method ContainsKey(key: Bytes) returns (r: bool)
      requires Usable(s, bits)
      ensures r <==> Contains(s, bits, key)
    {
      if IsFull() { return true; }
      var i := 0;
      while i < s.funcs
        invariant i <= s.funcs && forall j: nat :: j < i ==> bits[Index(s, |bits|, j, key)]
      {
        var k := Index(s, |bits|, i, key);
        if !bits[k] { return false; }
        i := i + 1;
      }
      r := true;
    }

    /** Whether a script has a data push that the filter contains. */
    method MatchesScript(pushes: seq<Bytes>) returns (r: bool)
      requires Usable(s, bits)
      ensures r <==> Matches(s, bits, pushes, |pushes|)
    {
      var p := 0;
      while p < |pushes|
        invariant p <= |pushes| && !Matches(s, bits, pushes, p)
      {
        if |pushes[p]| != 0 {
          var c := ContainsKey(pushes[p]);
          if c { return true; }
        }
        p := p + 1;
      }
      r := false;
    }

    /** The loop over the outputs. */
    method UpdateFromOutputs(tx: Transaction, hash: Bytes) returns (found: bool)
      requires Usable(s, bits)
      modifies this
      ensures bits == AfterOutputs(s, old(bits), tx, hash, |tx.vout|)
      ensures found <==> exists i :: 0 <= i < |tx.vout| && OutputMatches(s, old(bits), tx, hash, i)
    {
      found := false;
      var i := 0;
      while i < |tx.vout|
        invariant i <= |tx.vout| && bits == AfterOutputs(s, old(bits), tx, hash, i)
        invariant found <==> exists k :: 0 <= k < i && OutputMatches(s, old(bits), tx, hash, k)
      {
        var out := tx.vout[i];
        var m := MatchesScript(out.pushes);
        assert m <==> OutputMatches(s, old(bits), tx, hash, i);
        if m {
          found := true;
          if s.flags % 4 == UPDATE_ALL {
            InsertKey(s.serialize(OutPoint(hash, i)));
          } else if s.flags % 4 == UPDATE_P2PUBKEY_ONLY {
            if out.paysToKey { InsertKey(s.serialize(OutPoint(hash, i))); }
          }
        }
        i := i + 1;
      }
    }

    method IsRelevantAndUpdate(tx: Transaction, hash: Bytes) returns (r: bool)
      requires Usable(s, bits)
      modifies this
      ensures bits == AfterOutputs(s, old(bits), tx, hash, |tx.vout|)
      ensures r <==> Relevant(s, old(bits), tx, hash)
    {
      var found := ContainsKey(hash);
      var out := UpdateFromOutputs(tx, hash);
      if found || out { return true; }
      var j := 0;
      while j < |tx.vin|
        invariant bits == AfterOutputs(s, old(bits), tx, hash, |tx.vout|)
        invariant j <= |tx.vin| && forall k :: 0 <= k < j ==> !InputMatches(s, bits, tx.vin[k])
      {
        var spent := ContainsKey(s.serialize(tx.vin[j].prevout));
        if spent { return true; }
        var signed := MatchesScript(tx.vin[j].pushes);
        if signed { return true; }
        j := j + 1;
      }
      r := false;
    }
  }

  // ----- properties -----

  lemma {:induction false} FullStays(s: Setup, bits: seq<bool>, key: Bytes, n: nat)
    requires bits == seq(8, _ => true)
    ensures Inserted(s, bits, key, n) == bits
  {
    if n > 0 { FullStays(s, bits, key, n - 1); }
  }

  lemma {:induction false} InsertedGrows(s: Setup, bits: seq<bool>, key: Bytes, n: nat)
    requires |bits| > 0 || n == 0
    ensures Grown(bits, Inserted(s, bits, key, n))
    ensures forall i: nat :: i < n ==> Inserted(s, bits, key, n)[Index(s, |bits|, i, key)]
    ensures forall k :: 0 <= k < |bits| && Inserted(s, bits, key, n)[k] && !bits[k] ==>
      exists i: nat :: i < n && k == Index(s, |bits|, i, key)
  {
    if n > 0 { InsertedGrows(s, bits, key, n - 1); }
  }

  /** What grows keeps what it contains. */
  lemma GrownContains(s: Setup, bits: seq<bool>, bits': seq<bool>, key: Bytes)
    requires Usable(s, bits) && Grown(bits, bits') && Contains(s, bits, key)
    ensures Contains(s, bits', key)
  {
  }

  lemma GrownTransitive(a: seq<bool>, b: seq<bool>, c: seq<bool>)
    requires Grown(a, b) && Grown(b, c)
    ensures Grown(a, c)
  {
  }

  /** An inserted key is contained, no bit is lost, and none but its own is set. */
  lemma InsertExactly(s: Setup, bits: seq<bool>, key: Bytes)
    requires Usable(s, bits)
    ensures Grown(bits, Insert(s, bits, key)) && Contains(s, Insert(s, bits, key), key)
    ensures forall k :: 0 <= k < |bits| && Insert(s, bits, key)[k] && !bits[k] ==>
      exists i: nat :: i < s.funcs && k == Index(s, |bits|, i, key)
  {
    InsertedGrows(s, bits, key, s.funcs);
  }

  /** The bits that are looked at for a key: 0xFBA4C795 apart in the seed, which has 32 bits. */
  lemma ContainsExactly(s: Setup, bits: seq<bool>, key: Bytes)
    requires |bits| > 0
    ensures Contains(s, bits, key) <==> forall i: nat :: i < s.funcs ==>
      bits[s.murmur((i * 0xFBA4C795 + s.tweak) % 0x1_0000_0000, key) % |bits|]
  {
    if Contains(s, bits, key) {
      forall i: nat | i < s.funcs ensures bits[s.murmur((i * 0xFBA4C795 + s.tweak) % 0x1_0000_0000, key) % |bits|] {
        assert bits[Index(s, |bits|, i, key)];
      }
    }
  }

  /** What becomes of the bits when an output is looked at: a matching one has its outpoint inserted under update
      mode 1, and under mode 2 if it pays to keys; all else leaves them as they are. */
  lemma OutputUpdates(s: Setup, bits: seq<bool>, tx: Transaction, hash: Bytes, i: nat)
    requires Usable(s, bits) && i < |tx.vout|
    ensures var before, after := AfterOutputs(s, bits, tx, hash, i), AfterOutputs(s, bits, tx, hash, i + 1);
      var mode, hit := s.flags % 4, OutputMatches(s, bits, tx, hash, i);
      && (i == 0 ==> before == bits)
      && (hit && (mode == 1 || (mode == 2 && tx.vout[i].paysToKey)) ==>
        Grown(before, after) && Contains(s, after, s.serialize(OutPoint(hash, i))))
      && (!hit || mode == 0 || mode == 3 || (mode == 2 && !tx.vout[i].paysToKey) ==> after == before)
  {
    InsertExactly(s, AfterOutputs(s, bits, tx, hash, i), s.serialize(OutPoint(hash, i)));
  }

  lemma {:induction false} OutputsGrow(s: Setup, bits: seq<bool>, tx: Transaction, hash: Bytes, m: nat, n: nat)
    requires Usable(s, bits) && m <= n <= |tx.vout|
    ensures Grown(AfterOutputs(s, bits, tx, hash, m), AfterOutputs(s, bits, tx, hash, n))
    decreases n
  {
    if m < n {
      OutputsGrow(s, bits, tx, hash, m, n - 1);
      InsertExactly(s, AfterOutputs(s, bits, tx, hash, n - 1), s.serialize(OutPoint(hash, n - 1)));
      GrownTransitive(AfterOutputs(s, bits, tx, hash, m), AfterOutputs(s, bits, tx, hash, n - 1),
                      AfterOutputs(s, bits, tx, hash, n));
    }
  }

  // ----- runs -----

  /** What is done to a filter. */
  datatype Op = InsertOp(key: Bytes) | TransactionOp(tx: Transaction, hash: Bytes)

  ghost function Step(s: Setup, bits: seq<bool>, op: Op): (r: seq<bool>)
    requires Usable(s, bits)
    ensures |r| == |bits|
  {
    match op
    case InsertOp(key) => Insert(s, bits, key)
    case TransactionOp(tx, hash) => AfterOutputs(s, bits, tx, hash, |tx.vout|)
  }

  ghost function Run(s: Setup, bits: seq<bool>, ops: seq<Op>): (r: seq<bool>)
    requires Usable(s, bits)
    ensures |r| == |bits|
  {
    if |ops| == 0 then bits else Step(s, Run(s, bits, ops[..|ops| - 1]), ops[|ops| - 1])
  }

  lemma StepGrows(s: Setup, bits: seq<bool>, op: Op)
    requires Usable(s, bits)
    ensures Grown(bits, Step(s, bits, op))
  {
    match op
    case InsertOp(key) => InsertExactly(s, bits, key);
    case TransactionOp(tx, hash) => OutputsGrow(s, bits, tx, hash, 0, |tx.vout|);
  }

  lemma {:induction false} RunGrows(s: Setup, bits: seq<bool>, ops: seq<Op>, n: nat)
    requires Usable(s, bits) && n <= |ops|
    ensures Grown(Run(s, bits, ops[..n]), Run(s, bits, ops))
    decreases |ops|
  {
    var k := |ops| - 1;
    if n == |ops| {
      assert ops[..n] == ops;
    } else {
      RunGrows(s, bits, ops[..k], n);
      assert ops[..k][..n] == ops[..n];
      StepGrows(s, Run(s, bits, ops[..k]), ops[k]);
    }
  }

  /** No false negative: whatever has been inserted in a run is contained from then on. */
  lemma InsertedIsContained(s: Setup, bits: seq<bool>, ops: seq<Op>, n: nat)
    requires Usable(s, bits) && n < |ops| && ops[n].InsertOp?
    ensures Contains(s, Run(s, bits, ops), ops[n].key)
  {
    var before := Run(s, bits, ops[..n]);
    assert ops[..n + 1][..n] == ops[..n];
    InsertExactly(s, before, ops[n].key);
    RunGrows(s, bits, ops, n + 1);
    GrownContains(s, Run(s, bits, ops[..n + 1]), Run(s, bits, ops), ops[n].key);
  }

  /** A transaction that is what has been inserted, pays to it or is signed with it is relevant from then on. */
  lemma NamingIsRelevant(s: Setup, bits: seq<bool>, ops: seq<Op>, n: nat, tx: Transaction, hash: Bytes)
    requires Usable(s, bits) && n < |ops| && ops[n].InsertOp? && ops[n].key != []
    requires || hash == ops[n].key
             || (exists i :: 0 <= i < |tx.vout| && ops[n].key in tx.vout[i].pushes)
             || (exists j :: 0 <= j < |tx.vin| && ops[n].key in tx.vin[j].pushes)
    ensures Relevant(s, Run(s, bits, ops), tx, hash)
  {
    var key, now := ops[n].key, Run(s, bits, ops);
    InsertedIsContained(s, bits, ops, n);
    if i :| 0 <= i < |tx.vout| && key in tx.vout[i].pushes {
      OutputsGrow(s, now, tx, hash, 0, i);
      PushMatches(s, now, AfterOutputs(s, now, tx, hash, i), tx.vout[i].pushes, key);
      assert OutputMatches(s, now, tx, hash, i);
    } else if j :| 0 <= j < |tx.vin| && key in tx.vin[j].pushes {
      OutputsGrow(s, now, tx, hash, 0, |tx.vout|);
      PushMatches(s, now, AfterOutputs(s, now, tx, hash, |tx.vout|), tx.vin[j].pushes, key);
      assert InputMatches(s, AfterOutputs(s, now, tx, hash, |tx.vout|), tx.vin[j]);
    }
  }

  lemma PushMatches(s: Setup, bits: seq<bool>, bits': seq<bool>, pushes: seq<Bytes>, key: Bytes)
    requires Usable(s, bits) && Grown(bits, bits') && Contains(s, bits, key) && key != [] && key in pushes
    ensures Matches(s, bits', pushes, |pushes|)
  {
    GrownContains(s, bits, bits', key);
    var p :| 0 <= p < |pushes| && pushes[p] == key;
    assert Contains(s, bits', pushes[p]);
  }

  /** A transaction that spends an output that has matched, under update mode 1 or, for an output that pays to keys,
      mode 2, is relevant, however much later in the run it comes. */
  lemma SpendingIsRelevant(s: Setup, bits: seq<bool>, ops: seq<Op>, n: nat, i: nat, tx: Transaction, hash: Bytes,
                           j: nat)
    requires Usable(s, bits) && n < |ops| && ops[n].TransactionOp? && i < |ops[n].tx.vout|
    requires s.flags % 4 == 1 || (s.flags % 4 == 2 && ops[n].tx.vout[i].paysToKey)
    requires OutputMatches(s, Run(s, bits, ops[..n]), ops[n].tx, ops[n].hash, i)
    requires j < |tx.vin| && tx.vin[j].prevout == OutPoint(ops[n].hash, i)
    ensures Relevant(s, Run(s, bits, ops), tx, hash)
  {
    var before := Run(s, bits, ops[..n]);
    var key := s.serialize(OutPoint(ops[n].hash, i));
    var kept := AfterOutputs(s, before, ops[n].tx, ops[n].hash, i + 1);
    InsertExactly(s, AfterOutputs(s, before, ops[n].tx, ops[n].hash, i), key);
    assert Contains(s, kept, key);
    OutputsGrow(s, before, ops[n].tx, ops[n].hash, i + 1, |ops[n].tx.vout|);
    assert ops[..n + 1][..n] == ops[..n];
    RunGrows(s, bits, ops, n + 1);
    var now := Run(s, bits, ops);
    GrownTransitive(kept, Run(s, bits, ops[..n + 1]), now);
    OutputsGrow(s, now, tx, hash, 0, |tx.vout|);
    GrownTransitive(kept, now, AfterOutputs(s, now, tx, hash, |tx.vout|));
    GrownContains(s, kept, AfterOutputs(s, now, tx, hash, |tx.vout|), key);
    assert InputMatches(s, AfterOutputs(s, now, tx, hash, |tx.vout|), tx.vin[j]);
  }
}
