/** How SelectTried (src/addrman.cpp) picks the position of a tried entry to evict. */
module AddrSelect {
  import opened Arithmetic
  import opened AddrTypes

  predicate AllKnown(infos: map<int, AddrInfo>, bucket: seq<int>) {
    forall p :: 0 <= p < |bucket| ==> bucket[p] in infos
  }

  /** Draws for the leading positions of a bucket, each from that position on. */
  predicate Drawn(bucket: seq<int>, draws: seq<int>) {
    |draws| <= |bucket| && forall i :: 0 <= i < |draws| ==> i <= draws[i] < |bucket|
  }

  function Exchange(s: seq<int>, i: int, j: int): (r: seq<int>)
    requires 0 <= i < |s| && 0 <= j < |s|
    ensures |r| == |s|
  {
    s[j := s[i]][i := s[j]]
  }

  /** The bucket after its first |draws| positions were each exchanged with a drawn one. */
  function Shuffle(bucket: seq<int>, draws: seq<int>): (shuffled: seq<int>)
    requires Drawn(bucket, draws)
    ensures |shuffled| == |bucket|
    decreases |draws|
  {
    if |draws| == 0 then bucket
    else
      var n := |draws| - 1;
      Exchange(Shuffle(bucket, draws[..n]), n, draws[n])
  }

  lemma ExchangeIsPermutation(s: seq<int>, i: int, j: int)
    requires 0 <= i < |s| && 0 <= j < |s|
    ensures multiset(Exchange(s, i, j)) == multiset(s)
  {
  }

  lemma {:induction false} ShuffleIsPermutation(bucket: seq<int>, draws: seq<int>)
    requires Drawn(bucket, draws)
    ensures multiset(Shuffle(bucket, draws)) == multiset(bucket)
    decreases |draws|
  {
    if |draws| != 0 {
      var n := |draws| - 1;
      ShuffleIsPermutation(bucket, draws[..n]);
      ExchangeIsPermutation(Shuffle(bucket, draws[..n]), n, draws[n]);
    }
  }

  lemma {:induction false} ShuffleMembers(bucket: seq<int>, draws: seq<int>, p: nat) returns (q: nat)
    requires Drawn(bucket, draws) && p < |bucket|
    ensures q < |bucket| && Shuffle(bucket, draws)[p] == bucket[q]
    decreases |draws|
  {
    if |draws| == 0 {
      q := p;
    } else {
      var n := |draws| - 1;
      q := ShuffleMembers(bucket, draws[..n], if p == n then draws[n] else if p == draws[n] then n else p);
    }
  }

  lemma ShuffleIsKnown(infos: map<int, AddrInfo>, bucket: seq<int>, draws: seq<int>)
    requires AllKnown(infos, bucket) && Drawn(bucket, draws)
    ensures AllKnown(infos, Shuffle(bucket, draws))
  {
    forall p | 0 <= p < |bucket| ensures Shuffle(bucket, draws)[p] in infos {
      var q := ShuffleMembers(bucket, draws, p);
    }
  }

  // ----- which entry is the oldest -----

  function LastSuccess(infos: map<int, AddrInfo>, bucket: seq<int>, p: int): int
    requires AllKnown(infos, bucket) && 0 <= p < |bucket|
  {
    infos[bucket[p]].lastSuccess
  }

  /** winner is the first among the leading `count` positions with the least time of success. */
  predicate IsOldest(infos: map<int, AddrInfo>, bucket: seq<int>, count: nat, winner: nat)
    requires count <= |bucket| && AllKnown(infos, bucket)
  {
    && winner < count
    && (forall p :: 0 <= p < count ==> LastSuccess(infos, bucket, winner) <= LastSuccess(infos, bucket, p))
    && (forall p :: 0 <= p < winner ==> LastSuccess(infos, bucket, winner) < LastSuccess(infos, bucket, p))
  }

  /** What drawing position p for position i does to the search for the oldest entry. */
  lemma OneMoreInspected(infos: map<int, AddrInfo>, s: seq<int>, i: nat, p: int, winner: nat)
    requires AllKnown(infos, s) && i <= p < |s| && (i > 0 ==> IsOldest(infos, s, i, winner))
    ensures var r := Exchange(s, i, p);
      && AllKnown(infos, r) && r[i] == s[p] && (i > 0 ==> r[winner] == s[winner])
      && IsOldest(infos, r, i + 1,
                  if i == 0 || LastSuccess(infos, r, i) < LastSuccess(infos, r, winner) then i else winner)
  {
    var r := Exchange(s, i, p);
    assert AllKnown(infos, r);
    forall k | 0 <= k < i ensures r[k] == s[k] && LastSuccess(infos, r, k) == LastSuccess(infos, s, k) {}
    if i > 0 {
      assert forall k :: 0 <= k < i ==> LastSuccess(infos, r, winner) <= LastSuccess(infos, r, k);
      assert forall k :: 0 <= k < winner ==> LastSuccess(infos, r, winner) < LastSuccess(infos, r, k);
    }
  }

  /** None of the leading entries is older than the one at pos. */
  predicate NoneOlder(infos: map<int, AddrInfo>, bucket: seq<int>, count: nat, pos: int)
    requires count <= |bucket| && AllKnown(infos, bucket) && 0 <= pos < |bucket|
  {
    forall p :: 0 <= p < count ==> LastSuccess(infos, bucket, pos) <= LastSuccess(infos, bucket, p)
  }

  /** SelectTried may draw this from a bucket, and then finds the entry at `winner` to be the oldest. */
  predicate Selects(infos: map<int, AddrInfo>, bucket: seq<int>, draws: seq<int>, winner: nat)
    requires AllKnown(infos, bucket)
  {
    && Drawn(bucket, draws) && |draws| == Min(TRIED_ENTRIES_INSPECT_ON_EVICT, |bucket|)
    && (ShuffleIsKnown(infos, bucket, draws); IsOldest(infos, Shuffle(bucket, draws), |draws|, winner))
  }

  /** Four entries are inspected, or all of fewer. The one found oldest is the first whose last success is longest
      ago. */
  lemma SelectsExactly(infos: map<int, AddrInfo>, bucket: seq<int>, draws: seq<int>, winner: nat, p: nat)
    requires AllKnown(infos, bucket) && Selects(infos, bucket, draws, winner)
    ensures |draws| == (if |bucket| < 4 then |bucket| else 4) && winner < |draws|
    ensures p < |draws| ==> p <= draws[p] < |bucket|
    ensures p < |draws| ==>
      var s := Shuffle(bucket, draws);
      && s[winner] in infos && s[p] in infos
      && infos[s[winner]].lastSuccess <= infos[s[p]].lastSuccess
      && (p < winner ==> infos[s[winner]].lastSuccess < infos[s[p]].lastSuccess)
  {
    ShuffleIsKnown(infos, bucket, draws);
    if p < |draws| {
      assert LastSuccess(infos, Shuffle(bucket, draws), winner) <= LastSuccess(infos, Shuffle(bucket, draws), p);
    }
  }

  /** The position that SelectTried returns holds one of the inspected entries, and none of them is older. */
  predicate IsRight(infos: map<int, AddrInfo>, bucket: seq<int>, draws: seq<int>, winner: nat)
    requires AllKnown(infos, bucket) && Selects(infos, bucket, draws, winner)
  {
    ShuffleIsKnown(infos, bucket, draws);
    draws[winner] < |draws| && NoneOlder(infos, Shuffle(bucket, draws), |draws|, draws[winner])
  }

  /** SelectTried returns the position the oldest entry was drawn from, after that entry has been moved away from
      there. It is right exactly when the entry was not moved, or an inspected one as old has taken its place. */
  lemma SelectedIsOldestExactly(infos: map<int, AddrInfo>, bucket: seq<int>, draws: seq<int>, winner: nat)
    requires AllKnown(infos, bucket) && Selects(infos, bucket, draws, winner)
    ensures AllKnown(infos, Shuffle(bucket, draws))
    ensures IsRight(infos, bucket, draws, winner) <==>
      || draws[winner] == winner
      || (draws[winner] < |draws| &&
          LastSuccess(infos, Shuffle(bucket, draws), draws[winner]) ==
            LastSuccess(infos, Shuffle(bucket, draws), winner))
  {
    ShuffleIsKnown(infos, bucket, draws);
  }

  // ----- buckets for which the position is as good as promised -----

  /** The position holds an entry as old as any inspected one, though it need not be one of them. */
  predicate IsOldEnough(infos: map<int, AddrInfo>, bucket: seq<int>, draws: seq<int>, winner: nat)
    requires AllKnown(infos, bucket) && Selects(infos, bucket, draws, winner)
  {
    ShuffleIsKnown(infos, bucket, draws);
    NoneOlder(infos, Shuffle(bucket, draws), |draws|, draws[winner])
  }

  predicate AllTied(infos: map<int, AddrInfo>, bucket: seq<int>)
    requires AllKnown(infos, bucket)
  {
    forall p, q :: 0 <= p < |bucket| && 0 <= q < |bucket| ==>
      LastSuccess(infos, bucket, p) == LastSuccess(infos, bucket, q)
  }

  lemma TiedIsOldEnough(infos: map<int, AddrInfo>, bucket: seq<int>, draws: seq<int>, winner: nat)
    requires AllKnown(infos, bucket) && AllTied(infos, bucket) && Selects(infos, bucket, draws, winner)
    ensures IsOldEnough(infos, bucket, draws, winner)
  {
    ShuffleIsKnown(infos, bucket, draws);
    var s := Shuffle(bucket, draws);
    var q := ShuffleMembers(bucket, draws, draws[winner]);
    forall p | 0 <= p < |draws| ensures LastSuccess(infos, s, draws[winner]) <= LastSuccess(infos, s, p) {
      var r := ShuffleMembers(bucket, draws, p);
      assert LastSuccess(infos, bucket, q) == LastSuccess(infos, bucket, r);
    }
  }

  lemma OneMoreDraw(bucket: seq<int>, draws: seq<int>, d: int)
    requires Drawn(bucket, draws) && |draws| <= d < |bucket|
    ensures Drawn(bucket, draws + [d])
    ensures Shuffle(bucket, draws + [d]) == Exchange(Shuffle(bucket, draws), |draws|, d)
  {
    assert (draws + [d])[..|draws|] == draws;
  }

  lemma TwoDraws(bucket: seq<int>, a: int, b: int)
    requires 0 <= a < |bucket| && 1 <= b < |bucket|
    ensures Drawn(bucket, [a, b])
    ensures Shuffle(bucket, [a, b]) == Exchange(Exchange(bucket, 0, a), 1, b)
  {
    OneMoreDraw(bucket, [], a);
    OneMoreDraw(bucket, [a], b);
    assert [] + [a] == [a] && [a] + [b] == [a, b];
  }

  /** A position that is drawn for itself changes nothing. */
  lemma IdleDraw(bucket: seq<int>, draws: seq<int>)
    requires Drawn(bucket, draws) && |draws| < |bucket|
    ensures Drawn(bucket, draws + [|draws|]) && Shuffle(bucket, draws + [|draws|]) == Shuffle(bucket, draws)
  {
    OneMoreDraw(bucket, draws, |draws|);
    IdleExchange(Shuffle(bucket, draws), |draws|);
  }

  lemma IdleExchange(s: seq<int>, i: int)
    requires 0 <= i < |s|
    ensures Exchange(s, i, i) == s
  {
  }

  lemma FourDraws(a: int, b: int)
    ensures [a, b] + [2] + [3] == [a, b, 2, 3]
  {
  }

  lemma TwoIdleDraws(bucket: seq<int>, draws: seq<int>)
    requires Drawn(bucket, draws) && |draws| + 2 <= |bucket|
    ensures var four := draws + [|draws|] + [|draws| + 1];
      Drawn(bucket, four) && Shuffle(bucket, four) == Shuffle(bucket, draws)
  {
    IdleDraw(bucket, draws);
    IdleDraw(bucket, draws + [|draws|]);
  }

  /** Two exchanges, and two positions that are drawn for themselves. */
  lemma ShuffleOfFour(bucket: seq<int>, a: int, b: int)
    requires |bucket| >= 4 && 0 <= a < |bucket| && 1 <= b < |bucket|
    ensures Drawn(bucket, [a, b, 2, 3])
    ensures Shuffle(bucket, [a, b, 2, 3]) == Exchange(Exchange(bucket, 0, a), 1, b)
  {
    TwoDraws(bucket, a, b);
    TwoIdleDraws(bucket, [a, b]);
    FourDraws(a, b);
  }

  lemma OldestOfAll(infos: map<int, AddrInfo>, bucket: seq<int>) returns (oldest: nat)
    requires AllKnown(infos, bucket) && |bucket| > 0
    ensures oldest < |bucket|
    ensures forall p :: 0 <= p < |bucket| ==> LastSuccess(infos, bucket, oldest) <= LastSuccess(infos, bucket, p)
  {
    oldest := 0;
    var n := 1;
    while n < |bucket|
      invariant oldest < n <= |bucket|
      invariant forall p :: 0 <= p < n ==> LastSuccess(infos, bucket, oldest) <= LastSuccess(infos, bucket, p)
    {
      if LastSuccess(infos, bucket, n) < LastSuccess(infos, bucket, oldest) { oldest := n; }
      n := n + 1;
    }
  }

  /** These draws bring a younger entry to the position from which the oldest one came. */
  ghost predicate Misses(infos: map<int, AddrInfo>, bucket: seq<int>, draws: seq<int>, winner: nat)
    requires AllKnown(infos, bucket)
  {
    Selects(infos, bucket, draws, winner) && !IsOldEnough(infos, bucket, draws, winner)
  }

  lemma MissesIfYounger(infos: map<int, AddrInfo>, bucket: seq<int>, a: int, b: int, winner: nat, least: int)
    requires AllKnown(infos, bucket) && |bucket| >= 4 && 0 <= a < |bucket| && 1 <= b < |bucket| && winner < 2
    requires forall p :: 0 <= p < |bucket| ==> least <= LastSuccess(infos, bucket, p)
    requires var s := Exchange(Exchange(bucket, 0, a), 1, b);
      var pos := if winner == 0 then a else b;
      && s[winner] in infos && infos[s[winner]].lastSuccess == least
      && s[pos] in infos && infos[s[pos]].lastSuccess > least
      && (winner == 1 ==> s[0] in infos && infos[s[0]].lastSuccess > least)
    ensures Misses(infos, bucket, [a, b, 2, 3], winner)
  {
    var draws := [a, b, 2, 3];
    ShuffleOfFour(bucket, a, b);
    ShuffleIsKnown(infos, bucket, draws);
    var s := Shuffle(bucket, draws);
    forall p | 0 <= p < 4 ensures least <= LastSuccess(infos, s, p) {
      var q := ShuffleMembers(bucket, draws, p);
      assert least <= LastSuccess(infos, bucket, q);
    }
    assert draws[winner] == if winner == 0 then a else b;
    assert LastSuccess(infos, s, winner) == least && LastSuccess(infos, s, draws[winner]) > least;
  }

  lemma SomeDrawsMiss(infos: map<int, AddrInfo>, bucket: seq<int>) returns (draws: seq<int>, winner: nat)
    requires AllKnown(infos, bucket) && |bucket| > 4 && !AllTied(infos, bucket)
    ensures Misses(infos, bucket, draws, winner)
  {
    var oldest := OldestOfAll(infos, bucket);
    var least := LastSuccess(infos, bucket, oldest);
    if LastSuccess(infos, bucket, 0) > least {
      MissesIfYounger(infos, bucket, oldest, 1, 0, least);
      draws, winner := [oldest, 1, 2, 3], 0;
    } else if LastSuccess(infos, bucket, 1) > least {
      winner := if LastSuccess(infos, bucket, 4) > least then 1 else 0;
      MissesIfYounger(infos, bucket, 4, 4, winner, least);
      draws := [4, 4, 2, 3];
    } else {
      var b :| 0 <= b < |bucket| && LastSuccess(infos, bucket, b) > least;
      MissesIfYounger(infos, bucket, 1, b, 0, least);
      draws, winner := [1, b, 2, 3], 0;
    }
  }

  /** In a bucket as full as it is when SelectTried is called, the position holds an entry as old as any inspected
      one for all draws exactly when all entries of the bucket are equally old. */
  lemma OldEnoughExactly(infos: map<int, AddrInfo>, bucket: seq<int>)
    requires AllKnown(infos, bucket) && |bucket| >= TRIED_BUCKET_SIZE
    ensures AllTied(infos, bucket) <==> forall draws: seq<int>, winner: nat ::
      Selects(infos, bucket, draws, winner) ==> IsOldEnough(infos, bucket, draws, winner)
  {
    if AllTied(infos, bucket) {
      forall draws: seq<int>, winner: nat
        ensures Selects(infos, bucket, draws, winner) ==> IsOldEnough(infos, bucket, draws, winner)
      {
        if Selects(infos, bucket, draws, winner) { TiedIsOldEnough(infos, bucket, draws, winner); }
      }
    } else {
      var draws, winner := SomeDrawsMiss(infos, bucket);
    }
  }

  // ----- an instance -----

  /** The entries 0 to 63, of which the last one is the oldest. */
  function FullBucket(): seq<int> {
    seq(TRIED_BUCKET_SIZE, i => i)
  }

  function Records(blank: AddrInfo): map<int, AddrInfo> {
    map i | i in FullBucket() :: blank.(lastSuccess := if i == 63 then 1 else 2)
  }

  /** In a full bucket the oldest entry is drawn first, from the last place; the one returned for eviction is
      entry 0, which stands there afterwards and is younger. */
  lemma MovedOldestIsMissed(blank: AddrInfo)
    ensures AllKnown(Records(blank), FullBucket())
    ensures Misses(Records(blank), FullBucket(), [63, 1, 2, 3], 0)
    ensures Drawn(FullBucket(), [63, 1, 2, 3])
    ensures Shuffle(FullBucket(), [63, 1, 2, 3])[0] == 63 && Shuffle(FullBucket(), [63, 1, 2, 3])[63] == 0
  {
    ShuffleOfFour(FullBucket(), 63, 1);
    MissesIfYounger(Records(blank), FullBucket(), 63, 1, 0, 1);
  }
}
