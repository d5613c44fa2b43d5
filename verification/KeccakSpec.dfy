/** The permutation Keccak-f[1600] as sections 3.2 and 3.3 of FIPS 202 define it, on 25 lanes of
    64 bits; lane (x, y) has index 5*y + x. */
module KeccakSpec {

  /** A lane: 64 bits, bit z of the lane at index z. */
  type Word = s: seq<bool> | |s| == 64 witness seq(64, _ => false)

  type Lanes = s: seq<Word> | |s| == 25 witness seq(25, _ => seq(64, _ => false))

  function Xor(a: Word, b: Word): Word {
    seq(64, z requires 0 <= z < 64 => a[z] != b[z])
  }

  function And(a: Word, b: Word): Word {
    seq(64, z requires 0 <= z < 64 => a[z] && b[z])
  }

  function Not(a: Word): Word {
    seq(64, z requires 0 <= z < 64 => !a[z])
  }

  /** Rotation by n positions towards the high bits. */
  function Rol(a: Word, n: nat): Word {
    seq(64, z requires 0 <= z < 64 => a[(z - n) % 64])
  }

  function Xor5(a: Word, b: Word, c: Word, d: Word, e: Word): Word {
    Xor(Xor(Xor(Xor(a, b), c), d), e)
  }

  function Column(a: Lanes, x: nat): Word
    requires x < 5
  {
    Xor5(a[x], a[5 + x], a[10 + x], a[15 + x], a[20 + x])
  }

  function Neighbours(c: Word, d: Word): Word {
    Xor(c, Rol(d, 1))
  }

  function Parity(a: Lanes, x: nat): Word
    requires x < 5
  {
    Neighbours(Column(a, (x + 4) % 5), Column(a, (x + 1) % 5))
  }

  /** Section 3.2.1. */
  function Theta(a: Lanes): Lanes {
    seq(25, k requires 0 <= k < 25 => Xor(a[k], Parity(a, k % 5)))
  }

  /** Section 3.2.2, with the offsets of its table reduced modulo 64. */
  const OFFSETS: seq<nat> := [
     0,  1, 62, 28, 27,
    36, 44,  6, 55, 20,
     3, 10, 43, 25, 39,
    41, 45, 15, 21,  8,
    18,  2, 61, 56, 14]

  function Rho(a: Lanes): Lanes {
    seq(25, k requires 0 <= k < 25 => Rol(a[k], OFFSETS[k]))
  }

  /** The lane visited at step t of the algorithm that defines rho. */
  function Visited(t: nat): (nat, nat) {
    if t == 0 then (1, 0) else
    var (x, y) := Visited(t - 1);
    (y, (2 * x + 3 * y) % 5)
  }

  /** Section 3.2.3. */
  function PiSource(k: nat): (j: nat)
    requires k < 25
    ensures j < 25
  {
    5 * (k % 5) + (k % 5 + 3 * (k / 5)) % 5
  }

  function Pi(a: Lanes): Lanes {
    seq(25, k requires 0 <= k < 25 => a[PiSource(k)])
  }

  function ChiLane(a: Word, b: Word, c: Word): Word {
    Xor(a, And(Not(b), c))
  }

  /** The lane d places further in the row of lane k. */
  function InRow(k: nat, d: nat): (j: nat)
    requires k < 25
    ensures j < 25
  {
    5 * (k / 5) + (k % 5 + d) % 5
  }

  /** Section 3.2.4. */
  function Chi(a: Lanes): Lanes {
    seq(25, k requires 0 <= k < 25 => ChiLane(a[k], a[InRow(k, 1)], a[InRow(k, 2)]))
  }

  /** Section 3.2.5: the round constants. */
  const RC: seq<bv64> := [
    0x0000000000000001, 0x0000000000008082, 0x800000000000808A, 0x8000000080008000,
    0x000000000000808B, 0x0000000080000001, 0x8000000080008081, 0x8000000000008009,
    0x000000000000008A, 0x0000000000000088, 0x0000000080008009, 0x000000008000000A,
    0x000000008000808B, 0x800000000000008B, 0x8000000000008089, 0x8000000000008003,
    0x8000000000008002, 0x8000000000000080, 0x000000000000800A, 0x800000008000000A,
    0x8000000080008081, 0x8000000000008080, 0x0000000080000001, 0x8000000080008008]

  function Iota(a: Lanes, k: Word): Lanes {
    a[0 := Xor(a[0], k)]
  }

  predicate IsSet(v: bv64, z: nat)
    requires z < 64
  {
    (v >> z) & 1 == 1
  }

  function Bits(v: bv64): Word {
    seq(64, z requires 0 <= z < 64 => IsSet(v, z))
  }

  /** Section 3.3. */
  function Round(a: Lanes, constant: bv64): Lanes {
    Iota(Chi(Pi(Rho(Theta(a)))), Bits(constant))
  }

  ghost predicate Succeeds(round: (Lanes, bv64) -> Lanes, s: seq<Lanes>, constants: seq<bv64>, j: nat)
    requires j < |constants| && j + 1 < |s|
  {
    s[j + 1] == round(s[j], constants[j])
  }

  /** The states before, between and after the rounds that the constants determine. */
  ghost predicate States(round: (Lanes, bv64) -> Lanes, s: seq<Lanes>, constants: seq<bv64>) {
    |s| == |constants| + 1 && forall j :: 0 <= j < |constants| ==> Succeeds(round, s, constants, j)
  }

  lemma {:induction false} StatesExist(round: (Lanes, bv64) -> Lanes, a: Lanes, constants: seq<bv64>)
    returns (s: seq<Lanes>)
    ensures States(round, s, constants) && s[0] == a
    decreases |constants|
  {
    if constants == [] {
      s := [a];
    } else {
      var n := |constants| - 1;
      var t := StatesExist(round, a, constants[..n]);
      s := t + [round(t[n], constants[n])];
      forall j | 0 <= j < n + 1 ensures Succeeds(round, s, constants, j) {
        if j < n { assert Succeeds(round, t, constants[..n], j); }
      }
    }
  }

  lemma {:induction false} StatesAreDetermined(round: (Lanes, bv64) -> Lanes, s: seq<Lanes>, t: seq<Lanes>,
                                               constants: seq<bv64>, j: nat)
    requires States(round, s, constants) && States(round, t, constants) && s[0] == t[0] && j <= |constants|
    ensures s[j] == t[j]
  {
    if j > 0 {
      StatesAreDetermined(round, s, t, constants, j - 1);
      assert Succeeds(round, s, constants, j - 1) && Succeeds(round, t, constants, j - 1);
    }
  }

  lemma RunExists(round: (Lanes, bv64) -> Lanes, a: Lanes, constants: seq<bv64>)
    ensures exists s :: States(round, s, constants) && s[0] == a
  {
    var s := StatesExist(round, a, constants);
  }

  /** The state after all rounds. */
  ghost function AllRounds(round: (Lanes, bv64) -> Lanes, a: Lanes, constants: seq<bv64>): Lanes {
    RunExists(round, a, constants);
    var s :| States(round, s, constants) && s[0] == a;
    s[|constants|]
  }

  lemma AllRoundsEnd(round: (Lanes, bv64) -> Lanes, s: seq<Lanes>, constants: seq<bv64>)
    requires States(round, s, constants)
    ensures AllRounds(round, s[0], constants) == s[|constants|]
  {
    RunExists(round, s[0], constants);
    var t :| States(round, t, constants) && t[0] == s[0] && AllRounds(round, s[0], constants) == t[|constants|];
    StatesAreDetermined(round, s, t, constants, |constants|);
  }

  ghost function KeccakF(a: Lanes): Lanes {
    AllRounds(Round, a, RC)
  }

  // ----- the steps bit by bit -----

  /** The exclusive or of the five bits of a column. */
  function ColumnBit(a: Lanes, x: nat, z: nat): bool
    requires x < 5 && z < 64
  {
    (a[x][z] != a[5 + x][z]) != (a[10 + x][z] != (a[15 + x][z] != a[20 + x][z]))
  }

  /** Algorithm 1, for bit z of lane (x, y): the column before is taken at the same depth, the column after one bit
      lower. */
  ghost predicate ThetaBit(a: Lanes, b: Lanes, x: nat, y: nat, z: nat)
    requires x < 5 && y < 5 && z < 64
  {
    b[5 * y + x][z] == (a[5 * y + x][z] != (ColumnBit(a, (x + 4) % 5, z) != ColumnBit(a, (x + 1) % 5, (z + 63) % 64)))
  }

  ghost predicate IsTheta(a: Lanes, b: Lanes) {
    forall x: nat, y: nat, z: nat :: x < 5 && y < 5 && z < 64 ==> ThetaBit(a, b, x, y, z)
  }

  lemma IsThetaOf(a: Lanes)
    ensures IsTheta(a, Theta(a))
  {
    forall x: nat, y: nat, z: nat | x < 5 && y < 5 && z < 64 ensures ThetaBit(a, Theta(a), x, y, z) {
      LaneIndex(x, y);
      LaneOfTheta(a, 5 * y + x, x);
      NeighboursBit(Column(a, (x + 4) % 5), Column(a, (x + 1) % 5), z);
      ColumnOfBits(a, (x + 4) % 5, z);
      ColumnOfBits(a, (x + 1) % 5, (z + 63) % 64);
    }
  }

  lemma LaneIndex(x: nat, y: nat)
    requires x < 5 && y < 5
    ensures (5 * y + x) % 5 == x && (5 * y + x) / 5 == y
  {
  }

  lemma LaneOfTheta(a: Lanes, k: nat, x: nat)
    requires k < 25 && k % 5 == x
    ensures Theta(a)[k] == Xor(a[k], Parity(a, x))
  {
  }

  lemma NeighboursBit(c: Word, d: Word, z: nat)
    requires z < 64
    ensures Neighbours(c, d)[z] == (c[z] != d[(z + 63) % 64])
  {
    assert (z - 1) % 64 == (z + 63) % 64;
  }

  lemma ColumnOfBits(a: Lanes, x: nat, z: nat)
    requires x < 5 && z < 64
    ensures Column(a, x)[z] == ColumnBit(a, x, z)
  {
  }

  /** Every bit of the lane has moved up by o, around the end. */
  ghost predicate MovedUp(a: Word, b: Word, o: nat) {
    forall z: nat :: z < 64 ==> b[(z + o) % 64] == a[z]
  }

  /** Algorithm 2: the first lane stays, and the lane visited at step t moves up by (t + 1)(t + 2) / 2. */
  ghost predicate IsRho(a: Lanes, b: Lanes) {
    b[0] == a[0] && forall t: nat :: t < 24 ==> RhoLane(a, b, t)
  }

  ghost predicate RhoLane(a: Lanes, b: Lanes, t: nat) {
    var (x, y) := Visited(t);
    x < 5 && y < 5 && MovedUp(a[5 * y + x], b[5 * y + x], (t + 1) * (t + 2) / 2)
  }

  lemma IsRhoOf(a: Lanes)
    ensures IsRho(a, Rho(a))
  {
    RolByNone(a[0]);
    forall t: nat | t < 24 ensures RhoLane(a, Rho(a), t) { RhoLaneOf(a, t); }
  }

  lemma RhoLaneOf(a: Lanes, t: nat)
    requires t < 24
    ensures RhoLane(a, Rho(a), t)
  {
    OffsetsFollow(t);
    var (x, y) := Visited(t);
    LaneOfRho(a, 5 * y + x);
    RolMovesUp(a[5 * y + x], OFFSETS[5 * y + x], (t + 1) * (t + 2) / 2);
  }

  lemma LaneOfRho(a: Lanes, k: nat)
    requires k < 25
    ensures Rho(a)[k] == Rol(a[k], OFFSETS[k])
  {
  }

  lemma RolByNone(a: Word)
    ensures Rol(a, 0) == a
  {
    forall z | 0 <= z < 64 ensures Rol(a, 0)[z] == a[z] {}
  }

  lemma RolMovesUp(a: Word, n: nat, o: nat)
    requires n == o % 64
    ensures MovedUp(a, Rol(a, n), o)
  {
    forall z: nat | z < 64 ensures Rol(a, n)[(z + o) % 64] == a[z] { BackDown(z, o); }
  }

  lemma BackDown(z: nat, o: nat)
    requires z < 64
    ensures ((z + o) % 64 - o % 64) % 64 == z
  {
  }

  /** Algorithms 3, 4 and 6. */
  lemma OtherSteps(a: Lanes, v: Word, x: nat, y: nat, z: nat)
    requires x < 5 && y < 5 && z < 64
    ensures Pi(a)[5 * y + x] == a[5 * x + (x + 3 * y) % 5]
    ensures Chi(a)[5 * y + x][z] == (a[5 * y + x][z] != (!a[5 * y + (x + 1) % 5][z] && a[5 * y + (x + 2) % 5][z]))
    ensures Iota(a, v)[0][z] == (a[0][z] != v[z])
    ensures x + y > 0 ==> Iota(a, v)[5 * y + x] == a[5 * y + x]
  {
    var k := 5 * y + x;
    LaneIndex(x, y);
    LaneOfPi(a, k);
    LaneOfChi(a, k, z);
  }

  lemma LaneOfPi(a: Lanes, k: nat)
    requires k < 25
    ensures Pi(a)[k] == a[PiSource(k)]
  {
  }

  lemma LaneOfChi(a: Lanes, k: nat, z: nat)
    requires k < 25 && z < 64
    ensures Chi(a)[k][z] == (a[k][z] != (!a[InRow(k, 1)][z] && a[InRow(k, 2)][z]))
  {
    assert Chi(a)[k] == ChiLane(a[k], a[InRow(k, 1)], a[InRow(k, 2)]);
  }

  // ----- the tables follow from the algorithms of the standard -----

  /** (t + 1)(t + 2) / 2. */
  function Triangle(t: nat): nat {
    if t == 0 then 1 else Triangle(t - 1) + t + 1
  }

  lemma {:induction false} TriangleIsHalfProduct(t: nat)
    ensures 2 * Triangle(t) == (t + 1) * (t + 2)
  {
    if t > 0 {
      TriangleIsHalfProduct(t - 1);
      assert (t + 1) * (t + 2) == t * (t + 1) + 2 * (t + 1);
    }
  }

  lemma HalfProduct(t: nat)
    ensures (t + 1) * (t + 2) / 2 == Triangle(t)
  {
    TriangleIsHalfProduct(t);
  }

  const TRIANGLES: seq<nat> := [
    1, 3, 6, 10, 15, 21, 28, 36, 45, 55, 66, 78,
    91, 105, 120, 136, 153, 171, 190, 210, 231, 253, 276, 300]

  lemma {:induction false} TriangleValue(t: nat)
    requires t < 24
    ensures Triangle(t) == TRIANGLES[t]
  {
    if t > 0 { TriangleValue(t - 1); }
  }

  lemma OffsetOfVisited(t: nat)
    requires t < 24
    ensures WALK[t].0 < 5 && WALK[t].1 < 5 && OFFSETS[5 * WALK[t].1 + WALK[t].0] == TRIANGLES[t] % 64
  {
    match t
    case 0 => case 1 => case 2 => case 3 => case 4 => case 5 => case 6 => case 7 =>
    case 8 => case 9 => case 10 => case 11 => case 12 => case 13 => case 14 => case 15 =>
    case 16 => case 17 => case 18 => case 19 => case 20 => case 21 => case 22 => case 23 =>
  }

  /** Algorithm 2: the offset of the lane visited at step t is (t + 1)(t + 2) / 2. */
  lemma OffsetsFollow(t: nat)
    requires t < 24
    ensures var (x, y) := Visited(t);
      x < 5 && y < 5 && |OFFSETS| == 25 && OFFSETS[5 * y + x] == (t + 1) * (t + 2) / 2 % 64
  {
    assert (t + 1) * (t + 2) / 2 == TRIANGLES[t] by {
      HalfProduct(t);
      TriangleValue(t);
    }
    VisitedLane(t);
    OffsetOfVisited(t);
  }

  const WALK: seq<(nat, nat)> := [
    (1, 0), (0, 2), (2, 1), (1, 2), (2, 3), (3, 3), (3, 0), (0, 1), (1, 3), (3, 1), (1, 4), (4, 4),
    (4, 0), (0, 3), (3, 4), (4, 3), (3, 2), (2, 2), (2, 0), (0, 4), (4, 2), (2, 4), (4, 1), (1, 1)]

  lemma NextLane(t: nat)
    requires t < 23
    ensures WALK[t + 1] == (WALK[t].1, (2 * WALK[t].0 + 3 * WALK[t].1) % 5)
  {
    match t
    case 0 => case 1 => case 2 => case 3 => case 4 => case 5 => case 6 => case 7 =>
    case 8 => case 9 => case 10 => case 11 => case 12 => case 13 => case 14 => case 15 =>
    case 16 => case 17 => case 18 => case 19 => case 20 => case 21 => case 22 =>
  }

  lemma {:induction false} VisitedLane(t: nat)
    requires t < 24
    ensures |WALK| == 24 && Visited(t) == WALK[t]
  {
    if t > 0 {
      VisitedLane(t - 1);
      NextLane(t - 1);
    }
  }

  /** When a lane is visited. */
  const VISIT: seq<nat> := [
    24, 0, 18, 6, 12, 7, 23, 2, 9, 22, 1, 3, 17,
    16, 20, 13, 8, 4, 5, 15, 19, 10, 21, 14, 11]

  lemma VisitsAreInverse(k: nat)
    requires 0 < k < 25
    ensures |VISIT| == 25 && |WALK| == 24 && VISIT[k] < 24 && WALK[VISIT[k]] == (k % 5, k / 5)
  {
    match k
    case 1 => case 2 => case 3 => case 4 => case 5 => case 6 => case 7 => case 8 =>
    case 9 => case 10 => case 11 => case 12 => case 13 => case 14 => case 15 => case 16 =>
    case 17 => case 18 => case 19 => case 20 => case 21 => case 22 => case 23 => case 24 =>
  }

  /** Every lane but the first is visited, so the offsets are determined. */
  lemma EveryLaneIsVisited(k: nat)
    requires 0 < k < 25
    ensures exists t :: 0 <= t < 24 && Visited(t) == (k % 5, k / 5)
  {
    VisitsAreInverse(k);
    VisitedLane(VISIT[k]);
  }

  /** Algorithm 5: one step of the feedback register, whose bit 7 is the oldest one. */
  function Shifted(r: bv8): bv8 {
    if r & 0x80 != 0 then (r << 1) ^ 0x71 else r << 1
  }

  function Register(t: nat): bv8 {
    if t == 0 then 1 else Shifted(Register(t - 1))
  }

  /** The bit rc(t) as it stands in a lane at position p. */
  function BitAt(r: bv8, p: nat): bv64
    requires p < 64
  {
    if r & 1 != 0 then (1 as bv64) << p else 0
  }

  /** The round constant that the register yields from the state r. */
  function Constant(r: bv8): bv64 {
    var r1 := Shifted(r);
    var r2 := Shifted(r1);
    var r3 := Shifted(r2);
    var r4 := Shifted(r3);
    var r5 := Shifted(r4);
    var r6 := Shifted(r5);
    BitAt(r, 0) | BitAt(r1, 1) | BitAt(r2, 3) | BitAt(r3, 7) | BitAt(r4, 15) | BitAt(r5, 31) | BitAt(r6, 63)
  }

  /** The states of the register before each round. */
  const REGISTERS: seq<bv8> := [
    0x01, 0x80, 0xD8, 0x1A, 0xDF, 0x09, 0x35, 0x4F,
    0xCA, 0x70, 0x41, 0xEC, 0xD5, 0xCD, 0x63, 0xAB,
    0xAA, 0x2A, 0xF2, 0xE8, 0x37, 0x3E, 0x0B, 0x44]

  function SevenTimes(r: bv8): bv8 {
    Shifted(Shifted(Shifted(Shifted(Shifted(Shifted(Shifted(r)))))))
  }

  lemma FirstRegisters(i: nat)
    requires 0 < i < 12
    ensures SevenTimes(REGISTERS[i - 1]) == REGISTERS[i]
  {
    match i
    case 1 => case 2 => case 3 => case 4 => case 5 => case 6 => case 7 => case 8 =>
    case 9 => case 10 => case 11 =>
  }

  lemma LastRegisters(i: nat)
    requires 12 <= i < 24
    ensures SevenTimes(REGISTERS[i - 1]) == REGISTERS[i]
  {
    match i
    case 12 => case 13 => case 14 => case 15 => case 16 => case 17 => case 18 => case 19 =>
    case 20 => case 21 => case 22 => case 23 =>
  }

  lemma {:induction false} RegisterBeforeRound(i: nat)
    requires i < 24
    ensures Register(7 * i) == REGISTERS[i]
  {
    if i > 0 {
      RegisterBeforeRound(i - 1);
      SevenSteps(7 * (i - 1));
      if i < 12 { FirstRegisters(i); } else { LastRegisters(i); }
    }
  }

  lemma SevenSteps(t: nat)
    ensures Register(t + 7) == SevenTimes(Register(t))
  {
    assert Register(t + 1) == Shifted(Register(t));
    assert Register(t + 2) == Shifted(Register(t + 1));
    assert Register(t + 3) == Shifted(Register(t + 2));
    assert Register(t + 4) == Shifted(Register(t + 3));
    assert Register(t + 5) == Shifted(Register(t + 4));
    assert Register(t + 6) == Shifted(Register(t + 5));
  }

  lemma FirstConstants(i: nat)
    requires i < 12
    ensures RC[i] == Constant(REGISTERS[i])
  {
    match i
    case 0 => case 1 => case 2 => case 3 => case 4 => case 5 => case 6 => case 7 =>
    case 8 => case 9 => case 10 => case 11 =>
  }

  lemma LastConstants(i: nat)
    requires 12 <= i < 24
    ensures RC[i] == Constant(REGISTERS[i])
  {
    match i
    case 12 => case 13 => case 14 => case 15 => case 16 => case 17 => case 18 => case 19 =>
    case 20 => case 21 => case 22 => case 23 =>
  }

  /** The round constant of round i is made of the bits rc(7*i), ..., rc(7*i + 6). */
  lemma ConstantsFollow(i: nat)
    requires i < 24
    ensures RC[i] == Constant(Register(7 * i))
  {
    RegisterBeforeRound(i);
    if i < 12 { FirstConstants(i); } else { LastConstants(i); }
  }

  lemma LowBitsOfConstant(r: bv8)
    ensures var r1, r2 := Shifted(r), Shifted(Shifted(r));
      && (IsSet(Constant(r), 0) <==> r & 1 != 0) && (IsSet(Constant(r), 1) <==> r1 & 1 != 0)
      && (IsSet(Constant(r), 3) <==> r2 & 1 != 0) && (IsSet(Constant(r), 7) <==> Shifted(r2) & 1 != 0)
  {
  }

  lemma HighBitsOfConstant(r: bv8)
    ensures var r4 := Shifted(Shifted(Shifted(Shifted(r))));
      && (IsSet(Constant(r), 15) <==> r4 & 1 != 0) && (IsSet(Constant(r), 31) <==> Shifted(r4) & 1 != 0)
      && (IsSet(Constant(r), 63) <==> Shifted(Shifted(r4)) & 1 != 0)
  {
  }

  /** The bits of a round constant at 2^j - 1 are the lowest bits of the register after 7 * i + j steps. */
  lemma SevenBits(i: nat)
    requires i < 24
    ensures && (IsSet(RC[i], 0) <==> Register(7 * i) & 1 != 0) && (IsSet(RC[i], 1) <==> Register(7 * i + 1) & 1 != 0)
            && (IsSet(RC[i], 3) <==> Register(7 * i + 2) & 1 != 0)
            && (IsSet(RC[i], 7) <==> Register(7 * i + 3) & 1 != 0)
            && (IsSet(RC[i], 15) <==> Register(7 * i + 4) & 1 != 0)
            && (IsSet(RC[i], 31) <==> Register(7 * i + 5) & 1 != 0)
            && (IsSet(RC[i], 63) <==> Register(7 * i + 6) & 1 != 0)
  {
    ConstantsFollow(i);
    LowBitsOfConstant(Register(7 * i));
    HighBitsOfConstant(Register(7 * i));
    SixSteps(7 * i);
  }

  lemma SixSteps(t: nat)
    ensures Register(t + 1) == Shifted(Register(t)) && Register(t + 2) == Shifted(Register(t + 1))
    ensures Register(t + 3) == Shifted(Register(t + 2)) && Register(t + 4) == Shifted(Register(t + 3))
    ensures Register(t + 5) == Shifted(Register(t + 4)) && Register(t + 6) == Shifted(Register(t + 5))
  {
  }

  /** Its other bits are zeros. */
  lemma OnlySevenBits(i: nat, z: nat)
    requires i < 24 && z < 64
    ensures IsSet(RC[i], z) ==> z in {0, 1, 3, 7, 15, 31, 63}
  {
    match i
    case 0 => case 1 => case 2 => case 3 => case 4 => case 5 => case 6 => case 7 =>
    case 8 => case 9 => case 10 => case 11 => case 12 => case 13 => case 14 => case 15 =>
    case 16 => case 17 => case 18 => case 19 => case 20 => case 21 => case 22 => case 23 =>
  }
}
