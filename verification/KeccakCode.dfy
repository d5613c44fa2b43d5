/** The permutation as src/keccak.c computes it: 25 registers that are never moved by the pi step but
    renamed, six lanes kept complemented, eight rounds unrolled. Register a_xy has number x + 5*y,
    and so has the macro parameter b_xy in an argument list. */
module KeccakCode {
  import opened KeccakSpec

  /** The argument lists P0 to P23. */
  const P0: seq<nat> := [0, 1, 2, 3, 4, 5, 6, 7, 8, 9, 10, 11, 12, 13, 14, 15, 16, 17, 18, 19, 20, 21, 22, 23, 24]
  const P1: seq<nat> := [0, 6, 12, 18, 24, 3, 9, 10, 16, 22, 1, 7, 13, 19, 20, 4, 5, 11, 17, 23, 2, 8, 14, 15, 21]
  const P2: seq<nat> := [0, 9, 13, 17, 21, 18, 22, 1, 5, 14, 6, 10, 19, 23, 2, 24, 3, 7, 11, 15, 12, 16, 20, 4, 8]
  const P3: seq<nat> := [0, 22, 19, 11, 8, 17, 14, 6, 3, 20, 9, 1, 23, 15, 12, 21, 18, 10, 7, 4, 13, 5, 2, 24, 16]
  const P4: seq<nat> := [0, 14, 23, 7, 16, 11, 20, 9, 18, 2, 22, 6, 15, 4, 13, 8, 17, 1, 10, 24, 19, 3, 12, 21, 5]
  const P5: seq<nat> := [0, 20, 15, 10, 5, 7, 2, 22, 17, 12, 14, 9, 4, 24, 19, 16, 11, 6, 1, 21, 23, 18, 13, 8, 3]
  const P6: seq<nat> := [0, 2, 4, 1, 3, 10, 12, 14, 11, 13, 20, 22, 24, 21, 23, 5, 7, 9, 6, 8, 15, 17, 19, 16, 18]
  const P7: seq<nat> := [0, 12, 24, 6, 18, 1, 13, 20, 7, 19, 2, 14, 21, 8, 15, 3, 10, 22, 9, 16, 4, 11, 23, 5, 17]
  const P8: seq<nat> := [0, 13, 21, 9, 17, 6, 19, 2, 10, 23, 12, 20, 8, 16, 4, 18, 1, 14, 22, 5, 24, 7, 15, 3, 11]
  const P9: seq<nat> := [0, 19, 8, 22, 11, 9, 23, 12, 1, 15, 13, 2, 16, 5, 24, 17, 6, 20, 14, 3, 21, 10, 4, 18, 7]
  const P10: seq<nat> := [0, 23, 16, 14, 7, 22, 15, 13, 6, 4, 19, 12, 5, 3, 21, 11, 9, 2, 20, 18, 8, 1, 24, 17, 10]
  const P11: seq<nat> := [0, 15, 5, 20, 10, 14, 4, 19, 9, 24, 23, 13, 3, 18, 8, 7, 22, 12, 2, 17, 16, 6, 21, 11, 1]
  const P12: seq<nat> := [0, 4, 3, 2, 1, 20, 24, 23, 22, 21, 15, 19, 18, 17, 16, 10, 14, 13, 12, 11, 5, 9, 8, 7, 6]
  const P13: seq<nat> := [0, 24, 18, 12, 6, 2, 21, 15, 14, 8, 4, 23, 17, 11, 5, 1, 20, 19, 13, 7, 3, 22, 16, 10, 9]
  const P14: seq<nat> := [0, 21, 17, 13, 9, 12, 8, 4, 20, 16, 24, 15, 11, 7, 3, 6, 2, 23, 19, 10, 18, 14, 5, 1, 22]
  const P15: seq<nat> := [0, 8, 11, 19, 22, 13, 16, 24, 2, 5, 21, 4, 7, 10, 18, 9, 12, 15, 23, 1, 17, 20, 3, 6, 14]
  const P16: seq<nat> := [0, 16, 7, 23, 14, 19, 5, 21, 12, 3, 8, 24, 10, 1, 17, 22, 13, 4, 15, 6, 11, 2, 18, 9, 20]
  const P17: seq<nat> := [0, 5, 10, 15, 20, 23, 3, 8, 13, 18, 16, 21, 1, 6, 11, 14, 19, 24, 4, 9, 7, 12, 17, 22, 2]
  const P18: seq<nat> := [0, 3, 1, 4, 2, 15, 18, 16, 19, 17, 5, 8, 6, 9, 7, 20, 23, 21, 24, 22, 10, 13, 11, 14, 12]
  const P19: seq<nat> := [0, 18, 6, 24, 12, 4, 17, 5, 23, 11, 3, 16, 9, 22, 10, 2, 15, 8, 21, 14, 1, 19, 7, 20, 13]
  const P20: seq<nat> := [0, 17, 9, 21, 13, 24, 11, 3, 15, 7, 18, 5, 22, 14, 1, 12, 4, 16, 8, 20, 6, 23, 10, 2, 19]
  const P21: seq<nat> := [0, 11, 22, 8, 19, 21, 7, 18, 4, 10, 17, 3, 14, 20, 6, 13, 24, 5, 16, 2, 9, 15, 1, 12, 23]
  const P22: seq<nat> := [0, 7, 14, 16, 23, 8, 10, 17, 24, 1, 11, 18, 20, 2, 9, 19, 21, 3, 5, 12, 22, 4, 6, 13, 15]
  const P23: seq<nat> := [0, 10, 20, 5, 15, 16, 1, 11, 21, 6, 7, 17, 2, 12, 22, 23, 8, 18, 3, 13, 14, 24, 9, 19, 4]

  ghost predicate Apart(p: seq<nat>, i: nat, j: nat)
    requires i < |p| && j < |p|
  {
    p[i] != p[j]
  }

  ghost predicate Renaming(p: seq<nat>) {
    |p| == 25 && (forall j :: 0 <= j < 25 ==> p[j] < 25) && (forall i, j :: 0 <= i < j < 25 ==> Apart(p, i, j))
  }

  lemma NamesAreApart(p: seq<nat>)
    requires Renaming(p)
    ensures forall i, j :: 0 <= i < j < 25 ==> p[i] != p[j]
  {
    forall i, j | 0 <= i < j < 25 ensures p[i] != p[j] { assert Apart(p, i, j); }
  }

  /** The lanes that registers hold under a renaming. */
  function View(regs: seq<Word>, p: seq<nat>): Lanes
    requires |regs| == 25 && Renaming(p)
  {
    seq(25, k requires 0 <= k < 25 => regs[p[k]])
  }

  // ----- the macros -----

  function Or(a: Word, b: Word): Word {
    seq(64, z requires 0 <= z < 64 => a[z] || b[z])
  }

  function ShiftLeft(a: Word, n: nat): Word {
    seq(64, z requires 0 <= z < 64 => z >= n && a[z - n])
  }

  function ShiftRight(a: Word, n: nat): Word {
    seq(64, z requires 0 <= z < 64 => z + n < 64 && a[z + n])
  }

  /** SPH_ROTL64. */
  function Rotl64(a: Word, n: nat): Word
    requires n <= 64
  {
    Or(ShiftLeft(a, n), ShiftRight(a, 64 - n))
  }

  lemma RotlIsRol(a: Word, n: nat)
    requires n < 64
    ensures Rotl64(a, n) == Rol(a, n)
  {
    forall z | 0 <= z < 64 ensures Rotl64(a, n)[z] == Rol(a, n)[z] {
      if z >= n { assert (z - n) % 64 == z - n; } else { assert (z - n) % 64 == z - n + 64; }
    }
  }

  /** TH_ELT. */
  function ThElt(c0: Word, c1: Word, c2: Word, c3: Word, c4: Word, d0: Word, d1: Word, d2: Word, d3: Word,
                 d4: Word): Word {
    var tt0 := Rotl64(Xor(Xor(Xor(d0, d1), d4), Xor(d2, d3)), 1);
    Xor(Xor(tt0, c4), Xor(Xor(c0, c1), Xor(c2, c3)))
  }

  lemma XorOrder(d0: Word, d1: Word, d2: Word, d3: Word, d4: Word)
    ensures Xor(Xor(Xor(d0, d1), d4), Xor(d2, d3)) == Xor5(d0, d1, d2, d3, d4)
  {
  }

  lemma XorLast(t: Word, c0: Word, c1: Word, c2: Word, c3: Word, c4: Word)
    ensures Xor(Xor(t, c4), Xor(Xor(c0, c1), Xor(c2, c3))) == Xor(Xor5(c0, c1, c2, c3, c4), t)
  {
  }

  lemma ThEltIsParity(c0: Word, c1: Word, c2: Word, c3: Word, c4: Word, d0: Word, d1: Word, d2: Word, d3: Word,
                      d4: Word)
    ensures ThElt(c0, c1, c2, c3, c4, d0, d1, d2, d3, d4) ==
      Neighbours(Xor5(c0, c1, c2, c3, c4), Xor5(d0, d1, d2, d3, d4))
  {
    XorOrder(d0, d1, d2, d3, d4);
    RotlIsRol(Xor5(d0, d1, d2, d3, d4), 1);
    XorLast(Rol(Xor5(d0, d1, d2, d3, d4), 1), c0, c1, c2, c3, c4);
  }

  /** The values of the registers in an argument list. */
  method Fetch(a: array<Word>, p: seq<nat>) returns (b: Lanes)
    requires a.Length == 25 && Renaming(p)
    ensures b == View(a[..], p)
  {
    b := View(a[..], p);
  }

  /** Overwrites the registers in an argument list. */
  method Put(a: array<Word>, p: seq<nat>, c: Lanes)
    requires a.Length == 25 && Renaming(p)
    modifies a
    ensures View(a[..], p) == c
  {
    NamesAreApart(p);
    forall k | 0 <= k < 25 { a[p[k]] := c[k]; }
    assert forall k :: 0 <= k < 25 ==> a[p[k]] == c[k];
  }

  /** The temporaries of THETA, from the registers of the neighbouring columns. */
  method ThetaTerms(b: Lanes) returns (t: seq<Word>)
    ensures t == [Parity(b, 0), Parity(b, 1), Parity(b, 2), Parity(b, 3), Parity(b, 4)]
  {
    var t0 := ThElt(b[4], b[9], b[14], b[19], b[24], b[1], b[6], b[11], b[16], b[21]);
    ThEltIsParity(b[4], b[9], b[14], b[19], b[24], b[1], b[6], b[11], b[16], b[21]);
    var t1 := ThElt(b[0], b[5], b[10], b[15], b[20], b[2], b[7], b[12], b[17], b[22]);
    ThEltIsParity(b[0], b[5], b[10], b[15], b[20], b[2], b[7], b[12], b[17], b[22]);
    var t2 := ThElt(b[1], b[6], b[11], b[16], b[21], b[3], b[8], b[13], b[18], b[23]);
    ThEltIsParity(b[1], b[6], b[11], b[16], b[21], b[3], b[8], b[13], b[18], b[23]);
    var t3 := ThElt(b[2], b[7], b[12], b[17], b[22], b[4], b[9], b[14], b[19], b[24]);
    ThEltIsParity(b[2], b[7], b[12], b[17], b[22], b[4], b[9], b[14], b[19], b[24]);
    var t4 := ThElt(b[3], b[8], b[13], b[18], b[23], b[0], b[5], b[10], b[15], b[20]);
    ThEltIsParity(b[3], b[8], b[13], b[18], b[23], b[0], b[5], b[10], b[15], b[20]);
    t := [t0, t1, t2, t3, t4];
  }

  lemma TermsByColumn(b: Lanes, t: seq<Word>)
    requires t == [Parity(b, 0), Parity(b, 1), Parity(b, 2), Parity(b, 3), Parity(b, 4)]
    ensures forall x :: 0 <= x < 5 ==> t[x] == Parity(b, x)
  {
    forall x | 0 <= x < 5 ensures t[x] == Parity(b, x) {
      if x == 0 { } else if x == 1 { } else if x == 2 { } else if x == 3 { } else { }
    }
  }

  method ThetaColumns(b: Lanes) returns (t: seq<Word>)
    ensures |t| == 5 && forall x :: 0 <= x < 5 ==> t[x] == Parity(b, x)
  {
    t := ThetaTerms(b);
    TermsByColumn(b, t);
  }

  /** THETA. */
  method ThetaMacro(a: array<Word>, p: seq<nat>)
    requires a.Length == 25 && Renaming(p)
    modifies a
    ensures View(a[..], p) == Theta(View(old(a[..]), p)) && IsTheta(View(old(a[..]), p), View(a[..], p))
  {
    var b := Fetch(a, p);
    IsThetaOf(b);
    var t := ThetaColumns(b);
    var c := seq(25, k requires 0 <= k < 25 => Xor(b[k], t[k % 5]));
    assert c == Theta(b);
    Put(a, p, c);
  }

  /** The rotations of RHO. */
  const ROTATIONS: seq<nat> := [
    0, 1, 62, 28, 27, 36, 44, 6, 55, 20, 3, 10, 43, 25, 39, 41, 45, 15, 21, 8, 18, 2, 61, 56, 14]

  lemma RotationsAreOffsets()
    ensures ROTATIONS == OFFSETS && |ROTATIONS| == 25 && forall j :: 0 <= j < 25 ==> ROTATIONS[j] < 64
  {
  }

  /** RHO. */
  method RhoMacro(a: array<Word>, p: seq<nat>)
    requires a.Length == 25 && Renaming(p)
    modifies a
    ensures View(a[..], p) == Rho(View(old(a[..]), p)) && IsRho(View(old(a[..]), p), View(a[..], p))
  {
    var b := Fetch(a, p);
    RotationsAreOffsets();
    IsRhoOf(b);
    var c := seq(25, k requires 0 <= k < 25 => Rotl64(b[k], ROTATIONS[k]));
    forall k | 0 <= k < 25 ensures c[k] == Rho(b)[k] { RotlIsRol(b[k], ROTATIONS[k]); }
    Put(a, p, c);
  }

  /** KHI_XO and KHI_XA. */
  function Xo(a: Word, b: Word, c: Word): Word {
    Xor(a, Or(b, c))
  }

  function Xa(a: Word, b: Word, c: Word): Word {
    Xor(a, And(b, c))
  }

  /** One row of KHI: lane x of row y, from the five lanes of that row. */
  function KhiLane(y: nat, x: nat, b0: Word, b1: Word, b2: Word, b3: Word, b4: Word): Word
    requires x < 5 && y < 5
  {
    match y
    case 0 => (match x
      case 0 => Xo(b0, b1, b2) case 1 => Xo(b1, Not(b2), b3) case 2 => Xa(b2, b3, b4) case 3 => Xo(b3, b4, b0)
      case _ => Xa(b4, b0, b1))
    case 1 => (match x
      case 0 => Xo(b0, b1, b2) case 1 => Xa(b1, b2, b3) case 2 => Xo(b2, b3, Not(b4)) case 3 => Xo(b3, b4, b0)
      case _ => Xa(b4, b0, b1))
    case 2 => (match x
      case 0 => Xo(b0, b1, b2) case 1 => Xa(b1, b2, b3) case 2 => Xa(b2, Not(b3), b4) case 3 => Xo(Not(b3), b4, b0)
      case _ => Xa(b4, b0, b1))
    case 3 => (match x
      case 0 => Xa(b0, b1, b2) case 1 => Xo(b1, b2, b3) case 2 => Xo(b2, Not(b3), b4) case 3 => Xa(Not(b3), b4, b0)
      case _ => Xo(b4, b0, b1))
    case _ => (match x
      case 0 => Xa(b0, Not(b1), b2) case 1 => Xo(Not(b1), b2, b3) case 2 => Xa(b2, b3, b4) case 3 => Xo(b3, b4, b0)
      case _ => Xa(b4, b0, b1))
  }

  function Khi(a: Lanes): Lanes {
    seq(25, k requires 0 <= k < 25 =>
      var r := 5 * (k / 5); KhiLane(k / 5, k % 5, a[r], a[r + 1], a[r + 2], a[r + 3], a[r + 4]))
  }

  /** A row of KHI, the other rows as they are. */
  function KhiRow(b: Lanes, y: nat): Lanes
    requires y < 5
  {
    seq(25, k requires 0 <= k < 25 =>
      if k / 5 == y then KhiLane(y, k % 5, b[5 * y], b[5 * y + 1], b[5 * y + 2], b[5 * y + 3], b[5 * y + 4]) else b[k])
  }

  /** The first n rows of KHI. */
  function KhiRows(b: Lanes, n: nat): Lanes {
    seq(25, k requires 0 <= k < 25 => if k / 5 < n then Khi(b)[k] else b[k])
  }

  /** Overwrites the five registers of a row. */
  method PutRow(a: array<Word>, p: seq<nat>, y: nat, c: Lanes)
    requires a.Length == 25 && Renaming(p) && y < 5
    requires forall k :: 0 <= k < 25 && k / 5 != y ==> c[k] == View(a[..], p)[k]
    modifies a
    ensures View(a[..], p) == c
  {
    NamesAreApart(p);
    forall k | 5 * y <= k < 5 * y + 5 { a[p[k]] := c[k]; }
    assert forall k :: 0 <= k < 25 ==> a[p[k]] == c[k];
  }

  /** A row of KHI: five temporaries, then the registers. */
  method KhiRowMacro(a: array<Word>, p: seq<nat>, y: nat)
    requires a.Length == 25 && Renaming(p) && y < 5
    modifies a
    ensures View(a[..], p) == KhiRow(View(old(a[..]), p), y)
  {
    var b := Fetch(a, p);
    PutRow(a, p, y, KhiRow(b, y));
  }

  /** KHI, row after row. */
  method KhiMacro(a: array<Word>, p: seq<nat>)
    requires a.Length == 25 && Renaming(p)
    modifies a
    ensures View(a[..], p) == Khi(View(old(a[..]), p))
  {
    ghost var b := View(a[..], p);
    var y := 0;
    NoRow(b);
    while y < 5
      invariant y <= 5 && View(a[..], p) == KhiRows(b, y)
    {
      KhiRowMacro(a, p, y);
      NextRow(b, y);
      y := y + 1;
    }
    AllRows(b);
  }

  lemma NoRow(b: Lanes)
    ensures KhiRows(b, 0) == b
  {
  }

  lemma AllRows(b: Lanes)
    ensures KhiRows(b, 5) == Khi(b)
  {
  }

  /** No row depends on another one. */
  lemma NextRow(b: Lanes, y: nat)
    requires y < 5
    ensures KhiRow(KhiRows(b, y), y) == KhiRows(b, y + 1)
  {
    forall k | 0 <= k < 25 ensures KhiRow(KhiRows(b, y), y)[k] == KhiRows(b, y + 1)[k] {
      if k / 5 == y { RowIsWhole(b, y); }
    }
  }

  lemma RowIsWhole(b: Lanes, y: nat)
    requires y < 5
    ensures var c := KhiRows(b, y);
      c[5 * y] == b[5 * y] && c[5 * y + 1] == b[5 * y + 1] && c[5 * y + 2] == b[5 * y + 2]
      && c[5 * y + 3] == b[5 * y + 3] && c[5 * y + 4] == b[5 * y + 4]
  {
  }

  // ----- lane complementing -----

  /** All ones or all zeros. */
  function Flag(f: bool): Word {
    seq(64, _ => f)
  }

  /** All ones in the lanes of a set, zero elsewhere. */
  function Mask(lanes: set<nat>): Lanes {
    seq(25, k requires 0 <= k < 25 => Flag(k in lanes))
  }

  /** The lanes kept complemented between rounds: a10, a20, a31, a22, a23 and a04. */
  const COMPLEMENTED: set<nat> := {1, 2, 8, 12, 17, 20}

  /** The lanes complemented after theta and after rho. */
  const AFTER_THETA: set<nat> := {0, 5, 10, 15, 1, 2, 12, 17, 3, 13, 18, 23}

  /** The lanes complemented on input to KHI. */
  const BEFORE_KHI: set<nat> := {0, 5, 10, 20, 16, 2, 7, 12, 3, 18, 23, 19}

  function Xored(a: Lanes, m: Lanes): Lanes {
    seq(25, k requires 0 <= k < 25 => Xor(a[k], m[k]))
  }

  lemma XorExchange(a: Word, m: Word, b: Word, n: Word)
    ensures Xor(Xor(a, m), Xor(b, n)) == Xor(Xor(a, b), Xor(m, n))
  {
  }

  lemma XorTwice(a: Word, m: Word)
    ensures Xor(Xor(a, m), m) == a
  {
  }

  lemma XoredTwice(a: Lanes, m: Lanes)
    ensures Xored(Xored(a, m), m) == a
  {
    forall k | 0 <= k < 25 ensures Xored(Xored(a, m), m)[k] == a[k] { XorTwice(a[k], m[k]); }
  }

  lemma RolLinear(v: Word, m: Word, n: nat)
    ensures Rol(Xor(v, m), n) == Xor(Rol(v, n), Rol(m, n))
  {
  }

  lemma RolFlag(f: bool, n: nat)
    ensures Rol(Flag(f), n) == Flag(f)
  {
  }

  lemma Xor5Linear(a: Word, b: Word, c: Word, d: Word, e: Word, m: Word, n: Word, o: Word, p: Word, q: Word)
    ensures Xor5(Xor(a, m), Xor(b, n), Xor(c, o), Xor(d, p), Xor(e, q)) == Xor(Xor5(a, b, c, d, e), Xor5(m, n, o, p, q))
  {
  }

  lemma ColumnLinear(a: Lanes, m: Lanes, x: nat)
    requires x < 5
    ensures Column(Xored(a, m), x) == Xor(Column(a, x), Column(m, x))
  {
    Xor5Linear(a[x], a[5 + x], a[10 + x], a[15 + x], a[20 + x], m[x], m[5 + x], m[10 + x], m[15 + x], m[20 + x]);
  }

  lemma ParityLinear(a: Lanes, m: Lanes, x: nat)
    requires x < 5
    ensures Parity(Xored(a, m), x) == Xor(Parity(a, x), Parity(m, x))
  {
    var w, e := (x + 4) % 5, (x + 1) % 5;
    ColumnLinear(a, m, w);
    ColumnLinear(a, m, e);
    RolLinear(Column(a, e), Column(m, e), 1);
    XorExchange(Column(a, w), Column(m, w), Rol(Column(a, e), 1), Rol(Column(m, e), 1));
  }

  /** Theta is linear over exclusive or. */
  lemma ThetaLinear(a: Lanes, m: Lanes)
    ensures Theta(Xored(a, m)) == Xored(Theta(a), Theta(m))
  {
    forall k | 0 <= k < 25 ensures Theta(Xored(a, m))[k] == Xored(Theta(a), Theta(m))[k] {
      ParityLinear(a, m, k % 5);
      XorExchange(a[k], m[k], Parity(a, k % 5), Parity(m, k % 5));
    }
  }

  lemma RhoLinear(a: Lanes, m: Lanes)
    ensures Rho(Xored(a, m)) == Xored(Rho(a), Rho(m))
  {
    forall k | 0 <= k < 25 ensures Rho(Xored(a, m))[k] == Xored(Rho(a), Rho(m))[k] {
      RolLinear(a[k], m[k], OFFSETS[k]);
    }
  }

  lemma PiLinear(a: Lanes, m: Lanes)
    ensures Pi(Xored(a, m)) == Xored(Pi(a), Pi(m))
  {
    forall k | 0 <= k < 25 ensures Pi(Xored(a, m))[k] == Xored(Pi(a), Pi(m))[k] {
      assert 0 <= PiSource(k) < 25;
    }
  }

  lemma XorFlags(f: bool, g: bool)
    ensures Xor(Flag(f), Flag(g)) == Flag(f != g)
  {
  }

  predicate OddColumn(lanes: set<nat>, x: nat) {
    ((((x in lanes) != (5 + x in lanes)) != (10 + x in lanes)) != (15 + x in lanes)) != (20 + x in lanes)
  }

  lemma ColumnOfMask(lanes: set<nat>, x: nat)
    requires x < 5
    ensures Column(Mask(lanes), x) == Flag(OddColumn(lanes, x))
  {
    XorFlags(x in lanes, 5 + x in lanes);
    XorFlags((x in lanes) != (5 + x in lanes), 10 + x in lanes);
    XorFlags(((x in lanes) != (5 + x in lanes)) != (10 + x in lanes), 15 + x in lanes);
    XorFlags((((x in lanes) != (5 + x in lanes)) != (10 + x in lanes)) != (15 + x in lanes), 20 + x in lanes);
  }

  lemma ParityOfMask(lanes: set<nat>, x: nat)
    requires x < 5
    ensures Parity(Mask(lanes), x) == Flag(OddColumn(lanes, (x + 4) % 5) != OddColumn(lanes, (x + 1) % 5))
  {
    var w, e := (x + 4) % 5, (x + 1) % 5;
    ColumnOfMask(lanes, w);
    ColumnOfMask(lanes, e);
    RolFlag(OddColumn(lanes, e), 1);
    XorFlags(OddColumn(lanes, w), OddColumn(lanes, e));
  }

  /** The parities of the mask: all ones in columns 0 and 3. */
  lemma MaskParities(x: nat)
    requires x < 5
    ensures Parity(Mask(COMPLEMENTED), x) == Flag(x == 0 || x == 3)
  {
    var w, e := (x + 4) % 5, (x + 1) % 5;
    assert (w != 4) != (e != 4) <==> x == 0 || x == 3;
    OddColumns(w);
    OddColumns(e);
    ParityOfMask(COMPLEMENTED, x);
  }

  lemma OddColumns(x: nat)
    requires x < 5
    ensures OddColumn(COMPLEMENTED, x) == (x != 4)
  {
  }

  lemma MaskedColumns(k: nat)
    requires k < 25
    ensures ((k in COMPLEMENTED) != (k % 5 == 0 || k % 5 == 3)) == (k in AFTER_THETA)
  {
  }

  lemma MaskAfterTheta()
    ensures Theta(Mask(COMPLEMENTED)) == Mask(AFTER_THETA)
  {
    var m := Mask(COMPLEMENTED);
    forall k | 0 <= k < 25 ensures Theta(m)[k] == Mask(AFTER_THETA)[k] {
      MaskParities(k % 5);
      XorFlags(k in COMPLEMENTED, k % 5 == 0 || k % 5 == 3);
      MaskedColumns(k);
    }
  }

  lemma MaskAfterRho(lanes: set<nat>)
    ensures Rho(Mask(lanes)) == Mask(lanes)
  {
    forall k | 0 <= k < 25 ensures Rho(Mask(lanes))[k] == Mask(lanes)[k] {
      RolFlag(k in lanes, OFFSETS[k]);
    }
  }

  lemma PiOfLowLanes(k: nat)
    requires k < 13
    ensures PiSource(k) in AFTER_THETA <==> k in BEFORE_KHI
  {
  }

  lemma PiOfHighLanes(k: nat)
    requires 13 <= k < 25
    ensures PiSource(k) in AFTER_THETA <==> k in BEFORE_KHI
  {
  }

  lemma MaskAfterPi()
    ensures Pi(Mask(AFTER_THETA)) == Mask(BEFORE_KHI)
  {
    forall k | 0 <= k < 25 ensures Pi(Mask(AFTER_THETA))[k] == Mask(BEFORE_KHI)[k] {
      if k < 13 { PiOfLowLanes(k); } else { PiOfHighLanes(k); }
    }
  }

  // ----- KHI on complemented lanes -----

  lemma KhiRow0(b0: Word, b1: Word, b2: Word, b3: Word, b4: Word)
    ensures KhiLane(0, 0, Xor(b0, Flag(true)), Xor(b1, Flag(false)), Xor(b2, Flag(true)), Xor(b3, Flag(true)),
      Xor(b4, Flag(false))) ==
      Xor(ChiLane(b0, b1, b2), Flag(false))
    ensures KhiLane(0, 1, Xor(b0, Flag(true)), Xor(b1, Flag(false)), Xor(b2, Flag(true)), Xor(b3, Flag(true)),
      Xor(b4, Flag(false))) ==
      Xor(ChiLane(b1, b2, b3), Flag(true))
    ensures KhiLane(0, 2, Xor(b0, Flag(true)), Xor(b1, Flag(false)), Xor(b2, Flag(true)), Xor(b3, Flag(true)),
      Xor(b4, Flag(false))) ==
      Xor(ChiLane(b2, b3, b4), Flag(true))
    ensures KhiLane(0, 3, Xor(b0, Flag(true)), Xor(b1, Flag(false)), Xor(b2, Flag(true)), Xor(b3, Flag(true)),
      Xor(b4, Flag(false))) ==
      Xor(ChiLane(b3, b4, b0), Flag(false))
    ensures KhiLane(0, 4, Xor(b0, Flag(true)), Xor(b1, Flag(false)), Xor(b2, Flag(true)), Xor(b3, Flag(true)),
      Xor(b4, Flag(false))) ==
      Xor(ChiLane(b4, b0, b1), Flag(false))
  {
  }

  lemma KhiRow1(b0: Word, b1: Word, b2: Word, b3: Word, b4: Word)
    ensures KhiLane(1, 0, Xor(b0, Flag(true)), Xor(b1, Flag(false)), Xor(b2, Flag(true)), Xor(b3, Flag(false)),
      Xor(b4, Flag(false))) ==
      Xor(ChiLane(b0, b1, b2), Flag(false))
    ensures KhiLane(1, 1, Xor(b0, Flag(true)), Xor(b1, Flag(false)), Xor(b2, Flag(true)), Xor(b3, Flag(false)),
      Xor(b4, Flag(false))) ==
      Xor(ChiLane(b1, b2, b3), Flag(false))
    ensures KhiLane(1, 2, Xor(b0, Flag(true)), Xor(b1, Flag(false)), Xor(b2, Flag(true)), Xor(b3, Flag(false)),
      Xor(b4, Flag(false))) ==
      Xor(ChiLane(b2, b3, b4), Flag(false))
    ensures KhiLane(1, 3, Xor(b0, Flag(true)), Xor(b1, Flag(false)), Xor(b2, Flag(true)), Xor(b3, Flag(false)),
      Xor(b4, Flag(false))) ==
      Xor(ChiLane(b3, b4, b0), Flag(true))
    ensures KhiLane(1, 4, Xor(b0, Flag(true)), Xor(b1, Flag(false)), Xor(b2, Flag(true)), Xor(b3, Flag(false)),
      Xor(b4, Flag(false))) ==
      Xor(ChiLane(b4, b0, b1), Flag(false))
  {
  }

  lemma KhiRow2(b0: Word, b1: Word, b2: Word, b3: Word, b4: Word)
    ensures KhiLane(2, 0, Xor(b0, Flag(true)), Xor(b1, Flag(false)), Xor(b2, Flag(true)), Xor(b3, Flag(false)),
      Xor(b4, Flag(false))) ==
      Xor(ChiLane(b0, b1, b2), Flag(false))
    ensures KhiLane(2, 1, Xor(b0, Flag(true)), Xor(b1, Flag(false)), Xor(b2, Flag(true)), Xor(b3, Flag(false)),
      Xor(b4, Flag(false))) ==
      Xor(ChiLane(b1, b2, b3), Flag(false))
    ensures KhiLane(2, 2, Xor(b0, Flag(true)), Xor(b1, Flag(false)), Xor(b2, Flag(true)), Xor(b3, Flag(false)),
      Xor(b4, Flag(false))) ==
      Xor(ChiLane(b2, b3, b4), Flag(true))
    ensures KhiLane(2, 3, Xor(b0, Flag(true)), Xor(b1, Flag(false)), Xor(b2, Flag(true)), Xor(b3, Flag(false)),
      Xor(b4, Flag(false))) ==
      Xor(ChiLane(b3, b4, b0), Flag(false))
    ensures KhiLane(2, 4, Xor(b0, Flag(true)), Xor(b1, Flag(false)), Xor(b2, Flag(true)), Xor(b3, Flag(false)),
      Xor(b4, Flag(false))) ==
      Xor(ChiLane(b4, b0, b1), Flag(false))
  {
  }

  lemma KhiRow3(b0: Word, b1: Word, b2: Word, b3: Word, b4: Word)
    ensures KhiLane(3, 0, Xor(b0, Flag(false)), Xor(b1, Flag(true)), Xor(b2, Flag(false)), Xor(b3, Flag(true)),
      Xor(b4, Flag(true))) ==
      Xor(ChiLane(b0, b1, b2), Flag(false))
    ensures KhiLane(3, 1, Xor(b0, Flag(false)), Xor(b1, Flag(true)), Xor(b2, Flag(false)), Xor(b3, Flag(true)),
      Xor(b4, Flag(true))) ==
      Xor(ChiLane(b1, b2, b3), Flag(false))
    ensures KhiLane(3, 2, Xor(b0, Flag(false)), Xor(b1, Flag(true)), Xor(b2, Flag(false)), Xor(b3, Flag(true)),
      Xor(b4, Flag(true))) ==
      Xor(ChiLane(b2, b3, b4), Flag(true))
    ensures KhiLane(3, 3, Xor(b0, Flag(false)), Xor(b1, Flag(true)), Xor(b2, Flag(false)), Xor(b3, Flag(true)),
      Xor(b4, Flag(true))) ==
      Xor(ChiLane(b3, b4, b0), Flag(false))
    ensures KhiLane(3, 4, Xor(b0, Flag(false)), Xor(b1, Flag(true)), Xor(b2, Flag(false)), Xor(b3, Flag(true)),
      Xor(b4, Flag(true))) ==
      Xor(ChiLane(b4, b0, b1), Flag(false))
  {
  }

  lemma KhiRow4(b0: Word, b1: Word, b2: Word, b3: Word, b4: Word)
    ensures KhiLane(4, 0, Xor(b0, Flag(true)), Xor(b1, Flag(false)), Xor(b2, Flag(false)), Xor(b3, Flag(true)),
      Xor(b4, Flag(false))) ==
      Xor(ChiLane(b0, b1, b2), Flag(true))
    ensures KhiLane(4, 1, Xor(b0, Flag(true)), Xor(b1, Flag(false)), Xor(b2, Flag(false)), Xor(b3, Flag(true)),
      Xor(b4, Flag(false))) ==
      Xor(ChiLane(b1, b2, b3), Flag(false))
    ensures KhiLane(4, 2, Xor(b0, Flag(true)), Xor(b1, Flag(false)), Xor(b2, Flag(false)), Xor(b3, Flag(true)),
      Xor(b4, Flag(false))) ==
      Xor(ChiLane(b2, b3, b4), Flag(false))
    ensures KhiLane(4, 3, Xor(b0, Flag(true)), Xor(b1, Flag(false)), Xor(b2, Flag(false)), Xor(b3, Flag(true)),
      Xor(b4, Flag(false))) ==
      Xor(ChiLane(b3, b4, b0), Flag(false))
    ensures KhiLane(4, 4, Xor(b0, Flag(true)), Xor(b1, Flag(false)), Xor(b2, Flag(false)), Xor(b3, Flag(true)),
      Xor(b4, Flag(false))) ==
      Xor(ChiLane(b4, b0, b1), Flag(false))
  {
  }

  /** Lane x of chi of one row. */
  function ChiOfRow(x: nat, b0: Word, b1: Word, b2: Word, b3: Word, b4: Word): Word
    requires x < 5
  {
    match x
    case 0 => ChiLane(b0, b1, b2)
    case 1 => ChiLane(b1, b2, b3)
    case 2 => ChiLane(b2, b3, b4)
    case 3 => ChiLane(b3, b4, b0)
    case _ => ChiLane(b4, b0, b1)
  }

  lemma RowIndex(y: nat, x: nat)
    requires x < 5 && y < 5
    ensures (5 * y + x) / 5 == y && (5 * y + x) % 5 == x
  {
  }

  lemma ChiByRows(b: Lanes, y: nat, x: nat)
    requires x < 5 && y < 5
    ensures Chi(b)[5 * y + x] == ChiOfRow(x, b[5 * y], b[5 * y + 1], b[5 * y + 2], b[5 * y + 3], b[5 * y + 4])
  {
    RowIndex(y, x);
    match x
    case 0 => case 1 => case 2 => case 3 => case 4 =>
  }

  /** A lane of KHI, the registers complemented as BEFORE_KHI says. */
  lemma KhiLaneOfRow0(y: nat, x: nat, b0: Word, b1: Word, b2: Word, b3: Word, b4: Word)
    requires x < 5 && y == 0
    ensures KhiLane(y, x, Xor(b0, Flag(5 * y + 0 in BEFORE_KHI)), Xor(b1, Flag(5 * y + 1 in BEFORE_KHI)),
      Xor(b2, Flag(5 * y + 2 in BEFORE_KHI)), Xor(b3, Flag(5 * y + 3 in BEFORE_KHI)),
      Xor(b4, Flag(5 * y + 4 in BEFORE_KHI))) ==
      Xor(ChiOfRow(x, b0, b1, b2, b3, b4), Flag(5 * y + x in COMPLEMENTED))
  {
    KhiRow0(b0, b1, b2, b3, b4);
  }

  lemma KhiLaneOfRow1(y: nat, x: nat, b0: Word, b1: Word, b2: Word, b3: Word, b4: Word)
    requires x < 5 && y == 1
    ensures KhiLane(y, x, Xor(b0, Flag(5 * y + 0 in BEFORE_KHI)), Xor(b1, Flag(5 * y + 1 in BEFORE_KHI)),
      Xor(b2, Flag(5 * y + 2 in BEFORE_KHI)), Xor(b3, Flag(5 * y + 3 in BEFORE_KHI)),
      Xor(b4, Flag(5 * y + 4 in BEFORE_KHI))) ==
      Xor(ChiOfRow(x, b0, b1, b2, b3, b4), Flag(5 * y + x in COMPLEMENTED))
  {
    KhiRow1(b0, b1, b2, b3, b4);
  }

  lemma KhiLaneOfRow2(y: nat, x: nat, b0: Word, b1: Word, b2: Word, b3: Word, b4: Word)
    requires x < 5 && y == 2
    ensures KhiLane(y, x, Xor(b0, Flag(5 * y + 0 in BEFORE_KHI)), Xor(b1, Flag(5 * y + 1 in BEFORE_KHI)),
      Xor(b2, Flag(5 * y + 2 in BEFORE_KHI)), Xor(b3, Flag(5 * y + 3 in BEFORE_KHI)),
      Xor(b4, Flag(5 * y + 4 in BEFORE_KHI))) ==
      Xor(ChiOfRow(x, b0, b1, b2, b3, b4), Flag(5 * y + x in COMPLEMENTED))
  {
    KhiRow2(b0, b1, b2, b3, b4);
  }

  lemma KhiLaneOfRow3(y: nat, x: nat, b0: Word, b1: Word, b2: Word, b3: Word, b4: Word)
    requires x < 5 && y == 3
    ensures KhiLane(y, x, Xor(b0, Flag(5 * y + 0 in BEFORE_KHI)), Xor(b1, Flag(5 * y + 1 in BEFORE_KHI)),
      Xor(b2, Flag(5 * y + 2 in BEFORE_KHI)), Xor(b3, Flag(5 * y + 3 in BEFORE_KHI)),
      Xor(b4, Flag(5 * y + 4 in BEFORE_KHI))) ==
      Xor(ChiOfRow(x, b0, b1, b2, b3, b4), Flag(5 * y + x in COMPLEMENTED))
  {
    KhiRow3(b0, b1, b2, b3, b4);
  }

  lemma KhiLaneOfRow4(y: nat, x: nat, b0: Word, b1: Word, b2: Word, b3: Word, b4: Word)
    requires x < 5 && y == 4
    ensures KhiLane(y, x, Xor(b0, Flag(5 * y + 0 in BEFORE_KHI)), Xor(b1, Flag(5 * y + 1 in BEFORE_KHI)),
      Xor(b2, Flag(5 * y + 2 in BEFORE_KHI)), Xor(b3, Flag(5 * y + 3 in BEFORE_KHI)),
      Xor(b4, Flag(5 * y + 4 in BEFORE_KHI))) ==
      Xor(ChiOfRow(x, b0, b1, b2, b3, b4), Flag(5 * y + x in COMPLEMENTED))
  {
    KhiRow4(b0, b1, b2, b3, b4);
  }

  lemma KhiOfMasked(b: Lanes, y: nat, x: nat)
    requires x < 5 && y < 5
    ensures Khi(Xored(b, Mask(BEFORE_KHI)))[5 * y + x] == Xored(Chi(b), Mask(COMPLEMENTED))[5 * y + x]
  {
    RowIndex(y, x);
    ChiByRows(b, y, x);
    KhiOfRow(b, y, x);
  }

  lemma KhiOfRow(b: Lanes, y: nat, x: nat)
    requires x < 5 && y < 5
    ensures KhiLane(y, x, Xored(b, Mask(BEFORE_KHI))[5 * y], Xored(b, Mask(BEFORE_KHI))[5 * y + 1],
        Xored(b, Mask(BEFORE_KHI))[5 * y + 2], Xored(b, Mask(BEFORE_KHI))[5 * y + 3],
          Xored(b, Mask(BEFORE_KHI))[5 * y + 4]) ==
      Xor(ChiOfRow(x, b[5 * y], b[5 * y + 1], b[5 * y + 2], b[5 * y + 3], b[5 * y + 4]),
        Flag(5 * y + x in COMPLEMENTED))
  {
    match y
    case 0 => KhiLaneOfRow0(y, x, b[5 * y], b[5 * y + 1], b[5 * y + 2], b[5 * y + 3], b[5 * y + 4]);
    case 1 => KhiLaneOfRow1(y, x, b[5 * y], b[5 * y + 1], b[5 * y + 2], b[5 * y + 3], b[5 * y + 4]);
    case 2 => KhiLaneOfRow2(y, x, b[5 * y], b[5 * y + 1], b[5 * y + 2], b[5 * y + 3], b[5 * y + 4]);
    case 3 => KhiLaneOfRow3(y, x, b[5 * y], b[5 * y + 1], b[5 * y + 2], b[5 * y + 3], b[5 * y + 4]);
    case 4 => KhiLaneOfRow4(y, x, b[5 * y], b[5 * y + 1], b[5 * y + 2], b[5 * y + 3], b[5 * y + 4]);
  }

  /** KHI computes chi between complemented lanes: the mask it expects becomes the mask between rounds. */
  lemma KhiIsChi(b: Lanes)
    ensures Khi(Xored(b, Mask(BEFORE_KHI))) == Xored(Chi(b), Mask(COMPLEMENTED))
  {
    forall k | 0 <= k < 25 ensures Khi(Xored(b, Mask(BEFORE_KHI)))[k] == Xored(Chi(b), Mask(COMPLEMENTED))[k] {
      KhiOfMasked(b, k / 5, k % 5);
      assert 5 * (k / 5) + k % 5 == k;
    }
  }

  lemma IotaOfMasked(a: Lanes, k: Word)
    ensures Iota(Xored(a, Mask(COMPLEMENTED)), k) == Xored(Iota(a, k), Mask(COMPLEMENTED))
  {
    var m := Mask(COMPLEMENTED);
    XorOrder3(a[0], m[0], k);
    forall j | 0 <= j < 25 ensures Iota(Xored(a, m), k)[j] == Xored(Iota(a, k), m)[j] { }
  }

  lemma XorOrder3(a: Word, b: Word, c: Word)
    ensures Xor(Xor(a, b), c) == Xor(Xor(a, c), b)
  {
  }

  /** One round on complemented lanes is one round on the lanes themselves. */
  lemma MaskedRound(a: Lanes, k: bv64)
    ensures Iota(Khi(Pi(Rho(Theta(Xored(a, Mask(COMPLEMENTED)))))), Bits(k)) == Xored(Round(a, k), Mask(COMPLEMENTED))
  {
    ThetaLinear(a, Mask(COMPLEMENTED));
    MaskAfterTheta();
    RhoLinear(Theta(a), Mask(AFTER_THETA));
    MaskAfterRho(AFTER_THETA);
    PiLinear(Rho(Theta(a)), Mask(AFTER_THETA));
    MaskAfterPi();
    KhiIsChi(Pi(Rho(Theta(a))));
    IotaOfMasked(Chi(Pi(Rho(Theta(a)))), Bits(k));
  }

  // ----- renaming -----

  /** The list that names the registers as pi would have moved them from where p names them. */
  function Next(p: seq<nat>): (q: seq<nat>)
    requires |p| == 25
    ensures |q| == 25
  {
    [ p[0], p[6], p[12], p[18], p[24],
      p[3], p[9], p[10], p[16], p[22],
      p[1], p[7], p[13], p[19], p[20],
      p[4], p[5], p[11], p[17], p[23],
      p[2], p[8], p[14], p[15], p[21]]
  }

  lemma NextIsPi(p: seq<nat>, k: nat)
    requires |p| == 25 && k < 25
    ensures Next(p)[k] == p[PiSource(k)]
  {
    PiSourcesAreListed(k);
  }

  /** Where the lane comes from that pi moves to place k. */
  const PI_SOURCES: seq<nat> := [
    0, 6, 12, 18, 24, 3, 9, 10, 16, 22, 1, 7, 13, 19, 20, 4, 5, 11, 17, 23, 2, 8, 14, 15, 21]

  lemma PiSourcesAreListed(k: nat)
    requires k < 25
    ensures |PI_SOURCES| == 25 && PI_SOURCES[k] == PiSource(k)
  {
    if k < 13 { FirstPiSources(k); } else { LastPiSources(k); }
  }

  lemma FirstPiSources(k: nat)
    requires k < 13
    ensures PI_SOURCES[k] == PiSource(k)
  {
  }

  lemma LastPiSources(k: nat)
    requires 13 <= k < 25
    ensures PI_SOURCES[k] == PiSource(k)
  {
  }

  lemma PiIsInjective(i: nat, j: nat)
    requires i < 25 && j < 25 && PiSource(i) == PiSource(j)
    ensures i == j
  {
    PiSourceColumns(i);
    PiSourceColumns(j);
    assert i % 5 == j % 5;
    assert i == 5 * (i / 5) + i % 5 && j == 5 * (j / 5) + j % 5;
  }

  lemma PiSourceColumns(i: nat)
    requires i < 25
    ensures PiSource(i) / 5 == i % 5 && 2 * (PiSource(i) % 5 - i % 5) % 5 == i / 5
  {
    var x, y := i % 5, i / 5;
    assert 0 <= x < 5 && 0 <= y < 5;
    assert (2 * ((x + 3 * y) % 5 - x)) % 5 == y;
  }

  lemma NextIsRenaming(p: seq<nat>)
    requires Renaming(p)
    ensures Renaming(Next(p))
  {
    forall i, j | 0 <= i < j < 25 ensures Apart(Next(p), i, j) {
      NamesAreApart(p);
      NextIsPi(p, i);
      NextIsPi(p, j);
      if PiSource(i) == PiSource(j) { PiIsInjective(i, j); }
    }
    forall j | 0 <= j < 25 ensures Next(p)[j] < 25 { NextIsPi(p, j); }
  }

  lemma Follow0()
    ensures |P0| == 25 && P1 == Next(P0)
    ensures |P1| == 25 && P2 == Next(P1)
    ensures |P2| == 25 && P3 == Next(P2)
    ensures |P3| == 25 && P4 == Next(P3)
  {
  }

  lemma Follow4()
    ensures |P4| == 25 && P5 == Next(P4)
    ensures |P5| == 25 && P6 == Next(P5)
    ensures |P6| == 25 && P7 == Next(P6)
    ensures |P7| == 25 && P8 == Next(P7)
  {
  }

  lemma Follow8()
    ensures |P8| == 25 && P9 == Next(P8)
    ensures |P9| == 25 && P10 == Next(P9)
    ensures |P10| == 25 && P11 == Next(P10)
    ensures |P11| == 25 && P12 == Next(P11)
  {
  }

  lemma Follow12()
    ensures |P12| == 25 && P13 == Next(P12)
    ensures |P13| == 25 && P14 == Next(P13)
    ensures |P14| == 25 && P15 == Next(P14)
    ensures |P15| == 25 && P16 == Next(P15)
  {
  }

  lemma Follow16()
    ensures |P16| == 25 && P17 == Next(P16)
    ensures |P17| == 25 && P18 == Next(P17)
    ensures |P18| == 25 && P19 == Next(P18)
    ensures |P19| == 25 && P20 == Next(P19)
  {
  }

  lemma Follow20()
    ensures |P20| == 25 && P21 == Next(P20)
    ensures |P21| == 25 && P22 == Next(P21)
    ensures |P22| == 25 && P23 == Next(P22)
    ensures |P23| == 25 && P0 == Next(P23)
  {
  }

  /** Every list follows the one before it by pi, and the first one follows the last. */
  lemma ListsClose()
    ensures |P0| == 25 && |P1| == 25 && |P2| == 25 && |P3| == 25
    ensures P1 == Next(P0) && P2 == Next(P1) && P3 == Next(P2) && P4 == Next(P3)
    ensures |P4| == 25 && |P5| == 25 && |P6| == 25 && |P7| == 25
    ensures P5 == Next(P4) && P6 == Next(P5) && P7 == Next(P6) && P8 == Next(P7)
    ensures |P8| == 25 && |P9| == 25 && |P10| == 25 && |P11| == 25
    ensures P9 == Next(P8) && P10 == Next(P9) && P11 == Next(P10) && P12 == Next(P11)
    ensures |P12| == 25 && |P13| == 25 && |P14| == 25 && |P15| == 25
    ensures P13 == Next(P12) && P14 == Next(P13) && P15 == Next(P14) && P16 == Next(P15)
    ensures |P16| == 25 && |P17| == 25 && |P18| == 25 && |P19| == 25
    ensures P17 == Next(P16) && P18 == Next(P17) && P19 == Next(P18) && P20 == Next(P19)
    ensures |P20| == 25 && |P21| == 25 && |P22| == 25 && |P23| == 25
    ensures P21 == Next(P20) && P22 == Next(P21) && P23 == Next(P22) && P0 == Next(P23)
  {
    Follow0();
    Follow4();
    Follow8();
    Follow12();
    Follow16();
    Follow20();
  }

  /** Reading the registers under the next list is the pi step. */
  lemma RenamingIsPi(regs: seq<Word>, p: seq<nat>, q: seq<nat>)
    requires |regs| == 25 && Renaming(p) && Renaming(q) && q == Next(p)
    ensures View(regs, q) == Pi(View(regs, p))
  {
    forall k | 0 <= k < 25 ensures View(regs, q)[k] == Pi(View(regs, p))[k] {
      NextIsPi(p, k);
    }
  }

  // ----- the permutation -----

  /** The lanes that the registers stand for. */
  function State(regs: seq<Word>, p: seq<nat>): Lanes
    requires |regs| == 25 && Renaming(p)
  {
    Xored(View(regs, p), Mask(COMPLEMENTED))
  }

  /** IOTA: register a00 has the same name in every list. */
  method IotaMacro(a: array<Word>, p: seq<nat>, k: Word)
    requires a.Length == 25 && Renaming(p) && p[0] == 0
    modifies a
    ensures View(a[..], p) == Iota(View(old(a[..]), p), k)
  {
    NamesAreApart(p);
    a[0] := Xor(a[0], k);
  }

  /** KF_ELT: theta and rho under one list, chi and iota under the next one. */
  method KfElt(a: array<Word>, p: seq<nat>, q: seq<nat>, k: bv64)
    requires a.Length == 25 && Renaming(p) && Renaming(q) && q == Next(p) && q[0] == 0
    modifies a
    ensures State(a[..], q) == Round(State(old(a[..]), p), k)
  {
    ghost var before := State(a[..], p);
    XoredTwice(View(a[..], p), Mask(COMPLEMENTED));
    ThetaMacro(a, p);
    RhoMacro(a, p);
    RenamingIsPi(a[..], p, q);
    KhiMacro(a, q);
    IotaMacro(a, q, Bits(k));
    MaskedRound(before, k);
    XoredTwice(Round(before, k), Mask(COMPLEMENTED));
  }

  /** Three moves through a temporary. */
  method Cycle(a: array<Word>, i: nat, j: nat, k: nat)
    requires i < a.Length && j < a.Length && k < a.Length && i != j && j != k && k != i
    modifies a
    ensures a[..] == old(a[..])[i := old(a[j])][j := old(a[k])][k := old(a[i])]
  {
    var t := a[i];
    a[i] := a[j];
    a[j] := a[k];
    a[k] := t;
  }

  function Cycled0(a: seq<Word>): (b: seq<Word>)
    requires |a| == 25
    ensures |b| == 25
  {
    [ a[0], a[1], a[2], a[3], a[4], a[6], a[19], a[7], a[10], a[9], a[12], a[11], a[8], a[13], a[14], a[18], a[16],
      a[17], a[22], a[5], a[20], a[21], a[15], a[23], a[24]]
  }

  method Cycles0(a: array<Word>)
    requires a.Length == 25
    modifies a
    ensures a[..] == Cycled0(old(a[..]))
  {
    Cycle(a, 5, 6, 19);
    Cycle(a, 10, 12, 8);
    Cycle(a, 15, 18, 22);
  }

  function Cycled1(a: seq<Word>): (b: seq<Word>)
    requires |a| == 25
    ensures |b| == 25
  {
    [ a[0], a[13], a[21], a[3], a[4], a[5], a[6], a[2], a[8], a[9], a[10], a[20], a[12], a[16], a[14], a[15], a[1],
      a[17], a[18], a[19], a[24], a[7], a[22], a[23], a[11]]
  }

  method Cycles1(a: array<Word>)
    requires a.Length == 25
    modifies a
    ensures a[..] == Cycled1(old(a[..]))
  {
    Cycle(a, 20, 24, 11);
    Cycle(a, 1, 13, 16);
    Cycle(a, 21, 7, 2);
  }

  function Cycled2(a: seq<Word>): (b: seq<Word>)
    requires |a| == 25
    ensures |b| == 25
  {
    [ a[0], a[1], a[2], a[9], a[17], a[5], a[6], a[7], a[8], a[23], a[10], a[11], a[12], a[13], a[4], a[15], a[16],
      a[14], a[18], a[19], a[20], a[21], a[22], a[3], a[24]]
  }

  method Cycles2(a: array<Word>)
    requires a.Length == 25
    modifies a
    ensures a[..] == Cycled2(old(a[..]))
  {
    Cycle(a, 17, 14, 4);
    Cycle(a, 3, 9, 23);
  }

  /** P8_TO_P0: moves the registers so that their first names fit again. */
  method P8ToP0(a: array<Word>)
    requires a.Length == 25
    modifies a
    ensures a[..] == Gathered(old(a[..]))
  {
    Cycles0(a);
    Cycles1(a);
    Cycles2(a);
  }

  function Gathered(a: seq<Word>): (b: seq<Word>)
    requires |a| == 25
    ensures |b| == 25
  {
    Cycled2(Cycled1(Cycled0(a)))
  }

  lemma GatheredFits(a: seq<Word>)
    requires |a| == 25 && Renaming(P0) && Renaming(P8)
    ensures View(Gathered(a), P0) == View(a, P8)
  {
  }

  ghost predicate Link(p: seq<seq<nat>>, r: nat)
    requires 0 < r < |p|
  {
    |p[r - 1]| == 25 && p[r] == Next(p[r - 1])
  }

  /** Argument lists for successive rounds. */
  ghost predicate Chain(p: seq<seq<nat>>) {
    && |p| > 0
    && (forall r :: 0 <= r < |p| ==> Renaming(p[r]) && p[r][0] == 0)
    && (forall r :: 0 < r < |p| ==> Link(p, r))
  }

  /** Round j, from the names p to the names q. */
  method NextRound(a: array<Word>, p: seq<nat>, q: seq<nat>, constants: seq<bv64>, j: nat, ghost s: seq<Lanes>)
    requires a.Length == 25 && j < |constants| && Renaming(p) && Renaming(q) && q == Next(p) && q[0] == 0
    requires States(Round, s, constants) && State(a[..], p) == s[j]
    modifies a
    ensures State(a[..], q) == s[j + 1]
  {
    KfElt(a, p, q, constants[j]);
    assert Succeeds(Round, s, constants, j);
  }

  /** The rounds from j on, as many as the lists allow, each under its own names. */
  method UnrolledRounds(a: array<Word>, p: seq<seq<nat>>, constants: seq<bv64>, j: nat, ghost s: seq<Lanes>)
    requires a.Length == 25 && Chain(p) && j + |p| - 1 <= |constants|
    requires States(Round, s, constants) && State(a[..], p[0]) == s[j]
    modifies a
    ensures State(a[..], p[|p| - 1]) == s[j + |p| - 1]
  {
    var r := 1;
    while r < |p|
      invariant 1 <= r <= |p|
      invariant State(a[..], p[r - 1]) == s[j + r - 1]
    {
      assert Link(p, r);
      NextRound(a, p[r - 1], p[r], constants, j + r - 1, s);
      r := r + 1;
    }
  }

  lemma ListsFollow()
    ensures P1 == Next(P0) && P2 == Next(P1) && P3 == Next(P2) && P4 == Next(P3)
    ensures P5 == Next(P4) && P6 == Next(P5) && P7 == Next(P6) && P8 == Next(P7)
  {
    Follow0();
    Follow4();
  }

  lemma ListsAreRenamings()
    ensures Renaming(P0) && Renaming(P1) && Renaming(P2) && Renaming(P3) && Renaming(P4)
    ensures Renaming(P5) && Renaming(P6) && Renaming(P7) && Renaming(P8)
  {
    ListsFollow();
    FirstIsRenaming();
    FourMoreRenamings(P0, P1, P2, P3, P4);
    FourMoreRenamings(P4, P5, P6, P7, P8);
  }

  lemma FirstIsRenaming()
    ensures Renaming(P0)
  {
    FirstNames();
    IdentityIsRenaming(P0);
  }

  lemma IdentityIsRenaming(p: seq<nat>)
    requires |p| == 25 && forall k :: 0 <= k < 25 ==> p[k] == k
    ensures Renaming(p)
  {
    forall i, j | 0 <= i < j < 25 ensures Apart(p, i, j) {}
  }

  lemma FourMoreRenamings(p: seq<nat>, q: seq<nat>, r: seq<nat>, s: seq<nat>, t: seq<nat>)
    requires Renaming(p) && q == Next(p) && r == Next(q) && s == Next(r) && t == Next(s)
    ensures Renaming(q) && Renaming(r) && Renaming(s) && Renaming(t)
  {
    NextIsRenaming(p);
    NextIsRenaming(q);
    NextIsRenaming(r);
    NextIsRenaming(s);
  }

  lemma ListsFit(p: seq<seq<nat>>)
    requires p == [P0, P1, P2, P3, P4, P5, P6, P7, P8]
    ensures Chain(p)
  {
    ListsFollow();
    ListsAreRenamings();
  }

  method Lists() returns (p: seq<seq<nat>>)
    ensures Chain(p) && |p| == 9 && p[0] == P0 && p[8] == P8
  {
    p := [P0, P1, P2, P3, P4, P5, P6, P7, P8];
    ListsFit(p);
  }

  /** The lanes that the context stands for outside the permutation. */
  function Uncomplemented(regs: seq<Word>): Lanes
    requires |regs| == 25
  {
    Xored(regs, Mask(COMPLEMENTED))
  }

  lemma FirstNames()
    ensures |P0| == 25 && forall k :: 0 <= k < 25 ==> P0[k] == k
  {
  }

  lemma IdentityView(regs: seq<Word>, p: seq<nat>)
    requires |regs| == 25 && |p| == 25 && forall k :: 0 <= k < 25 ==> p[k] == k
    ensures Renaming(p) && View(regs, p) == regs
  {
    forall k | 0 <= k < 25 ensures p[k] == k { }
  }

  lemma FirstView(regs: seq<Word>)
    requires |regs| == 25
    ensures Renaming(P0) && State(regs, P0) == Uncomplemented(regs)
  {
    FirstNames();
    IdentityView(regs, P0);
  }

  /** Eight rounds, after which the registers have their first names again. */
  method EightRounds(a: array<Word>, p: seq<seq<nat>>, constants: seq<bv64>, j: nat, ghost s: seq<Lanes>)
    requires a.Length == 25 && Chain(p) && |p| == 9 && p[0] == P0 && p[8] == P8 && j + 8 <= |constants|
    requires States(Round, s, constants) && Uncomplemented(a[..]) == s[j]
    modifies a
    ensures Uncomplemented(a[..]) == s[j + 8]
  {
    FirstView(a[..]);
    UnrolledRounds(a, p, constants, j, s);
    GatheredFits(a[..]);
    P8ToP0(a);
    FirstView(a[..]);
  }

  /** The loop of KECCAK_F_1600, eight rounds at a time. */
  method RoundsByEight(a: array<Word>, p: seq<seq<nat>>, constants: seq<bv64>, ghost s: seq<Lanes>)
    requires a.Length == 25 && Chain(p) && |p| == 9 && p[0] == P0 && p[8] == P8 && |constants| % 8 == 0
    requires States(Round, s, constants) && Uncomplemented(a[..]) == s[0]
    modifies a
    ensures Uncomplemented(a[..]) == s[|constants|]
  {
    var j := 0;
    while j < |constants|
      invariant j <= |constants| && j % 8 == 0
      invariant Uncomplemented(a[..]) == s[j]
    {
      EightRounds(a, p, constants, j, s);
      j := j + 8;
    }
  }

  method UnrolledBy8(a: array<Word>, p: seq<seq<nat>>, constants: seq<bv64>)
    requires a.Length == 25 && Chain(p) && |p| == 9 && p[0] == P0 && p[8] == P8 && |constants| % 8 == 0
    modifies a
    ensures Uncomplemented(a[..]) == AllRounds(Round, Uncomplemented(old(a[..])), constants)
  {
    ghost var s := StatesExist(Round, Uncomplemented(a[..]), constants);
    RoundsByEight(a, p, constants, s);
    AllRoundsEnd(Round, s, constants);
  }

  /** KECCAK_F_1600 as it is unrolled by default. */
  method KeccakF1600(a: array<Word>)
    requires a.Length == 25
    modifies a
    ensures Uncomplemented(a[..]) == KeccakF(Uncomplemented(old(a[..])))
  {
    var p := Lists();
    UnrolledBy8(a, p, RC);
  }
}
