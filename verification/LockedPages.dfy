/** Stacking locks on memory pages (src/allocators.h). */
module LockedPages {
  import opened Arithmetic
  import opened Words

  /** Addresses have 64 bits. */
  const ADDRESSES: nat := ULONG

  datatype Range = Range(base: nat, size: nat)

  // ----- masks -----

  /** Bitwise and. */
  function BitAnd(a: nat, b: nat): (c: nat)
    ensures c <= a
  {
    if a == 0 then 0 else 2 * BitAnd(a / 2, b / 2) + if a % 2 == 1 && b % 2 == 1 then 1 else 0
  }

  /** Bitwise not, in w bits. */
  function BitNot(a: nat, w: nat): nat {
    if w == 0 then 0 else 2 * BitNot(a / 2, w - 1) + 1 - a % 2
  }

  lemma {:induction false} AndOnes(a: nat, w: nat)
    requires a < Pow2(w)
    ensures BitAnd(a, BitNot(0, w)) == a
    decreases w
  {
    if w > 0 { AndOnes(a / 2, w - 1); }
  }

  /** The mask of a power of two takes the remainder off. */
  lemma {:induction false} MaskTakesRemainder(a: nat, k: nat, w: nat)
    requires k <= w && a < Pow2(w)
    ensures BitAnd(a, BitNot(Pow2(k) - 1, w)) == a - a % Pow2(k)
    decreases w
  {
    if k == 0 {
      AndOnes(a, w);
    } else {
      MaskTakesRemainder(a / 2, k - 1, w - 1);
      OddMask(k, w);
      AndEven(a, BitNot(Pow2(k - 1) - 1, w - 1));
      HalfRemainder(a, Pow2(k - 1));
      assert Pow2(k) == 2 * Pow2(k - 1);
    }
  }

  lemma AndEven(a: nat, b: nat)
    ensures BitAnd(a, 2 * b) == 2 * BitAnd(a / 2, b)
  {
    assert 2 * b / 2 == b && 2 * b % 2 == 0;
  }

  lemma OddMask(k: nat, w: nat)
    requires 0 < k <= w
    ensures BitNot(Pow2(k) - 1, w) == 2 * BitNot(Pow2(k - 1) - 1, w - 1)
  {
    assert Pow2(k) - 1 == 2 * (Pow2(k - 1) - 1) + 1;
  }

  lemma HalfRemainder(a: nat, p: nat)
    requires p > 0
    ensures 2 * (a / 2 - a / 2 % p) == a - a % (2 * p)
  {
    var q, r := a / 2 / p, a / 2 % p;
    assert a / 2 == q * p + r && a == 2 * (a / 2) + a % 2;
    QuotientIsUnique(a, 2 * p, q, 2 * r + a % 2);
  }

  /** What the constructor asserts of a page size. */
  predicate IsPageSize(n: nat) {
    0 < n < ADDRESSES && BitAnd(n, n - 1) == 0
  }

  /** It holds exactly for powers of two. */
  lemma {:induction false} AssertedExactly(n: nat)
    requires n > 0
    ensures BitAnd(n, n - 1) == 0 <==> exists k: nat :: n == Pow2(k)
    decreases n
  {
    if n == 1 {
      assert n == Pow2(0);
    } else if n % 2 == 1 {
      AndSelf(n / 2);
      assert BitAnd(n, n - 1) == 2 * BitAnd(n / 2, n / 2);
      forall k: nat ensures n != Pow2(k) { if k > 0 { assert Pow2(k) == 2 * Pow2(k - 1); } }
    } else {
      AssertedExactly(n / 2);
      AndHalves(n);
      HalfPower(n);
    }
  }

  /** So these are the page sizes that the constructor lets pass. */
  lemma PageSizesExactly(n: nat)
    ensures IsPageSize(n) <==> exists k: nat :: k < 64 && n == Pow2(k)
  {
    if n > 0 { AssertedExactly(n); }
    Pow64();
    if IsPageSize(n) {
      var k: nat :| n == Pow2(k);
      if k >= 64 { Pow2Grows(64, k); }
    }
    if k: nat :| k < 64 && n == Pow2(k) { Pow2Grows(k, 63); }
  }

  /** Bitwise not flips every bit. */
  lemma {:induction false} NotIsComplement(a: nat, w: nat)
    requires a < Pow2(w)
    ensures BitNot(a, w) == Pow2(w) - 1 - a
    decreases w
  {
    if w > 0 { NotIsComplement(a / 2, w - 1); }
  }

  lemma AndHalves(n: nat)
    requires n > 0 && n % 2 == 0
    ensures BitAnd(n, n - 1) == 2 * BitAnd(n / 2, n / 2 - 1)
  {
    assert (n - 1) / 2 == n / 2 - 1;
  }

  lemma HalfPower(n: nat)
    requires n > 1 && n % 2 == 0
    ensures (exists k: nat :: n == Pow2(k)) <==> exists k: nat :: n / 2 == Pow2(k)
  {
    if k: nat :| n / 2 == Pow2(k) { assert n == Pow2(k + 1); }
    if k: nat :| n == Pow2(k) { assert n / 2 == Pow2(k - 1); }
  }

  /** The mask keeps the page of every address. */
  ghost predicate KeepsPages(mask: nat, pageSize: nat)
    requires pageSize > 0
  {
    forall a: nat :: a < ADDRESSES ==> BitAnd(a, mask) == PageOf(a, pageSize)
  }

  lemma MaskKeepsPages(pageSize: nat)
    requires IsPageSize(pageSize)
    ensures KeepsPages(BitNot(pageSize - 1, 64), pageSize)
  {
    var k := Exponent(pageSize);
    Pow64();
    forall a: nat | a < ADDRESSES ensures BitAnd(a, BitNot(pageSize - 1, 64)) == PageOf(a, pageSize) {
      MaskTakesRemainder(a, k, 64);
      WithoutRemainder(a, pageSize);
    }
  }

  lemma WithoutRemainder(a: nat, pageSize: nat)
    requires pageSize > 0
    ensures PageOf(a, pageSize) == a - a % pageSize
  {
    assert a == a / pageSize * pageSize + a % pageSize;
  }

  lemma Exponent(pageSize: nat) returns (k: nat)
    requires IsPageSize(pageSize)
    ensures k <= 64 && pageSize == Pow2(k)
  {
    AssertedExactly(pageSize);
    k :| pageSize == Pow2(k);
    Pow64();
    if k > 64 { Pow2Grows(64, k); }
  }

  lemma {:induction false} Pow2Grows(i: nat, j: nat)
    requires i <= j
    ensures Pow2(i) <= Pow2(j)
    decreases j
  {
    if i < j { Pow2Grows(i, j - 1); }
  }

  lemma Pow64()
    ensures Pow2(64) == ADDRESSES
  {
    assert Pow2(8) == 0x100;
    assert Pow2(16) == 0x1_0000;
    assert Pow2(24) == 0x100_0000;
    assert Pow2(32) == 0x1_0000_0000;
    assert Pow2(40) == 0x100_0000_0000;
    assert Pow2(48) == 0x1_0000_0000_0000;
    assert Pow2(56) == 0x100_0000_0000_0000;
  }

  lemma {:induction false} AndSelf(a: nat)
    ensures BitAnd(a, a) == a
  {
    if a > 0 { AndSelf(a / 2); }
  }

  // ----- ranges -----

  /** The page of an address. */
  function PageOf(address: nat, pageSize: nat): nat
    requires pageSize > 0
  {
    address / pageSize * pageSize
  }

  /** A page has something of the range on it. */
  ghost predicate Touches(r: Range, page: nat, pageSize: nat)
    requires pageSize > 0
  {
    page % pageSize == 0 && exists a :: r.base <= a < r.base + r.size && PageOf(a, pageSize) == page
  }

  /** The number of ranges that have something on a page. */
  ghost function Count(ranges: seq<Range>, page: nat, pageSize: nat): nat
    requires pageSize > 0
  {
    if |ranges| == 0 then 0
    else Count(ranges[..|ranges| - 1], page, pageSize) + if Touches(ranges[|ranges| - 1], page, pageSize) then 1 else 0
  }

  function Without(ranges: seq<Range>, i: nat): seq<Range>
    requires i < |ranges|
  {
    ranges[..i] + ranges[i + 1..]
  }

  /** The addresses of a range do not wrap, and neither does the sweep over its pages. */
  predicate InBounds(r: Range, pageSize: nat)
    requires pageSize > 0
  {
    r.size > 0 ==> r.base + r.size <= ADDRESSES && PageOf(r.base + r.size - 1, pageSize) + pageSize < ADDRESSES
  }

  /** Addition of addresses. */
  function Plus(a: nat, b: nat): (c: nat)
    ensures a + b < ADDRESSES ==> c == a + b
  {
    (a + b) % ADDRESSES
  }

  class LockedPageManager {
    const pageSize: nat
    const pageMask: nat
    var histogram: map<nat, nat>
    /** The pages that the operating system has been told to keep locked. */
    var locked: set<nat>

    /** The outstanding ranges are these. */
    ghost predicate Holds(ranges: seq<Range>)
      reads this
    {
      pageSize > 0 && KeepsPages(pageMask, pageSize) && Counts(ranges)
    }

    /** Every page is counted as often as ranges touch it, and locked when one does. */
    ghost predicate Counts(ranges: seq<Range>)
      requires pageSize > 0
      reads this`histogram, this`locked
    {
      && (forall page :: page in histogram <==> Count(ranges, page, pageSize) > 0)
      && (forall page :: page in histogram ==> histogram[page] == Count(ranges, page, pageSize))
      && locked == histogram.Keys
    }

    /** The requires is the assertion of the program. */
    constructor (size: nat)
      requires IsPageSize(size)
      ensures pageSize == size && pageMask == BitNot(size - 1, 64) && Holds([])
    {
      MaskKeepsPages(size);
      pageSize := size;
      pageMask := BitNot(size - 1, 64);
      histogram, locked := map[], {};
    }

    method LockPage(page: nat)
      requires locked == histogram.Keys
      modifies this`histogram, this`locked
      ensures histogram == old(histogram)[page := if page in old(histogram) then old(histogram)[page] + 1 else 1]
      ensures locked == histogram.Keys
    {
      if page !in histogram {
        locked := locked + {page};
        histogram := histogram[page := 1];
      } else {
        histogram := histogram[page := histogram[page] + 1];
      }
    }

    /** The requires is the assertion of the program. */
    method UnlockPage(page: nat)
      requires page in histogram && histogram[page] > 0 && locked == histogram.Keys
      modifies this`histogram, this`locked
      ensures histogram == if old(histogram)[page] == 1 then old(histogram) - {page}
        else old(histogram)[page := old(histogram)[page] - 1]
      ensures locked == histogram.Keys
    {
      histogram := histogram[page := histogram[page] - 1];
      if histogram[page] == 0 {
        locked := locked - {page};
        histogram := histogram - {page};
      }
    }

    /** The first and the last page of a range. */
    method Pages(p: nat, size: nat) returns (startPage: nat, endPage: nat)
      requires pageSize > 0 && KeepsPages(pageMask, pageSize) && size > 0 && p + size <= ADDRESSES
      ensures startPage == PageOf(p, pageSize) && endPage == PageOf(p + size - 1, pageSize)
    {
      startPage := BitAnd(p, pageMask);
      endPage := BitAnd(Plus(p, size - 1), pageMask);
    }

    method LockRange(p: nat, size: nat, ghost ranges: seq<Range>)
      requires Holds(ranges) && InBounds(Range(p, size), pageSize)
      modifies this
      ensures Holds(ranges + [Range(p, size)])
    {
      if size == 0 {
        NothingTouched(ranges, Range(p, size), pageSize);
        return;
      }
      var startPage, endPage := Pages(p, size);
      LockPages(startPage, endPage, ranges, Range(p, size));
    }

    /** The loop of LockRange. */
    method LockPages(startPage: nat, endPage: nat, ghost ranges: seq<Range>, ghost r: Range)
      requires pageSize > 0 && Counts(ranges) && r.size > 0 && endPage + pageSize < ADDRESSES
      requires startPage == PageOf(r.base, pageSize) && endPage == PageOf(r.base + r.size - 1, pageSize)
      modifies this`histogram, this`locked
      ensures Counts(ranges + [r])
    {
      assert (ranges + [r])[..|ranges|] == ranges;
      TouchedPages(r, pageSize);
      var page := startPage;
      while page <= endPage
        invariant startPage <= page <= endPage + pageSize && page % pageSize == 0
        invariant forall q :: q in histogram <==> Swept(ranges, r, page, q, pageSize) > 0
        invariant forall q :: q in histogram ==> histogram[q] == Swept(ranges, r, page, q, pageSize)
        invariant locked == histogram.Keys
        decreases endPage + pageSize - page
      {
        NextPage(page, pageSize);
        LockPage(page);
        page := Plus(page, pageSize);
      }
    }

    method UnlockRange(p: nat, size: nat, ghost ranges: seq<Range>, ghost i: nat)
      requires Holds(ranges) && InBounds(Range(p, size), pageSize)
      requires i < |ranges| && ranges[i] == Range(p, size)
      modifies this
      ensures Holds(Without(ranges, i))
    {
      forall page
        ensures Count(ranges, page, pageSize) ==
          Count(Without(ranges, i), page, pageSize) + if Touches(Range(p, size), page, pageSize) then 1 else 0
      {
        CountWithout(ranges, i, page, pageSize);
      }
      if size == 0 { return; }
      var startPage, endPage := Pages(p, size);
      UnlockPages(startPage, endPage, Without(ranges, i), Range(p, size));
    }

    /** The loop of UnlockRange. */
    method UnlockPages(startPage: nat, endPage: nat, ghost rest: seq<Range>, ghost r: Range)
      requires pageSize > 0 && r.size > 0 && endPage + pageSize < ADDRESSES
      requires startPage == PageOf(r.base, pageSize) && endPage == PageOf(r.base + r.size - 1, pageSize)
      requires forall q :: q in histogram <==> Left(rest, r, 0, q, pageSize) > 0
      requires forall q :: q in histogram ==> histogram[q] == Left(rest, r, 0, q, pageSize)
      requires locked == histogram.Keys
      modifies this`histogram, this`locked
      ensures Counts(rest)
    {
      TouchedPages(r, pageSize);
      var page := startPage;
      while page <= endPage
        invariant startPage <= page <= endPage + pageSize && page % pageSize == 0
        invariant forall q :: q in histogram <==> Left(rest, r, page, q, pageSize) > 0
        invariant forall q :: q in histogram ==> histogram[q] == Left(rest, r, page, q, pageSize)
        invariant locked == histogram.Keys
        decreases endPage + pageSize - page
      {
        NextPage(page, pageSize);
        UnlockPage(page);
        page := Plus(page, pageSize);
      }
    }

    method GetLockedPageCount(ghost ranges: seq<Range>) returns (n: nat)
      requires Holds(ranges)
      ensures n == |locked|
    {
      n := |histogram|;
    }
  }

  lemma NothingTouched(ranges: seq<Range>, r: Range, pageSize: nat)
    requires pageSize > 0 && r.size == 0
    ensures forall page :: Count(ranges + [r], page, pageSize) == Count(ranges, page, pageSize)
  {
    assert (ranges + [r])[..|ranges|] == ranges;
  }

  /** The count when a range has been locked on the pages before `page`. */
  ghost function Swept(ranges: seq<Range>, r: Range, page: nat, q: nat, pageSize: nat): nat
    requires pageSize > 0
  {
    Count(ranges, q, pageSize) + if q < page && Touches(r, q, pageSize) then 1 else 0
  }

  /** The count when a range has been unlocked on the pages before `page`. */
  ghost function Left(rest: seq<Range>, r: Range, page: nat, q: nat, pageSize: nat): nat
    requires pageSize > 0
  {
    Count(rest, q, pageSize) + if q >= page && Touches(r, q, pageSize) then 1 else 0
  }

  // ----- pages -----

  lemma PageFacts(a: nat, pageSize: nat)
    requires pageSize > 0
    ensures PageOf(a, pageSize) % pageSize == 0 && PageOf(a, pageSize) <= a < PageOf(a, pageSize) + pageSize
    ensures a % pageSize == 0 ==> PageOf(a, pageSize) == a
  {
    assert a == a / pageSize * pageSize + a % pageSize;
    AddMultiple(0, pageSize, a / pageSize);
  }

  /** Pages are a page apart. */
  lemma PagesApart(p: nat, q: nat, pageSize: nat)
    requires pageSize > 0 && p % pageSize == 0 && q % pageSize == 0 && p < q
    ensures p + pageSize <= q
  {
    assert p == p / pageSize * pageSize && q == q / pageSize * pageSize;
    ProductIsFar(q / pageSize - p / pageSize, pageSize);
  }

  lemma PageIsMonotone(a: nat, b: nat, pageSize: nat)
    requires pageSize > 0 && a <= b
    ensures PageOf(a, pageSize) <= PageOf(b, pageSize)
  {
    PageFacts(a, pageSize);
    PageFacts(b, pageSize);
    if PageOf(b, pageSize) < PageOf(a, pageSize) { PagesApart(PageOf(b, pageSize), PageOf(a, pageSize), pageSize); }
  }

  lemma TouchedPage(r: Range, page: nat, pageSize: nat)
    requires pageSize > 0 && r.size > 0
    ensures r.base + r.size >= 1
    ensures Touches(r, page, pageSize) <==>
      page % pageSize == 0 && PageOf(r.base, pageSize) <= page <= PageOf(r.base + r.size - 1, pageSize)
  {
    var last := r.base + r.size - 1;
    if Touches(r, page, pageSize) {
      var a :| r.base <= a < r.base + r.size && PageOf(a, pageSize) == page;
      PageIsMonotone(r.base, a, pageSize);
      PageIsMonotone(a, last, pageSize);
    }
    if page % pageSize == 0 && PageOf(r.base, pageSize) <= page <= PageOf(last, pageSize) {
      PageFacts(r.base, pageSize);
      PageFacts(last, pageSize);
      PageFacts(page, pageSize);
      if page >= r.base {
        assert PageOf(page, pageSize) == page;
      } else if PageOf(r.base, pageSize) < page {
        PagesApart(PageOf(r.base, pageSize), page, pageSize);
      } else {
        assert PageOf(r.base, pageSize) == page;
      }
    }
  }

  /** The pages of a range are those from its first to its last address. */
  lemma TouchedPages(r: Range, pageSize: nat)
    requires pageSize > 0 && r.size > 0
    ensures r.base + r.size >= 1
    ensures PageOf(r.base, pageSize) % pageSize == 0 &&
      PageOf(r.base, pageSize) <= PageOf(r.base + r.size - 1, pageSize)
    ensures forall page: nat :: Touches(r, page, pageSize) <==>
      (page % pageSize == 0 && PageOf(r.base, pageSize) <= page <= PageOf(r.base + r.size - 1, pageSize))
  {
    PageFacts(r.base, pageSize);
    PageIsMonotone(r.base, r.base + r.size - 1, pageSize);
    forall page: nat
      ensures Touches(r, page, pageSize) <==>
        (page % pageSize == 0 && PageOf(r.base, pageSize) <= page <= PageOf(r.base + r.size - 1, pageSize))
    {
      TouchedPage(r, page, pageSize);
    }
  }

  lemma NextPage(page: nat, pageSize: nat)
    requires pageSize > 0 && page % pageSize == 0
    ensures (page + pageSize) % pageSize == 0
    ensures forall q: nat :: q % pageSize == 0 && page < q ==> page + pageSize <= q
  {
    AddMultiple(page, pageSize, 1);
    forall q: nat | q % pageSize == 0 && page < q ensures page + pageSize <= q { PagesApart(page, q, pageSize); }
  }

  lemma {:induction false} CountWithout(ranges: seq<Range>, i: nat, page: nat, pageSize: nat)
    requires pageSize > 0 && i < |ranges|
    ensures Count(ranges, page, pageSize) ==
      Count(Without(ranges, i), page, pageSize) + if Touches(ranges[i], page, pageSize) then 1 else 0
    decreases |ranges|
  {
    var k := |ranges| - 1;
    if i == k {
      assert Without(ranges, i) == ranges[..k];
    } else {
      CountWithout(ranges[..k], i, page, pageSize);
      assert Without(ranges, i)[..k - 1] == Without(ranges[..k], i);
    }
  }

  /** A page is counted when some outstanding range has something on it. */
  lemma {:induction false} CountedExactly(ranges: seq<Range>, page: nat, pageSize: nat)
    requires pageSize > 0
    ensures Count(ranges, page, pageSize) > 0 <==> exists i :: 0 <= i < |ranges| && Touches(ranges[i], page, pageSize)
  {
    if |ranges| > 0 {
      var k := |ranges| - 1;
      CountedExactly(ranges[..k], page, pageSize);
      if i :| 0 <= i < k && Touches(ranges[..k][i], page, pageSize) { assert Touches(ranges[i], page, pageSize); }
      if i :| 0 <= i < |ranges| && Touches(ranges[i], page, pageSize) {
        if i < k { assert Touches(ranges[..k][i], page, pageSize); }
      }
    }
  }

  /** The sweep over pages ends exactly when the page after its last one is still an address: otherwise
      every page up to the last one is followed by another such page. */
  lemma SweepEndsExactly(endPage: nat, pageSize: nat)
    requires pageSize > 0 && endPage % pageSize == 0 && endPage + pageSize <= ADDRESSES
    ensures endPage + pageSize < ADDRESSES <==>
      exists page: nat :: page <= endPage && page % pageSize == 0 && Plus(page, pageSize) > endPage
  {
    if endPage + pageSize < ADDRESSES {
      assert Plus(endPage, pageSize) > endPage;
    } else {
      forall page: nat | page <= endPage && page % pageSize == 0 ensures Plus(page, pageSize) <= endPage {
        if page < endPage { PagesApart(page, endPage, pageSize); }
      }
    }
  }
}
