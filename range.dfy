/** Unicode scalar values and closed ranges of them: the surrogate constants of
    src/lib.rs and the `CharRange` value of src/range/mod.rs.

    A Rust `char` is a scalar value: a codepoint in 0..=0x10FFFF outside the
    surrogate block 0xD800..=0xDFFF. Comparisons of `char`s are comparisons of
    their codepoints, so `Char` is a subset of `int`. */
module CharRanges {
  import opened Wrappers

  /** The last scalar value below the surrogate block. */
  const BEFORE_SURROGATE: int := 0xD7FF
  /** The first scalar value above the surrogate block. */
  const AFTER_SURROGATE: int := 0xE000
  /** `char::MAX`. */
  const CHAR_MAX: int := 0x10FFFF
  /** Number of surrogate codepoints between the two constants. */
  const SURROGATE_COUNT: int := 0x800

  /** Is `n` a scalar value (the constraint of `Char`, as a predicate on `int`)? */
  predicate IsScalar(n: int) {
    0 <= n <= CHAR_MAX && !(BEFORE_SURROGATE < n < AFTER_SURROGATE)
  }

  type Char = n: int | 0 <= n <= CHAR_MAX && !(BEFORE_SURROGATE < n < AFTER_SURROGATE)

  /** `core::cmp::Ordering`. */
  datatype Ordering = Less | Equal | Greater

  /** `core::ops::Bound<char>`. */
  datatype Bound = Included(c: Char) | Excluded(c: Char) | Unbounded

  /** A closed range `low..=high`; it is empty exactly when `low > high`. */
  datatype CharRange = CharRange(low: Char, high: Char)

  // ---------------------------------------------------------------------
  // The reference enumeration: every scalar value of an integer interval,
  // in ascending order (what the tests' `filter_map(char::from_u32)` yields).
  // ---------------------------------------------------------------------

  function ScalarsIn(lo: int, hi: int): seq<Char>
    decreases hi - lo
  {
    if lo > hi then []
    else (if IsScalar(lo) then [lo as Char] else []) + ScalarsIn(lo + 1, hi)
  }

  predicate StrictlyAscending(s: seq<int>) {
    forall i, j :: 0 <= i < j < |s| ==> s[i] < s[j]
  }

  /** The enumeration holds exactly the scalar values of the interval. */
  lemma {:induction false} ScalarsInMembers(lo: int, hi: int)
    ensures forall x :: x in ScalarsIn(lo, hi) <==> IsScalar(x) && lo <= x <= hi
    decreases hi - lo
  {
    if lo <= hi {
      ScalarsInMembers(lo + 1, hi);
    }
  }

  /** The enumeration is strictly ascending, so it never repeats a value. */
  lemma {:induction false} ScalarsInAscending(lo: int, hi: int)
    ensures StrictlyAscending(ScalarsIn(lo, hi))
    decreases hi - lo
  {
    if lo <= hi {
      ScalarsInAscending(lo + 1, hi);
      ScalarsInMembers(lo + 1, hi);
      var rest := ScalarsIn(lo + 1, hi);
      assert forall k :: 0 <= k < |rest| ==> lo < rest[k] by {
        forall k | 0 <= k < |rest| ensures lo < rest[k] {
          assert rest[k] in rest;
        }
      }
    }
  }

  /** Cutting the interval at `m` cuts the enumeration at the same place. */
  lemma {:induction false} ScalarsInSplit(lo: int, m: int, hi: int)
    requires lo <= m <= hi + 1
    ensures ScalarsIn(lo, hi) == ScalarsIn(lo, m - 1) + ScalarsIn(m, hi)
    decreases m - lo
  {
    if m > lo {
      ScalarsInSplit(lo + 1, m, hi);
    }
  }

  /** The surrogate block contributes nothing. */
  lemma {:induction false} NoScalarsBetween(lo: int, hi: int)
    requires BEFORE_SURROGATE < lo && hi < AFTER_SURROGATE
    ensures ScalarsIn(lo, hi) == []
    decreases hi - lo
  {
    if lo <= hi {
      NoScalarsBetween(lo + 1, hi);
    }
  }

  /** An interval without surrogates enumerates every one of its integers. */
  lemma {:induction false} AllScalarsBetween(lo: int, hi: int)
    requires 0 <= lo && hi <= CHAR_MAX && lo <= hi + 1
    requires hi <= BEFORE_SURROGATE || AFTER_SURROGATE <= lo
    ensures |ScalarsIn(lo, hi)| == hi - lo + 1
    decreases hi - lo
  {
    if lo <= hi {
      AllScalarsBetween(lo + 1, hi);
    }
  }

  /** The last element of a non-empty interval's enumeration is its top, when that is scalar. */
  lemma ScalarsInSnoc(lo: int, hi: Char)
    requires lo <= hi
    ensures ScalarsIn(lo, hi) == ScalarsIn(lo, hi - 1) + [hi]
  {
    ScalarsInSplit(lo, hi, hi);
  }

  // ---------------------------------------------------------------------
  // Stepping over the surrogate gap
  // ---------------------------------------------------------------------

  /** The scalar value after `c` (0xD7FF steps to 0xE000). */
  function Succ(c: Char): (n: Char)
    requires c != CHAR_MAX
    ensures c < n
    ensures forall x :: IsScalar(x) && c < x ==> n <= x
  {
    if c == BEFORE_SURROGATE then AFTER_SURROGATE else c + 1
  }

  /** The scalar value before `c` (0xE000 steps to 0xD7FF). */
  function Pred(c: Char): (n: Char)
    requires c != 0
    ensures n < c
    ensures forall x :: IsScalar(x) && x < c ==> x <= n
  {
    if c == AFTER_SURROGATE then BEFORE_SURROGATE else c - 1
  }

  /** Starting the enumeration just after `c` or at `Succ(c)` makes no difference. */
  lemma SuccEnumeration(c: Char, hi: int)
    requires c != CHAR_MAX
    ensures ScalarsIn(c + 1, hi) == ScalarsIn(Succ(c), hi)
  {
    if c == BEFORE_SURROGATE {
      if hi >= AFTER_SURROGATE {
        ScalarsInSplit(c + 1, AFTER_SURROGATE, hi);
        NoScalarsBetween(c + 1, AFTER_SURROGATE - 1);
      } else {
        NoScalarsBetween(c + 1, hi);
      }
    }
  }

  /** Ending the enumeration just before `c` or at `Pred(c)` makes no difference. */
  lemma PredEnumeration(lo: int, c: Char)
    requires c != 0
    ensures ScalarsIn(lo, c - 1) == ScalarsIn(lo, Pred(c))
  {
    if c == AFTER_SURROGATE {
      if lo <= BEFORE_SURROGATE {
        ScalarsInSplit(lo, BEFORE_SURROGATE + 1, c - 1);
        NoScalarsBetween(BEFORE_SURROGATE + 1, c - 1);
      } else {
        NoScalarsBetween(lo, c - 1);
      }
    }
  }

  // ---------------------------------------------------------------------
  // Construction (src/range/mod.rs)
  // ---------------------------------------------------------------------

  function Closed(low: Char, high: Char): CharRange {
    CharRange(low, high)
  }

  /** The range holding exactly `c`. */
  function Singleton(c: Char): (r: CharRange)
    ensures !IsEmpty(r) && Len(r) == 1
    ensures forall x: Char :: Contains(r, x) <==> x == c
  {
    Closed(c, c)
  }

  /** The canonical empty range `char::MAX..='\0'`. */
  function Empty(): (r: CharRange)
    ensures IsEmpty(r) && Len(r) == 0
    ensures forall x: Char :: !Contains(r, x)
  {
    CharRange(CHAR_MAX, 0)
  }

  predicate StartAdmits(b: Bound, x: int) {
    match b
    case Included(c) => c <= x
    case Excluded(c) => c < x
    case Unbounded => true
  }

  predicate EndAdmits(b: Bound, x: int) {
    match b
    case Included(c) => x <= c
    case Excluded(c) => x < c
    case Unbounded => true
  }

  /** `impl<R: RangeBounds<char>> From<R> for CharRange`: the closed range of
      exactly the scalar values the two bounds admit. */
  function FromBounds(start: Bound, end: Bound): (r: CharRange)
    ensures forall x: Char :: Contains(r, x) <==> StartAdmits(start, x) && EndAdmits(end, x)
    ensures start == Excluded(CHAR_MAX) || end == Excluded(0) ==> r == Empty()
    ensures start.Unbounded? && end != Excluded(0) ==> r.low == 0
    ensures end.Unbounded? && start != Excluded(CHAR_MAX) ==> r.high == CHAR_MAX
    ensures start == Excluded(BEFORE_SURROGATE) && end != Excluded(0) ==> r.low == AFTER_SURROGATE
    ensures end == Excluded(AFTER_SURROGATE) && start != Excluded(CHAR_MAX) ==> r.high == BEFORE_SURROGATE
    ensures start.Included? && end != Excluded(0) ==> r.low == start.c
    ensures start.Excluded? && start.c != CHAR_MAX && end != Excluded(0) ==> r.low == Succ(start.c)
    ensures end.Included? && start != Excluded(CHAR_MAX) ==> r.high == end.c
    ensures end.Excluded? && end.c != 0 && start != Excluded(CHAR_MAX) ==> r.high == Pred(end.c)
  {
    if start == Excluded(CHAR_MAX) || end == Excluded(0) then Empty()
    else
      var low: Char := match start
        case Excluded(c) => Succ(c)
        case Included(c) => c
        case Unbounded => 0;
      var high: Char := match end
        case Excluded(c) => Pred(c)
        case Included(c) => c
        case Unbounded => CHAR_MAX;
      CharRange(low, high)
  }

  // ---------------------------------------------------------------------
  // Queries (src/range/mod.rs)
  // ---------------------------------------------------------------------

  predicate IsEmpty(r: CharRange) {
    r.low > r.high
  }

  predicate Contains(r: CharRange, c: Char) {
    r.low <= c <= r.high
  }

  /** `cmp_char`: where `c` lies relative to the range. */
  function CmpChar(r: CharRange, c: Char): (o: Ordering)
    ensures o == Equal <==> Contains(r, c)
    ensures o == Less <==> r.high < c
    ensures !IsEmpty(r) ==> (o == Greater <==> c < r.low)
  {
    if r.high < c then Less
    else if r.low > c then Greater
    else Equal
  }

  /** The iterator's exact length: the integers of the interval, less the
      surrogate block when the interval spans it (src/range/iter.rs). */
  function CountScalars(lo: Char, hi: Char): (n: nat)
    ensures n == |ScalarsIn(lo, hi)|
  {
    if lo > hi then 0
    else if lo <= BEFORE_SURROGATE && hi >= AFTER_SURROGATE then
      ScalarsInSplit(lo, BEFORE_SURROGATE + 1, hi);
      ScalarsInSplit(BEFORE_SURROGATE + 1, AFTER_SURROGATE, hi);
      NoScalarsBetween(BEFORE_SURROGATE + 1, AFTER_SURROGATE - 1);
      AllScalarsBetween(lo, BEFORE_SURROGATE);
      AllScalarsBetween(AFTER_SURROGATE, hi);
      hi - lo + 1 - (AFTER_SURROGATE - (BEFORE_SURROGATE + 1))
    else
      AllScalarsBetween(lo, hi);
      hi - lo + 1
  }

  /** `len`: the number of scalar values in the range. */
  function Len(r: CharRange): (n: nat)
    ensures n == |ScalarsIn(r.low, r.high)|
  {
    CountScalars(r.low, r.high)
  }

  /** A range is empty exactly when it contains no scalar value. */
  lemma EmptyIffNoMembers(r: CharRange)
    ensures IsEmpty(r) <==> forall x: Char :: !Contains(r, x)
    ensures IsEmpty(r) <==> Len(r) == 0
  {
    if !IsEmpty(r) {
      assert Contains(r, r.low);
      assert r.low in ScalarsIn(r.low, r.high) by { ScalarsInMembers(r.low, r.high); }
    }
  }

  /** Every scalar value: the range `CharRange::from(..)`. */
  lemma FullRangeLen()
    ensures Len(FromBounds(Unbounded, Unbounded)) == 0x110000 - SURROGATE_COUNT
  {
  }

  // ---------------------------------------------------------------------
  // Equality, ordering and hashing (src/range/mod.rs)
  // ---------------------------------------------------------------------

  /** `PartialEq`: all empty ranges are equal. */
  predicate Eq(a: CharRange, b: CharRange) {
    (IsEmpty(a) && IsEmpty(b)) || (a.low == b.low && a.high == b.high)
  }

  /** Two ranges are equal exactly when they hold the same scalar values. */
  lemma EqIffSameMembers(a: CharRange, b: CharRange)
    ensures Eq(a, b) <==> forall x: Char :: Contains(a, x) == Contains(b, x)
  {
    if forall x: Char :: Contains(a, x) == Contains(b, x) {
      EmptyIffNoMembers(a);
      EmptyIffNoMembers(b);
      if !IsEmpty(a) && !IsEmpty(b) {
        assert Contains(b, a.low) && Contains(a, b.low);
        assert Contains(b, a.high) && Contains(a, b.high);
      }
    }
  }

  function CmpInt(a: int, b: int): Ordering {
    if a < b then Less else if a > b then Greater else Equal
  }

  /** `PartialOrd`: lexicographic on `(low, high)`; an empty range does not compare. */
  function PartialCmp(a: CharRange, b: CharRange): Option<Ordering> {
    if IsEmpty(a) || IsEmpty(b) then None
    else if a.low != b.low then Some(CmpInt(a.low, b.low))
    else Some(CmpInt(a.high, b.high))
  }

  /** The order agrees with `Eq`, is antisymmetric and is transitive. */
  lemma PartialCmpConsistent(a: CharRange, b: CharRange, d: CharRange)
    ensures PartialCmp(a, b).None? <==> IsEmpty(a) || IsEmpty(b)
    ensures PartialCmp(a, b) == Some(Equal) <==> !IsEmpty(a) && !IsEmpty(b) && Eq(a, b)
    ensures PartialCmp(a, b) == Some(Less) <==> PartialCmp(b, a) == Some(Greater)
    ensures PartialCmp(a, b) == Some(Less) && PartialCmp(b, d) == Some(Less) ==> PartialCmp(a, d) == Some(Less)
  {
  }

  /** The key the `Hash` impl feeds to the hasher. */
  function HashKey(r: CharRange): (Char, Char) {
    if IsEmpty(r) then (Empty().low, Empty().high) else (r.low, r.high)
  }

  /** Hashing is consistent with equality, in both directions. */
  lemma HashKeyIffEq(a: CharRange, b: CharRange)
    ensures HashKey(a) == HashKey(b) <==> Eq(a, b)
  {
  }
}
