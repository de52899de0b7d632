/** `CharSet` (src/set/mod.rs): a set of characters stored as the compact
    ranges that cover it.

    The queries are functions of the list of ranges. The edits change the
    list in place, as the Rust code changes its `Vec`, and are proved to end
    in the states the functions of `SetSpec` describe. */
module CharSets {
  import opened Wrappers
  import opened CharRanges
  import opened RangeLists
  import opened SetSpec

  class CharSet {
    /** Sorted; the ranges neither overlap nor touch (src/set/mod.rs:14-18). */
    var ranges: seq<CharRange>

    ghost predicate Valid()
      reads this
    {
      RangeLists.Valid(ranges)
    }

    /** `CharSet::new`: the empty set. */
    constructor New()
      ensures ranges == [] && Valid()
    {
      ranges := [];
    }

    /** `CharSet::with_capacity`: the empty set; the capacity only sizes the
        allocation. */
    constructor WithCapacity(capacity: nat)
      ensures ranges == [] && Valid()
    {
      ranges := [];
    }

    /** `From<CharRange>`: the one range as given. An empty range is stored as
        it is, and then the invariant does not hold. */
    constructor FromRange(r: CharRange)
      ensures ranges == [r]
      ensures Valid() <==> !CharRanges.IsEmpty(r)
    {
      ranges := [r];
      new;
      assert ranges[0] == r;
    }

    /** `search(c)`: `binary_search_by` with `cmp_char`. */
    function Search(c: Char): (res: Result<nat, nat>)
      reads this
      ensures res.Ok? ==> res.value < |ranges| && CharRanges.Contains(ranges[res.value], c)
      ensures res.Err? ==> res.error <= |ranges|
      ensures Valid() ==> (res.Ok? <==> Covers(ranges, c))
      ensures Valid() && res.Err? ==>
        && (forall i :: 0 <= i < res.error ==> ranges[i].high < c)
        && (forall i :: res.error <= i < |ranges| ==> c < ranges[i].low)
    {
      RangeLists.Search(ranges, c)
    }

    /** `contains(c)`: in a valid set, whether some stored range holds `c`. */
    function Contains(c: Char): (b: bool)
      reads this
      ensures Valid() ==> (b <==> Covers(ranges, c))
    {
      Search(c).Ok?
    }

    /** `len()`: the sum of the range lengths, which is the number of
        characters `chars()` yields. */
    function Len(): (n: nat)
      reads this
      ensures n == |Chars(ranges)|
    {
      SumLenIsCharsLength(ranges);
      SumLen(ranges)
    }

    /** `is_empty()`: no range is stored, which in a valid set means it holds
        no character. */
    function IsEmpty(): (b: bool)
      reads this
      ensures b <==> ranges == []
      ensures Valid() ==> (b <==> forall c: Char :: !Covers(ranges, c))
    {
      assert ranges != [] && Valid() ==> Covers(ranges, ranges[0].low) by {
        if ranges != [] && Valid() {
          assert CharRanges.Contains(ranges[0], ranges[0].low);
        }
      }
      ranges == []
    }

    /** `insert_at(idx, c)` (src/set/mod.rs:82-107), under its documented
        assumptions: the range below `idx` ends before `c` and the one at
        `idx` starts after it. */
    method InsertAt(idx: nat, c: Char)
      requires idx <= |ranges|
      requires idx < |ranges| ==> c < ranges[idx].low
      requires 0 < idx ==> ranges[idx - 1].high < c
      modifies this
      ensures ranges == SetSpec.InsertAt(old(ranges), idx, c)
    {
      ghost var rs := ranges;
      if idx == |ranges| {
        ranges := ranges + [Singleton(c)];
        return;
      }
      var high := ranges[idx].high;
      if ranges[idx].low - c == 1 {
        ranges := ranges[idx := CharRange(c, high)];
      } else {
        ranges := ranges[..idx] + [Singleton(c)] + ranges[idx..];
      }
      ghost var grown := ranges;
      assert idx > 0 ==> grown[idx - 1] == rs[idx - 1];
      if idx > 0 {
        var below := ranges[idx - 1];
        if c - below.high <= 1 {
          ranges := ranges[idx - 1 := CharRange(below.low, high)];
          assert ranges[..idx] == grown[..idx - 1] + [CharRange(below.low, high)];
          ranges := ranges[..idx] + ranges[idx + 1..];
        }
      }
    }

    /** `insert(c)` (src/set/mod.rs:172-176): `insert_at` where the search
        fails. It shares the defects of `CharSetBuf::insert`; away from them
        the set gains exactly `c` and stays valid. */
    method Insert(c: Char)
      requires Valid()
      modifies this
      ensures ranges == InsertAsWritten(old(ranges), c)
      ensures !InsertMisses(old(ranges), c) ==>
        && Valid()
        && forall x: Char :: Covers(ranges, x) <==> Covers(old(ranges), x) || x == c
    {
      ghost var rs := ranges;
      match Search(c) {
      case Ok(_) =>
      case Err(idx) =>
        InsertAt(idx, c);
      }
      if !InsertMisses(rs, c) {
        InsertAsWrittenWorks(rs, c);
        InsertRangeValid(rs, Singleton(c));
        InsertRangeMembers(rs, Singleton(c));
      }
    }

    /** `insert_range(r)` (src/set/mod.rs:178-215): the steps of
        `CharSetBuf::insert_range` without its emptiness check. `ok` is false
        when `drain` panics, which an empty `r` can cause; for a non-empty
        `r` it never does, and the set gains exactly `r` and stays valid. */
    method InsertRange(r: CharRange) returns (ok: bool)
      requires Valid()
      modifies this
      ensures ok <==> InsertRangeUnchecked(old(ranges), r).Some?
      ensures ok ==> ranges == InsertRangeUnchecked(old(ranges), r).value
      ensures !ok ==> ranges == old(ranges)
      ensures !CharRanges.IsEmpty(r) ==>
        && ok
        && Valid()
        && forall x: Char :: Covers(ranges, x) <==> Covers(old(ranges), x) || CharRanges.Contains(r, x)
    {
      ghost var rs := ranges;
      // The index search with its one step outwards on either side
      // (src/set/mod.rs:181-202).
      var lowIdx, lowChar := InsertLow(ranges, r).0, InsertLow(ranges, r).1;
      var highIdx, highChar := InsertHigh(ranges, r).0, InsertHigh(ranges, r).1;
      var merged := FromBounds(Included(lowChar), Included(highChar));
      assert merged == CharRange(lowChar, highChar);
      if lowIdx == highIdx {
        ranges := ranges[..lowIdx] + [merged] + ranges[lowIdx..];
      } else if lowIdx > highIdx {
        // `drain` of the block from `lowIdx + 1` up to `highIdx` panics.
        return false;
      } else {
        ranges := ranges[..lowIdx + 1] + ranges[highIdx..];
        ranges := ranges[lowIdx := merged];
        DrainAndSet(rs, lowIdx, highIdx, merged);
      }
      ok := true;
      if !CharRanges.IsEmpty(r) {
        InsertRangeUncheckedNonEmpty(rs, r);
        InsertRangeValid(rs, r);
        InsertRangeMembers(rs, r);
      }
    }

    /** `remove_at(idx, c)` as written (src/set/mod.rs:116-133): in the
        interior case the lower part keeps `c`. */
    method RemoveAt(idx: nat, c: Char)
      requires idx < |ranges| && CharRanges.Contains(ranges[idx], c)
      modifies this
      ensures ranges == SetSpec.RemoveAt(old(ranges), idx, c)
    {
      var x := ranges[idx];
      ReplaceOneShapes(ranges, idx, FromBounds(Excluded(c), Included(x.high)), FromBounds(Included(x.low), Included(c)));
      ReplaceOneShapes(ranges, idx, FromBounds(Included(x.low), Included(c)), x);
      if CharRanges.Len(x) == 1 {
        ranges := ranges[..idx] + ranges[idx + 1..];
        return;
      } else if x.low == c {
        ranges := ranges[idx := FromBounds(Excluded(c), Included(x.high))];
      } else if x.high == c {
        ranges := ranges[idx := FromBounds(Included(x.low), Included(c))];
      } else {
        var low := x.low;
        ranges := ranges[idx := FromBounds(Excluded(c), Included(x.high))];
        ranges := ranges[..idx] + [FromBounds(Included(low), Included(c))] + ranges[idx..];
      }
    }

    /** `remove(c)` as written (src/set/mod.rs:217-221): `remove_at` where the
        search succeeds. Away from a high end and from the interior of a
        range the set loses exactly `c` and stays valid. */
    method Remove(c: Char)
      modifies this
      ensures ranges == RemoveSetAsWritten(old(ranges), c)
      ensures old(Valid()) && !IsHighEnd(old(ranges), c) && !IsInterior(old(ranges), c) ==>
        && Valid()
        && forall y: Char :: Covers(ranges, y) <==> Covers(old(ranges), y) && y != c
    {
      ghost var rs := ranges;
      match Search(c) {
      case Err(_) =>
      case Ok(idx) =>
        RemoveAt(idx, c);
      }
      if RangeLists.Valid(rs) && !IsHighEnd(rs, c) && !IsInterior(rs, c) {
        RemoveSetWorks(rs, c);
        RemoveCorrect(rs, c);
      }
    }

    /** `remove_range(r)` as written (src/set/mod.rs:223-236). `ok` is false
        when the loop panics: when it indexes past the last range, or when
        its `assert!` fails. */
    method RemoveRange(r: CharRange) returns (ok: bool)
      modifies this
      ensures ok <==> RemoveRangeSetAsWritten(old(ranges), r).Some?
      ensures ok ==> ranges == RemoveRangeSetAsWritten(old(ranges), r).value
    {
      ghost var rs := ranges;
      var idx;
      match Search(r.low) {
      case Err(i) =>
        idx := i;
      case Ok(i) =>
        RemoveAt(i, r.low);
        idx := i;
      }
      Remove(r.high);
      while true
        invariant DropBelow(ranges, idx, r) == RemoveRangeSetAsWritten(rs, r)
        decreases |ranges|
      {
        if idx >= |ranges| {
          return false;
        }
        if ranges[idx].high >= r.high {
          return true;
        }
        if ranges[idx].low <= r.low {
          return false;
        }
        ranges := ranges[..idx] + ranges[idx + 1..];
      }
    }
  }
}
