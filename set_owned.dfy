/** `CharSetBuf` (src/set/owned.rs): the owned, growable set of characters.

    The list of ranges is edited in place, as the Rust code edits its
    `Vec`: `push`, `insert` and `remove` at an index, `drain` of a block,
    and writes to single elements. Each method is proved to end in the state
    the matching function of `SetSpec` describes; what those states mean is
    proved there. */
module CharSetBufs {
  import opened Wrappers
  import opened CharRanges
  import opened RangeLists
  import opened SetSpec

  class CharSetBuf {
    /** Sorted; the ranges neither overlap nor touch (src/set/owned.rs:14-18). */
    var ranges: seq<CharRange>

    ghost predicate Valid()
      reads this
    {
      RangeLists.Valid(ranges)
    }

    /** `CharSetBuf::new`: the empty set. */
    constructor New()
      ensures ranges == [] && Valid()
    {
      ranges := [];
    }

    /** `CharSetBuf::with_capacity`: the empty set; the capacity only sizes the
        allocation. */
    constructor WithCapacity(capacity: nat)
      ensures ranges == [] && Valid()
    {
      ranges := [];
    }

    /** `From<R: Into<CharRange>>`: the one range as given. An empty range is
        stored as it is, and then the invariant does not hold. */
    constructor FromRange(r: CharRange)
      ensures ranges == [r]
      ensures Valid() <==> !CharRanges.IsEmpty(r)
    {
      ranges := [r];
      new;
      assert ranges[0] == r;
    }

    /** The binary search by `cmp_char` that `CharSet::search` performs. */
    function Search(c: Char): (res: Result<nat, nat>)
      reads this
      ensures res.Ok? ==> res.value < |ranges| && Contains(ranges[res.value], c)
      ensures res.Err? ==> res.error <= |ranges|
      ensures Valid() ==> (res.Ok? <==> Covers(ranges, c))
      ensures Valid() && res.Err? ==>
        && (forall i :: 0 <= i < res.error ==> ranges[i].high < c)
        && (forall i :: res.error <= i < |ranges| ==> c < ranges[i].low)
    {
      RangeLists.Search(ranges, c)
    }

    /** `clear`: no ranges are left. */
    method Clear()
      modifies this
      ensures ranges == [] && Valid()
    {
      ranges := [];
    }

    /** `insert(c)` as written (src/set/owned.rs:76-101). Where `c` touches only
        the range below it the result is wrong (see `SetSpec.InsertMisses`);
        everywhere else the set gains exactly `c` and stays valid. */
    method Insert(c: Char)
      requires Valid()
      modifies this
      ensures ranges == InsertAsWritten(old(ranges), c)
      ensures !InsertMisses(old(ranges), c) ==>
        && Valid()
        && ranges == InsertRangeSpec(old(ranges), Singleton(c))
        && forall x: Char :: Covers(ranges, x) <==> Covers(old(ranges), x) || x == c
    {
      ghost var rs := ranges;
      InsertAsWrittenMeaning(rs, c);
      match Search(c) {
      case Ok(_) =>
      case Err(idx) =>
        InsertAtGap(idx, c);
      }
    }

    /** `insert_at(idx, c)`: `c` lies in the gap before the range at `idx`. */
    method InsertAtGap(idx: nat, c: Char)
      requires idx <= |ranges|
      requires idx < |ranges| ==> c < ranges[idx].low
      requires 0 < idx ==> ranges[idx - 1].high < c
      modifies this
      ensures ranges == InsertAt(old(ranges), idx, c)
    {
      ghost var rs := ranges;
      if idx == |ranges| {
        ranges := ranges + [Singleton(c)];
      } else {
        var high := ranges[idx].high;
        if ranges[idx].low - c == 1 {
          ranges := ranges[idx := CharRange(c, high)];
        } else {
          ranges := ranges[..idx] + [Singleton(c)] + ranges[idx..];
        }
        ghost var grown := ranges;
        assert idx > 0 ==> grown[idx - 1] == rs[idx - 1];
        if idx > 0 {
          var below := ranges[idx - 1];
          if c - below.high <= 1 {
            ranges := ranges[idx - 1 := CharRange(below.low, high)];
            assert ranges[..idx] == grown[..idx - 1] + [CharRange(below.low, high)];
            ranges := ranges[..idx] + ranges[idx + 1..];
          }
        }
      }
    }

    /** `insert_range(r)` (src/set/owned.rs:103-144): the block of ranges that
        overlap or touch `r` becomes one range; an empty `r` changes nothing. */
    method InsertRange(r: CharRange)
      requires Valid()
      modifies this
      ensures ranges == InsertRangeSpec(old(ranges), r)
      ensures Valid()
      ensures forall x: Char :: Covers(ranges, x) <==> Covers(old(ranges), x) || Contains(r, x)
    {
      ghost var rs := ranges;
      if CharRanges.IsEmpty(r) {
        InsertRangeMembers(rs, r);
        return;
      }
      // The index search with its one step outwards on either side
      // (src/set/owned.rs:110-131).
      var lowIdx, lowChar := InsertLow(ranges, r).0, InsertLow(ranges, r).1;
      var highIdx, highChar := InsertHigh(ranges, r).0, InsertHigh(ranges, r).1;
      InsertIndicesOrdered(rs, r);
      var merged := FromBounds(Included(lowChar), Included(highChar));
      assert merged == CharRange(lowChar, highChar);
      if lowIdx == highIdx {
        ranges := ranges[..lowIdx] + [merged] + ranges[lowIdx..];
      } else {
        ranges := ranges[..lowIdx + 1] + ranges[highIdx..];
        ranges := ranges[lowIdx := merged];
        DrainAndSet(rs, lowIdx, highIdx, merged);
      }
      assert ranges == InsertRangeSpec(rs, r);
      InsertRangeValid(rs, r);
      InsertRangeMembers(rs, r);
    }

    /** `remove(c)` as written (src/set/owned.rs:156-174). At the high end of a
        range it rebuilds the range unchanged; everywhere else the set loses
        exactly `c` and stays valid. */
    method Remove(c: Char)
      requires Valid()
      modifies this
      ensures ranges == RemoveOwnedAsWritten(old(ranges), c)
      ensures !IsHighEnd(old(ranges), c) ==>
        && Valid()
        && forall y: Char :: Covers(ranges, y) <==> Covers(old(ranges), y) && y != c
    {
      ghost var rs := ranges;
      match Search(c) {
      case Err(_) =>
      case Ok(idx) =>
        var x := ranges[idx];
        ReplaceOneShapes(ranges, idx, FromBounds(Excluded(c), Included(x.high)), FromBounds(Included(x.low), Excluded(c)));
        ReplaceOneShapes(ranges, idx, FromBounds(Included(x.low), Included(c)), x);
        if Len(x) == 1 {
          ranges := ranges[..idx] + ranges[idx + 1..];
        } else if x.low == c {
          ranges := ranges[idx := FromBounds(Excluded(c), Included(x.high))];
        } else if x.high == c {
          ranges := ranges[idx := FromBounds(Included(x.low), Included(c))];
        } else {
          var low := x.low;
          ranges := ranges[idx := FromBounds(Excluded(c), Included(x.high))];
          ranges := ranges[..idx] + [FromBounds(Included(low), Excluded(c))] + ranges[idx..];
        }
      }
      assert ranges == RemoveOwnedAsWritten(rs, c);
      if !IsHighEnd(rs, c) {
        RemoveOwnedWorks(rs, c);
        RemoveCorrect(rs, c);
      }
    }

    /** `remove_range(r)` as written (src/set/owned.rs:176-227). The covered
        characters lose exactly those of `r`, but an endpoint in a gap or on
        an outer edge can leave an empty range behind; the set stays valid
        whenever no empty range is left. */
    method RemoveRange(r: CharRange)
      requires Valid()
      modifies this
      ensures ranges == RemoveRangeAsWritten(old(ranges), r)
      ensures forall y: Char :: Covers(ranges, y) <==> Covers(old(ranges), y) && !Contains(r, y)
      ensures (forall k :: 0 <= k < |ranges| ==> !CharRanges.IsEmpty(ranges[k])) ==>
        Valid() && ranges == RemoveRangeSpec(old(ranges), r)
    {
      ghost var rs := ranges;
      RemoveRangeAsWrittenMeaning(rs, r);
      if CharRanges.IsEmpty(r) {
        return;
      }
      // Inclusive index of the lowest and exclusive index of the highest
      // edited range (src/set/owned.rs:181-187).
      var low, high := RemoveLow(ranges, r), RemoveHigh(ranges, r);
      RemoveIndexFacts(rs, r);
      if low == high {
        ReplaceNothing(rs, low);
      } else if low + 1 == high {
        EditOne(r, low);
      } else {
        EditBlock(r, low, high);
      }
      assert ranges == RemoveRangeAsWritten(rs, r);
    }

    /** The edit of `remove_range` when `r` meets the single range at `low`. */
    method EditOne(r: CharRange, low: nat)
      requires low < |ranges|
      modifies this
      ensures ranges == ReplaceBlock(old(ranges), low, low + 1, RemoveMid(old(ranges), r, low, low + 1))
    {
      var split := ranges[low];
      ReplaceOneShapes(ranges, low, FromBounds(Excluded(r.high), Included(split.high)), FromBounds(Included(split.low), Excluded(r.low)));
      ReplaceOneShapes(ranges, low, FromBounds(Included(split.low), Excluded(r.low)), FromBounds(Excluded(r.high), Included(split.high)));
      if split.low == r.low && split.high == r.high {
        ranges := ranges[..low] + ranges[low + 1..];
      } else if split.low == r.low {
        ranges := ranges[low := FromBounds(Excluded(r.high), Included(split.high))];
      } else if split.high == r.high {
        ranges := ranges[low := FromBounds(Included(split.low), Excluded(r.low))];
      } else {
        var highChar := split.high;
        ranges := ranges[low := FromBounds(Included(split.low), Excluded(r.low))];
        ranges := ranges[..low + 1] + [FromBounds(Excluded(r.high), Included(highChar))] + ranges[low + 1..];
      }
    }

    /** The edit of `remove_range` when `r` meets several ranges: trim the
        first and the last, drain the ones between. */
    method EditBlock(r: CharRange, low: nat, high: nat)
      requires low + 1 < high <= |ranges|
      modifies this
      ensures ranges == ReplaceBlock(old(ranges), low, high, RemoveMid(old(ranges), r, low, high))
    {
      var left := ranges[low];
      var right := ranges[high - 1];
      TrimAndDrain(ranges, low, high, FromBounds(Included(left.low), Excluded(r.low)), FromBounds(Excluded(r.high), Included(right.high)));
      ranges := ranges[low := FromBounds(Included(left.low), Excluded(r.low))];
      var last := high - 1;
      ranges := ranges[last := FromBounds(Excluded(r.high), Included(right.high))];
      ranges := ranges[..low + 1] + ranges[last..];
    }

    /** `Extend<CharRange>`: `insert_range` of each range in turn. */
    method ExtendRanges(qs: seq<CharRange>)
      requires Valid()
      modifies this
      ensures ranges == InsertRanges(old(ranges), qs)
      ensures Valid()
      ensures forall x: Char :: Covers(ranges, x) <==>
        Covers(old(ranges), x) || exists i :: 0 <= i < |qs| && Contains(qs[i], x)
    {
      InsertRangesMembers(ranges, qs);
      var i := 0;
      while i < |qs|
        invariant 0 <= i <= |qs|
        invariant Valid()
        invariant InsertRanges(ranges, qs[i..]) == InsertRanges(old(ranges), qs)
      {
        assert qs[i..][1..] == qs[i + 1..];
        InsertRange(qs[i]);
        i := i + 1;
      }
    }

    /** `Extend<char>`: `insert` of each character in turn. Proved for inputs
        on which no step meets a shape `insert` gets wrong; then the set gains
        exactly the given characters. */
    method ExtendChars(cs: seq<Char>)
      requires Valid() && InsertsWork(ranges, cs)
      modifies this
      ensures ranges == InsertRanges(old(ranges), Singletons(cs))
      ensures Valid()
      ensures forall x: Char :: Covers(ranges, x) <==> Covers(old(ranges), x) || x in cs
    {
      InsertCharsMembers(ranges, cs);
      var i := 0;
      while i < |cs|
        invariant 0 <= i <= |cs|
        invariant Valid() && InsertsWork(ranges, cs[i..])
        invariant InsertRanges(ranges, Singletons(cs[i..])) == InsertRanges(old(ranges), Singletons(cs))
      {
        assert cs[i..][1..] == cs[i + 1..];
        Insert(cs[i]);
        i := i + 1;
      }
    }
  }

  /** `FromIterator<CharRange>`: an empty set extended by the ranges. */
  method FromRanges(qs: seq<CharRange>) returns (s: CharSetBuf)
    ensures fresh(s) && s.Valid()
    ensures s.ranges == InsertRanges([], qs)
    ensures forall x: Char :: Covers(s.ranges, x) <==> exists i :: 0 <= i < |qs| && Contains(qs[i], x)
  {
    s := new CharSetBuf.WithCapacity(|qs|);
    s.ExtendRanges(qs);
  }

  /** `FromIterator<char>`: an empty set extended by the characters. */
  method FromChars(cs: seq<Char>) returns (s: CharSetBuf)
    requires InsertsWork([], cs)
    ensures fresh(s) && s.Valid()
    ensures s.ranges == InsertRanges([], Singletons(cs))
    ensures forall x: Char :: Covers(s.ranges, x) <==> x in cs
  {
    s := new CharSetBuf.New();
    s.ExtendChars(cs);
  }
}
