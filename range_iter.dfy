/** The double-ended iterator over a `CharRange` (src/range/iter.rs).

    The iterator keeps its own `low` and `high` and overwrites them as it is
    consumed from either end. What it has left to yield is the ascending
    enumeration of the scalar values in `low..=high`. */
module RangeIters {
  import opened Wrappers
  import opened CharRanges

  class Iter {
    var low: Char
    var high: Char

    /** The values still to be yielded, front first. */
    ghost function Remaining(): seq<Char>
      reads this
    {
      ScalarsIn(low, high)
    }

    /** `CharRange::into_iter` (and `CharRange::iter`). */
    constructor FromRange(r: CharRange)
      ensures low == r.low && high == r.high
      ensures Remaining() == ScalarsIn(r.low, r.high)
    {
      low := r.low;
      high := r.high;
    }

    predicate IsEmpty()
      reads this
    {
      low > high
    }

    /** `ExactSizeIterator::len`. */
    function Len(): (n: nat)
      reads this
      ensures n == |Remaining()|
      ensures n == 0 <==> IsEmpty()
    {
      CountScalars(low, high)
    }

    /** `count`: the number of values still to be yielded, taken from `len`
        without stepping through them. */
    function Count(): (n: nat)
      reads this
      ensures n == |Remaining()|
    {
      Len()
    }

    /** `size_hint`: exact in both bounds. */
    function SizeHint(): (hint: (nat, Option<nat>))
      reads this
      ensures hint.0 == |Remaining()| && hint.1 == Some(|Remaining()|)
    {
      var n := Len();
      (n, Some(n))
    }

    /** Moves the front past `low`; past `char::MAX` it empties the iterator
        by setting `high` to '\0' instead of overflowing. */
    method StepForward()
      requires !IsEmpty()
      modifies this
      ensures old(low) == CHAR_MAX ==> low == old(low) && high == 0
      ensures old(low) != CHAR_MAX ==> low == Succ(old(low)) && high == old(high)
      ensures Remaining() == old(Remaining())[1..]
    {
      if low == CHAR_MAX {
        high := 0;
      } else {
        SuccEnumeration(low, high);
        low := if low == BEFORE_SURROGATE then AFTER_SURROGATE else low + 1;
      }
    }

    /** Moves the back before `high`; below '\0' it empties the iterator by
        setting `low` to `char::MAX` instead of underflowing. */
    method StepBackward()
      requires !IsEmpty()
      modifies this
      ensures old(high) == 0 ==> high == old(high) && low == CHAR_MAX
      ensures old(high) != 0 ==> high == Pred(old(high)) && low == old(low)
      ensures Remaining() == old(Remaining())[..|old(Remaining())| - 1]
    {
      ScalarsInSnoc(low, high);
      if high == 0 {
        low := CHAR_MAX;
      } else {
        PredEnumeration(low, high);
        high := if high == AFTER_SURROGATE then BEFORE_SURROGATE else high - 1;
      }
    }

    /** `next`: the front value, or `None` forever once the iterator is empty. */
    method Next() returns (c: Option<Char>)
      modifies this
      ensures old(Remaining()) == [] ==> c == None && low == old(low) && high == old(high)
      ensures old(Remaining()) != [] ==>
        && c == Some(old(Remaining())[0])
        && Remaining() == old(Remaining())[1..]
        && Len() == old(Len()) - 1
    {
      if IsEmpty() {
        return None;
      }
      c := Some(low);
      StepForward();
    }

    /** `next_back`: the back value, or `None` forever once the iterator is empty. */
    method NextBack() returns (c: Option<Char>)
      modifies this
      ensures old(Remaining()) == [] ==> c == None && low == old(low) && high == old(high)
      ensures old(Remaining()) != [] ==>
        && c == Some(old(Remaining())[|old(Remaining())| - 1])
        && Remaining() == old(Remaining())[..|old(Remaining())| - 1]
        && Len() == old(Len()) - 1
    {
      if IsEmpty() {
        return None;
      }
      ScalarsInSnoc(low, high);
      c := Some(high);
      StepBackward();
    }

    /** `last`: consumes the iterator from the back, so a non-empty iterator
        yields its current `high`. */
    method Last() returns (c: Option<Char>)
      modifies this
      ensures old(Remaining()) == [] <==> c == None
      ensures old(Remaining()) != [] ==> c == Some(old(high))
    {
      c := NextBack();
      if c.Some? {
        ScalarsInSnoc(old(low), old(high));
      }
    }
  }

  /** Collecting an iterator from the front yields the ascending scalar values
      of the range, and its length is `len()`. */
  method CollectForward(r: CharRange) returns (out: seq<Char>)
    ensures out == ScalarsIn(r.low, r.high)
    ensures |out| == Len(r)
    ensures StrictlyAscending(out)
    ensures forall x :: x in out <==> IsScalar(x) && r.low <= x <= r.high
  {
    var it := new Iter.FromRange(r);
    out := [];
    while true
      invariant out + it.Remaining() == ScalarsIn(r.low, r.high)
      decreases |it.Remaining()|
    {
      var c := it.Next();
      if c.None? {
        break;
      }
      out := out + [c.value];
    }
    ScalarsInAscending(r.low, r.high);
    ScalarsInMembers(r.low, r.high);
  }

  /** Collecting from the back yields the same values in reverse. */
  method CollectBackward(r: CharRange) returns (out: seq<Char>)
    ensures |out| == Len(r)
    ensures forall i :: 0 <= i < |out| ==> out[i] == ScalarsIn(r.low, r.high)[|out| - 1 - i]
  {
    var it := new Iter.FromRange(r);
    out := [];
    ghost var all := ScalarsIn(r.low, r.high);
    while true
      invariant |it.Remaining()| + |out| == |all|
      invariant it.Remaining() == all[..|it.Remaining()|]
      invariant forall i :: 0 <= i < |out| ==> out[i] == all[|all| - 1 - i]
      decreases |it.Remaining()|
    {
      var c := it.NextBack();
      if c.None? {
        break;
      }
      out := out + [c.value];
    }
  }
}
