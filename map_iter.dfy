/** Iterating a `CharMapRef` (src/map/iter.rs): its ranges, its characters,
    and `RangeValueIter`, the zip of the ranges with the values. */
module MapIters {
  import opened Wrappers
  import opened CharRanges
  import opened RangeLists
  import opened SetIters
  import opened MapRefs

  /** The pairs `(ranges[i], values[i])` for every index both slices have:
      what `zip` of the two slice iterators yields. */
  function Zip<T>(rs: seq<CharRange>, vs: seq<T>): (z: seq<(CharRange, T)>)
    ensures |z| == if |rs| < |vs| then |rs| else |vs|
    ensures forall i :: 0 <= i < |z| ==> z[i] == (rs[i], vs[i])
  {
    if rs == [] || vs == [] then [] else [(rs[0], vs[0])] + Zip(rs[1..], vs[1..])
  }

  /** `CharMapRef::ranges`: an iterator over the stored ranges, in order. */
  method Ranges<T>(m: CharMapRef<T>) returns (it: RangeIter)
    ensures fresh(it) && it.Valid() && it.Remaining() == m.ranges
  {
    it := new RangeIter.OverSlice(m.ranges);
  }

  /** `CharMapRef::chars`: every covered character, range by range in
      stored order, `len()` of them. */
  method MapChars<T>(m: CharMapRef<T>) returns (out: seq<Char>)
    ensures out == Chars(m.ranges)
    ensures |out| == MapRefs.Len(m)
  {
    var it := Ranges(m);
    out := FlatChars(it);
  }

  class RangeValueIter<T> {
    /** The two slices the zip borrows. */
    const ranges: seq<CharRange>
    const values: seq<T>
    /** `Zip(ranges, values)[front..back]` is still to come. */
    var front: nat
    var back: nat

    ghost predicate Valid()
      reads this
    {
      front <= back <= |Zip(ranges, values)|
    }

    function Remaining(): seq<(CharRange, T)>
      reads this
      requires Valid()
    {
      Zip(ranges, values)[front..back]
    }

    /** `CharMapRef::range_values` (and `IntoIterator for CharMapRef`):
        `(ranges[i], values[i])` for ascending `i`, as far as the shorter
        slice goes. */
    constructor RangeValues(m: CharMapRef<T>)
      ensures Valid() && ranges == m.ranges && values == m.values
      ensures Remaining() == Zip(m.ranges, m.values)
    {
      ranges, values := m.ranges, m.values;
      front := 0;
      back := if |m.ranges| < |m.values| then |m.ranges| else |m.values|;
    }

    /** `len` (`ExactSizeIterator`): the pairs still to come. */
    function Len(): (n: nat)
      reads this
      requires Valid()
      ensures n == |Remaining()|
    {
      back - front
    }

    /** `size_hint`: exact in both bounds. */
    function SizeHint(): (hint: (nat, Option<nat>))
      reads this
      requires Valid()
      ensures hint == (|Remaining()|, Some(|Remaining()|))
    {
      (back - front, Some(back - front))
    }

    /** `next`: the front pair; `None` for ever once the zip is used up. */
    method Next() returns (p: Option<(CharRange, T)>)
      requires Valid()
      modifies this
      ensures Valid()
      ensures old(Remaining()) == [] ==> p == None && Remaining() == []
      ensures old(Remaining()) != [] ==> p == Some(old(Remaining())[0]) && Remaining() == old(Remaining())[1..]
    {
      if front == back {
        return None;
      }
      p := Some((ranges[front], values[front]));
      front := front + 1;
    }

    /** `next_back`: the back pair. */
    method NextBack() returns (p: Option<(CharRange, T)>)
      requires Valid()
      modifies this
      ensures Valid()
      ensures old(Remaining()) == [] ==> p == None && Remaining() == []
      ensures old(Remaining()) != [] ==>
        && p == Some(old(Remaining())[|old(Remaining())| - 1])
        && Remaining() == old(Remaining())[..|old(Remaining())| - 1]
    {
      if front == back {
        return None;
      }
      back := back - 1;
      p := Some((ranges[back], values[back]));
    }

    /** `nth(n)`: skips `n` pairs and yields the next one; past the end the
        iterator is used up and yields `None`. */
    method Nth(n: nat) returns (p: Option<(CharRange, T)>)
      requires Valid()
      modifies this
      ensures Valid()
      ensures n < |old(Remaining())| ==> p == Some(old(Remaining())[n]) && Remaining() == old(Remaining())[n + 1..]
      ensures n >= |old(Remaining())| ==> p == None && Remaining() == []
    {
      if n >= back - front {
        front := back;
        return None;
      }
      p := Some((ranges[front + n], values[front + n]));
      front := front + n + 1;
    }
  }

  /** Over sorted ranges with a value for each, the pairs `range_values`
      yields agree with `get`: every character of the `i`-th range maps to
      the `i`-th value. */
  lemma RangeValuesAgreeWithGet<T>(m: CharMapRef<T>, i: nat, c: Char)
    requires Sorted(m.ranges) && |m.ranges| <= |m.values|
    requires i < |Zip(m.ranges, m.values)| && CharRanges.Contains(Zip(m.ranges, m.values)[i].0, c)
    ensures HasValueFor(m, c) && Get(m, c) == Some(Zip(m.ranges, m.values)[i].1)
  {
    GetAt(m, c, i);
  }
}
