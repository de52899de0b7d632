/** Iterating a `CharSet` (src/set/iter.rs): `RangeIter` walks the stored
    ranges as a slice iterator does, with a front and a back cursor, and
    `chars()` flattens the ranges into their characters. */
module SetIters {
  import opened Wrappers
  import opened CharRanges
  import opened RangeLists
  import opened RangeIters
  import opened CharSets

  /** `fold` over `s`, first element first. */
  function FoldLeft<A>(f: (A, CharRange) -> A, acc: A, s: seq<CharRange>): A
    decreases |s|
  {
    if s == [] then acc else FoldLeft(f, f(acc, s[0]), s[1..])
  }

  /** `rfold` over `s`, last element first. */
  function FoldBack<A>(f: (A, CharRange) -> A, acc: A, s: seq<CharRange>): A
    decreases |s|
  {
    if s == [] then acc else FoldBack(f, f(acc, s[|s| - 1]), s[..|s| - 1])
  }

  /** Folding from the back is folding the reversed sequence from the front. */
  lemma {:induction false} FoldBackIsFoldLeftOfReverse<A>(f: (A, CharRange) -> A, acc: A, s: seq<CharRange>)
    ensures FoldBack(f, acc, s) == FoldLeft(f, acc, Reverse(s))
    decreases |s|
  {
    if s != [] {
      FoldBackIsFoldLeftOfReverse(f, f(acc, s[|s| - 1]), s[..|s| - 1]);
      assert Reverse(s)[1..] == Reverse(s[..|s| - 1]);
    }
  }

  function Reverse(s: seq<CharRange>): (r: seq<CharRange>)
    ensures |r| == |s|
    ensures forall i :: 0 <= i < |s| ==> r[i] == s[|s| - 1 - i]
  {
    if s == [] then [] else [s[|s| - 1]] + Reverse(s[..|s| - 1])
  }

  class RangeIter {
    /** The set's ranges, as the slice the iterator borrows. */
    const items: seq<CharRange>
    /** The slice iterator's two ends: `items[front..back]` is still to come. */
    var front: nat
    var back: nat

    ghost predicate Valid()
      reads this
    {
      front <= back <= |items|
    }

    /** What the iterator has still to yield, front first. */
    function Remaining(): seq<CharRange>
      reads this
      requires Valid()
    {
      items[front..back]
    }

    /** `CharSet::ranges` (and `IntoIterator for &CharSet`): every stored
        range, in stored order. */
    constructor Ranges(s: CharSet)
      ensures Valid() && items == s.ranges && Remaining() == s.ranges
    {
      items := s.ranges;
      front := 0;
      back := |s.ranges|;
    }

    /** `slice::iter`: every element of `rs`, front to back. */
    constructor OverSlice(rs: seq<CharRange>)
      ensures Valid() && items == rs && Remaining() == rs
    {
      items := rs;
      front := 0;
      back := |rs|;
    }

    /** `len`, and likewise `count`: the number of ranges still to come. */
    function Len(): (n: nat)
      reads this
      requires Valid()
      ensures n == |Remaining()|
    {
      back - front
    }

    /** `size_hint`: exact in both bounds. */
    function SizeHint(): (hint: (nat, Option<nat>))
      reads this
      requires Valid()
      ensures hint == (|Remaining()|, Some(|Remaining()|))
    {
      (back - front, Some(back - front))
    }

    /** `next`: the front range; `None` for ever once the slice is used up. */
    method Next() returns (r: Option<CharRange>)
      requires Valid()
      modifies this
      ensures Valid()
      ensures old(Remaining()) == [] ==> r == None && Remaining() == []
      ensures old(Remaining()) != [] ==> r == Some(old(Remaining())[0]) && Remaining() == old(Remaining())[1..]
    {
      if front == back {
        return None;
      }
      r := Some(items[front]);
      front := front + 1;
    }

    /** `next_back`: the back range. */
    method NextBack() returns (r: Option<CharRange>)
      requires Valid()
      modifies this
      ensures Valid()
      ensures old(Remaining()) == [] ==> r == None && Remaining() == []
      ensures old(Remaining()) != [] ==>
        && r == Some(old(Remaining())[|old(Remaining())| - 1])
        && Remaining() == old(Remaining())[..|old(Remaining())| - 1]
    {
      if front == back {
        return None;
      }
      back := back - 1;
      r := Some(items[back]);
    }

    /** `nth(n)`: skips `n` ranges and yields the next one; past the end the
        iterator is used up and yields `None`. */
    method Nth(n: nat) returns (r: Option<CharRange>)
      requires Valid()
      modifies this
      ensures Valid()
      ensures n < |old(Remaining())| ==> r == Some(old(Remaining())[n]) && Remaining() == old(Remaining())[n + 1..]
      ensures n >= |old(Remaining())| ==> r == None && Remaining() == []
    {
      if n >= back - front {
        front := back;
        return None;
      }
      r := Some(items[front + n]);
      front := front + n + 1;
    }

    /** `fold`: combines the remaining ranges into `acc`, first to last. */
    method Fold<A>(init: A, f: (A, CharRange) -> A) returns (acc: A)
      requires Valid()
      modifies this
      ensures acc == FoldLeft(f, init, old(Remaining()))
    {
      acc := init;
      while true
        invariant Valid()
        invariant FoldLeft(f, acc, Remaining()) == FoldLeft(f, init, old(Remaining()))
        decreases |Remaining()|
      {
        var r := Next();
        if r.None? {
          return;
        }
        acc := f(acc, r.value);
      }
    }

    /** `rfold`: combines the remaining ranges into `acc`, last to first. */
    method RFold<A>(init: A, f: (A, CharRange) -> A) returns (acc: A)
      requires Valid()
      modifies this
      ensures acc == FoldBack(f, init, old(Remaining()))
      ensures acc == FoldLeft(f, init, Reverse(old(Remaining())))
    {
      FoldBackIsFoldLeftOfReverse(f, init, Remaining());
      acc := init;
      while true
        invariant Valid()
        invariant FoldBack(f, acc, Remaining()) == FoldBack(f, init, old(Remaining()))
        decreases |Remaining()|
      {
        var r := NextBack();
        if r.None? {
          return;
        }
        acc := f(acc, r.value);
      }
    }

    /** `position(p)`: the index, counted from the front, of the first range
        that satisfies `p`; the iterator is left just past it. */
    method Position(p: CharRange -> bool) returns (k: Option<nat>)
      requires Valid()
      modifies this
      ensures Valid()
      ensures k.Some? ==>
        && k.value < |old(Remaining())|
        && p(old(Remaining())[k.value])
        && (forall j :: 0 <= j < k.value ==> !p(old(Remaining())[j]))
        && Remaining() == old(Remaining())[k.value + 1..]
      ensures k.None? ==> (forall j :: 0 <= j < |old(Remaining())| ==> !p(old(Remaining())[j])) && Remaining() == []
    {
      ghost var all := Remaining();
      var i := 0;
      while true
        invariant Valid() && i <= |all|
        invariant Remaining() == all[i..]
        invariant forall j :: 0 <= j < i ==> !p(all[j])
        decreases |Remaining()|
      {
        var r := Next();
        if r.None? {
          return None;
        }
        if p(r.value) {
          return Some(i);
        }
        i := i + 1;
      }
    }

    /** `rposition(p)`: the index, counted from the front, of the last range
        that satisfies `p`; the iterator is left just before it. */
    method RPosition(p: CharRange -> bool) returns (k: Option<nat>)
      requires Valid()
      modifies this
      ensures Valid()
      ensures k.Some? ==>
        && k.value < |old(Remaining())|
        && p(old(Remaining())[k.value])
        && (forall j :: k.value < j < |old(Remaining())| ==> !p(old(Remaining())[j]))
        && Remaining() == old(Remaining())[..k.value]
      ensures k.None? ==> (forall j :: 0 <= j < |old(Remaining())| ==> !p(old(Remaining())[j])) && Remaining() == []
    {
      ghost var all := Remaining();
      while true
        invariant Valid() && |Remaining()| <= |all|
        invariant Remaining() == all[..|Remaining()|]
        invariant forall j :: |Remaining()| <= j < |all| ==> !p(all[j])
        decreases |Remaining()|
      {
        var i := Len();
        var r := NextBack();
        if r.None? {
          return None;
        }
        if p(r.value) {
          return Some(i - 1);
        }
      }
    }
  }

  /** `flat_map(IntoIterator::into_iter)` over a range iterator: each range
      still to come, flattened by its own iterator, in order. */
  method FlatChars(it: RangeIter) returns (out: seq<Char>)
    requires it.Valid()
    modifies it
    ensures out == Chars(old(it.Remaining()))
  {
    out := [];
    while true
      invariant it.Valid()
      invariant out + Chars(it.Remaining()) == Chars(old(it.Remaining()))
      decreases |it.Remaining()|
    {
      var r := it.Next();
      if r.None? {
        break;
      }
      var part := CollectForward(r.value);
      out := out + part;
    }
  }

  /** `CharSet::chars`: the characters of the stored ranges, in stored order.
      That is `Chars` of the stored ranges, so it holds exactly the set's
      members, ascending (`RangeLists.CharsMembers`,
      `RangeLists.CharsAscending`), and `len()` of them. */
  method SetChars(s: CharSet) returns (out: seq<Char>)
    ensures out == Chars(s.ranges)
    ensures |out| == s.Len()
  {
    var it := new RangeIter.Ranges(s);
    out := FlatChars(it);
  }
}
