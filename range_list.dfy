/** Sorted lists of `CharRange`s: the representation shared by `CharSet`,
    `CharSetBuf` and `CharMapRef`, with the binary search all of them use. */
module RangeLists {
  import opened Wrappers
  import opened CharRanges

  /** What binary search needs: non-empty ranges in strictly increasing,
      non-overlapping order. */
  predicate Sorted(rs: seq<CharRange>) {
    && (forall i :: 0 <= i < |rs| ==> !IsEmpty(rs[i]))
    && (forall i, j :: 0 <= i < j < |rs| ==> rs[i].high < rs[j].low)
  }

  /** The set invariant (src/set/owned.rs, `ranges`): sorted, and no two
      ranges overlap or touch. Touching is measured on the code point
      numbers, so a range ending at 0xD7FF and one starting at 0xE000 are
      kept apart. */
  predicate Valid(rs: seq<CharRange>) {
    && (forall i :: 0 <= i < |rs| ==> !IsEmpty(rs[i]))
    && (forall i, j :: 0 <= i < j < |rs| ==> rs[i].high + 1 < rs[j].low)
  }

  /** Some stored range contains `c`. */
  predicate Covers(rs: seq<CharRange>, c: Char) {
    exists i :: 0 <= i < |rs| && Contains(rs[i], c)
  }

  lemma ValidIsSorted(rs: seq<CharRange>)
    requires Valid(rs)
    ensures Sorted(rs)
  {
  }

  // ---------------------------------------------------------------------
  // Binary search by `cmp_char` (`binary_search_by`, src/set/mod.rs)
  // ---------------------------------------------------------------------

  /** Binary search of `rs[lo..hi]`. */
  function SearchIn(rs: seq<CharRange>, c: Char, lo: nat, hi: nat): (res: Result<nat, nat>)
    requires lo <= hi <= |rs|
    ensures res.Ok? ==> lo <= res.value < hi && Contains(rs[res.value], c)
    ensures res.Err? ==> lo <= res.error <= hi
    ensures Sorted(rs) && res.Err? ==>
      && (forall i :: lo <= i < res.error ==> rs[i].high < c)
      && (forall i :: res.error <= i < hi ==> c < rs[i].low)
    decreases hi - lo
  {
    if lo == hi then Err(lo)
    else
      var mid := (lo + hi) / 2;
      match CmpChar(rs[mid], c)
      case Equal => Ok(mid)
      case Less => SearchIn(rs, c, mid + 1, hi)
      case Greater => SearchIn(rs, c, lo, mid)
  }

  /** `search(c)`: `Ok` with the index of a range containing `c`, or `Err`
      with the index where `c` would be inserted. */
  function Search(rs: seq<CharRange>, c: Char): (res: Result<nat, nat>)
    ensures res.Ok? ==> res.value < |rs| && Contains(rs[res.value], c)
    ensures res.Err? ==> res.error <= |rs|
    ensures Sorted(rs) ==> (res.Ok? <==> Covers(rs, c))
    ensures Sorted(rs) && res.Err? ==>
      && (forall i :: 0 <= i < res.error ==> rs[i].high < c)
      && (forall i :: res.error <= i < |rs| ==> c < rs[i].low)
  {
    var res := SearchIn(rs, c, 0, |rs|);
    assert Sorted(rs) && res.Err? ==> forall i :: 0 <= i < |rs| ==> !Contains(rs[i], c) by {
      if Sorted(rs) && res.Err? {
        forall i | 0 <= i < |rs| ensures !Contains(rs[i], c) {
          if i < res.error { assert rs[i].high < c; } else { assert c < rs[i].low; }
        }
      }
    }
    res
  }

  /** In a sorted list at most one range contains a given character, so the
      index `search` finds is the only one. */
  lemma SearchUnique(rs: seq<CharRange>, c: Char, i: nat)
    requires Sorted(rs) && i < |rs| && Contains(rs[i], c)
    ensures Search(rs, c) == Ok(i)
  {
    var k := Search(rs, c).value;
    assert Contains(rs[k], c);
  }

  // ---------------------------------------------------------------------
  // Contents: lengths and the flattened characters
  // ---------------------------------------------------------------------

  /** The sum of the ranges' lengths (`len` of a set or map). */
  function SumLen(rs: seq<CharRange>): nat {
    if rs == [] then 0 else Len(rs[0]) + SumLen(rs[1..])
  }

  /** Every character of every range, range by range (`chars()`). */
  function Chars(rs: seq<CharRange>): seq<Char> {
    if rs == [] then [] else ScalarsIn(rs[0].low, rs[0].high) + Chars(rs[1..])
  }

  /** `len` counts exactly the characters `chars()` yields. */
  lemma {:induction false} SumLenIsCharsLength(rs: seq<CharRange>)
    ensures SumLen(rs) == |Chars(rs)|
  {
    if rs != [] {
      SumLenIsCharsLength(rs[1..]);
    }
  }

  /** `chars()` yields exactly the covered characters. */
  lemma {:induction false} CharsMembers(rs: seq<CharRange>)
    ensures forall x: Char :: x in Chars(rs) <==> Covers(rs, x)
  {
    if rs != [] {
      CharsMembers(rs[1..]);
      ScalarsInMembers(rs[0].low, rs[0].high);
      forall x: Char ensures x in Chars(rs) <==> Covers(rs, x) {
        if Covers(rs, x) {
          var i :| 0 <= i < |rs| && Contains(rs[i], x);
          if i > 0 {
            assert Contains(rs[1..][i - 1], x);
          }
        }
        if x in Chars(rs[1..]) {
          var i :| 0 <= i < |rs[1..]| && Contains(rs[1..][i], x);
          assert Contains(rs[i + 1], x);
        }
      }
    }
  }

  /** Over a sorted list `chars()` is strictly ascending, so no character is
      yielded twice. */
  lemma {:induction false} CharsAscending(rs: seq<CharRange>)
    requires Sorted(rs)
    ensures StrictlyAscending(Chars(rs))
  {
    if rs != [] {
      var head := ScalarsIn(rs[0].low, rs[0].high);
      var tail := Chars(rs[1..]);
      CharsAscending(rs[1..]);
      ScalarsInAscending(rs[0].low, rs[0].high);
      ScalarsInMembers(rs[0].low, rs[0].high);
      CharsMembers(rs[1..]);
      forall i, j | 0 <= i < |head| && 0 <= j < |tail| ensures head[i] < tail[j] {
        assert head[i] in head;
        assert tail[j] in tail;
        var k :| 0 <= k < |rs[1..]| && Contains(rs[1..][k], tail[j]);
        assert rs[0].high < rs[k + 1].low;
      }
      AscendingConcat(head, tail);
    }
  }

  lemma AscendingConcat(a: seq<int>, b: seq<int>)
    requires StrictlyAscending(a) && StrictlyAscending(b)
    requires forall i, j :: 0 <= i < |a| && 0 <= j < |b| ==> a[i] < b[j]
    ensures StrictlyAscending(a + b)
  {
    forall i, j | 0 <= i < j < |a + b| ensures (a + b)[i] < (a + b)[j] {
      if j < |a| {
      } else if i >= |a| {
        assert (a + b)[i] == b[i - |a|] && (a + b)[j] == b[j - |a|];
      } else {
        assert (a + b)[j] == b[j - |a|];
      }
    }
  }

  /** `chars()` distributes over splitting the list of ranges. */
  lemma {:induction false} CharsAppend(a: seq<CharRange>, b: seq<CharRange>)
    ensures Chars(a + b) == Chars(a) + Chars(b)
  {
    if a != [] {
      assert (a + b)[1..] == a[1..] + b;
      CharsAppend(a[1..], b);
    } else {
      assert a + b == b;
    }
  }

  /** `len` distributes over splitting the list of ranges. */
  lemma SumLenAppend(a: seq<CharRange>, b: seq<CharRange>)
    ensures SumLen(a + b) == SumLen(a) + SumLen(b)
  {
    SumLenIsCharsLength(a + b);
    SumLenIsCharsLength(a);
    SumLenIsCharsLength(b);
    CharsAppend(a, b);
  }
}
