/** What the in-place edits of `CharSet` (src/set/mod.rs) and `CharSetBuf`
    (src/set/owned.rs) do to the list of ranges, as functions on sequences.

    The classes in set.dfy and set_owned.dfy perform the edits step by step
    and are proved to end in the states these functions describe. The
    lemmas here say what those states mean: the set invariant is kept and
    the covered characters change exactly as the operation promises. Where
    the code as written falls short, the as-written function is kept beside
    the corrected one, with the input that shows the difference. */
module SetSpec {
  import opened Wrappers
  import opened CharRanges
  import opened RangeLists

  /** Replaces the block `rs[lo..hi]` with the single range `m`. */
  function Splice(rs: seq<CharRange>, lo: nat, hi: nat, m: CharRange): (res: seq<CharRange>)
    requires lo <= hi <= |rs|
    ensures |res| == |rs| - (hi - lo) + 1
    ensures res[..lo] == rs[..lo] && res[lo] == m && res[lo + 1..] == rs[hi..]
  {
    rs[..lo] + [m] + rs[hi..]
  }

  /** Draining `rs[lo + 1..hi]` and overwriting `rs[lo]` with `m` is the
      splice of `m` over `rs[lo..hi]`. */
  lemma DrainAndSet(rs: seq<CharRange>, lo: nat, hi: nat, m: CharRange)
    requires lo < hi <= |rs|
    ensures (rs[..lo + 1] + rs[hi..])[lo := m] == Splice(rs, lo, hi, m)
  {
    assert (rs[..lo + 1] + rs[hi..])[lo := m] == rs[..lo] + [m] + rs[hi..];
  }

  // ---------------------------------------------------------------------
  // insert_range (src/set/owned.rs:103-144, src/set/mod.rs:178-215)
  // ---------------------------------------------------------------------

  /** The first half of `insert_range`: the lowest replaced index and the
      low end of the merged range, stepping left once when the range below
      touches. */
  function InsertLow(rs: seq<CharRange>, r: CharRange): (res: (nat, Char))
    requires Valid(rs)
    ensures res.0 <= |rs|
  {
    var (idx, ch) := match Search(rs, r.low)
      case Ok(i) => (i, rs[i].low)
      case Err(i) => (i, r.low);
    if idx > 0 && ch - rs[idx - 1].high <= 1 then (idx - 1, rs[idx - 1].low) else (idx, ch)
  }

  /** The second half: the exclusive highest replaced index and the high end
      of the merged range, stepping right once when the range above touches. */
  function InsertHigh(rs: seq<CharRange>, r: CharRange): (res: (nat, Char))
    requires Valid(rs)
    ensures res.0 <= |rs|
  {
    var (idx, ch) := match Search(rs, r.high)
      case Ok(i) => (i + 1, rs[i].high)
      case Err(i) => (i, r.high);
    if idx < |rs| && rs[idx].low - ch <= 1 then (idx + 1, rs[idx].high) else (idx, ch)
  }

  /** The low index counts the ranges that end before `r.low` without
      touching it; the merged range starts at the first other range when
      that one reaches down to `r.low`. */
  lemma InsertLowFacts(rs: seq<CharRange>, r: CharRange)
    requires Valid(rs)
    ensures var lo, lc := InsertLow(rs, r).0, InsertLow(rs, r).1;
      && (forall j :: 0 <= j < lo ==> rs[j].high + 1 < r.low)
      && (forall j :: lo <= j < |rs| ==> r.low <= rs[j].high + 1)
      && lc == (if lo < |rs| && rs[lo].low <= r.low then rs[lo].low else r.low)
  {
  }

  /** The high index counts the ranges that start no later than just after
      `r.high`; the merged range ends at the last of them when that one
      reaches up to `r.high`. */
  lemma InsertHighFacts(rs: seq<CharRange>, r: CharRange)
    requires Valid(rs)
    ensures var hi, hc := InsertHigh(rs, r).0, InsertHigh(rs, r).1;
      && (forall j :: 0 <= j < hi ==> rs[j].low <= r.high + 1)
      && (forall j :: hi <= j < |rs| ==> r.high + 1 < rs[j].low)
      && hc == (if 0 < hi && r.high <= rs[hi - 1].high then rs[hi - 1].high else r.high)
  {
  }

  /** For a non-empty range the two halves never cross. */
  lemma InsertIndicesOrdered(rs: seq<CharRange>, r: CharRange)
    requires Valid(rs) && !IsEmpty(r)
    ensures InsertLow(rs, r).0 <= InsertHigh(rs, r).0
  {
    InsertLowFacts(rs, r);
    InsertHighFacts(rs, r);
    var lo, hi := InsertLow(rs, r).0, InsertHigh(rs, r).0;
    if hi < |rs| {
      var x := rs[hi];
      assert r.low <= x.high + 1 || x.low <= r.high + 1;
    }
  }

  /** `CharSetBuf::insert_range`: an empty range changes nothing; otherwise
      the block of ranges that overlap or touch `r` becomes one range. */
  function InsertRangeSpec(rs: seq<CharRange>, r: CharRange): seq<CharRange>
    requires Valid(rs)
  {
    if IsEmpty(r) then rs
    else
      InsertIndicesOrdered(rs, r);
      Splice(rs, InsertLow(rs, r).0, InsertHigh(rs, r).0, CharRange(InsertLow(rs, r).1, InsertHigh(rs, r).1))
  }

  /** A splice keeps the invariant when the new range is non-empty and clear
      of the ranges kept on either side. */
  lemma SpliceValid(rs: seq<CharRange>, lo: nat, hi: nat, m: CharRange)
    requires Valid(rs) && lo <= hi <= |rs| && !IsEmpty(m)
    requires forall j :: 0 <= j < lo ==> rs[j].high + 1 < m.low
    requires forall j :: hi <= j < |rs| ==> m.high + 1 < rs[j].low
    ensures Valid(Splice(rs, lo, hi, m))
  {
    var res := Splice(rs, lo, hi, m);
    forall i, j | 0 <= i < j < |res| ensures res[i].high + 1 < res[j].low {
      if j < lo {
        assert res[i] == rs[i] && res[j] == rs[j];
      } else if i > lo {
        assert res[i] == rs[i - lo - 1 + hi] && res[j] == rs[j - lo - 1 + hi];
      } else if i < lo && j > lo {
        assert res[i] == rs[i] && res[j] == rs[j - lo - 1 + hi];
      } else if i == lo {
        assert res[j] == rs[j - lo - 1 + hi];
      } else {
        assert res[i] == rs[i];
      }
    }
  }

  /** A splice covers what the kept ranges and the new range cover. */
  lemma SpliceCovers(rs: seq<CharRange>, lo: nat, hi: nat, m: CharRange, x: Char)
    requires lo <= hi <= |rs|
    ensures Covers(Splice(rs, lo, hi, m), x) <==>
      Contains(m, x) || exists j :: (0 <= j < lo || hi <= j < |rs|) && Contains(rs[j], x)
  {
    var res := Splice(rs, lo, hi, m);
    if Covers(res, x) {
      var i :| 0 <= i < |res| && Contains(res[i], x);
      if i < lo {
        assert res[i] == rs[i];
      } else if i > lo {
        assert res[i] == rs[i - lo - 1 + hi];
      }
    }
    if j :| (0 <= j < lo || hi <= j < |rs|) && Contains(rs[j], x) {
      if j < lo {
        assert res[j] == rs[j];
      } else {
        assert res[j - hi + lo + 1] == rs[j];
      }
    }
    if Contains(m, x) {
      assert res[lo] == m;
    }
  }

  /** `insert_range` keeps the set invariant. */
  lemma InsertRangeValid(rs: seq<CharRange>, r: CharRange)
    requires Valid(rs)
    ensures Valid(InsertRangeSpec(rs, r))
  {
    if !IsEmpty(r) {
      InsertIndicesOrdered(rs, r);
      InsertLowFacts(rs, r);
      InsertHighFacts(rs, r);
      var (lo, lc) := InsertLow(rs, r);
      var (hi, hc) := InsertHigh(rs, r);
      SpliceValid(rs, lo, hi, CharRange(lc, hc));
    }
  }

  /** `insert_range` adds exactly the characters of `r`. */
  lemma InsertRangeMembers(rs: seq<CharRange>, r: CharRange)
    requires Valid(rs)
    ensures forall x: Char :: Covers(InsertRangeSpec(rs, r), x) <==> Covers(rs, x) || Contains(r, x)
  {
    if !IsEmpty(r) {
      var lo, hi, m := InsertSplice(rs, r);
      forall x: Char ensures Covers(Splice(rs, lo, hi, m), x) <==> Covers(rs, x) || Contains(r, x) {
        SpliceMember(rs, lo, hi, m, r, x);
      }
    }
  }

  /** `insert_range` of a non-empty range is a splice of the merged range
      `m` over the block `rs[lo..hi]`. */
  lemma InsertSplice(rs: seq<CharRange>, r: CharRange) returns (lo: nat, hi: nat, m: CharRange)
    requires Valid(rs) && !IsEmpty(r)
    ensures lo <= hi <= |rs| && InsertRangeSpec(rs, r) == Splice(rs, lo, hi, m)
    ensures m.low <= r.low <= r.high <= m.high
    ensures forall j :: lo <= j < hi ==> m.low <= rs[j].low && rs[j].high <= m.high
    ensures m.low < r.low ==> lo < hi && rs[lo].low == m.low && r.low <= rs[lo].high + 1
    ensures r.high < m.high ==> lo < hi && rs[hi - 1].high == m.high && rs[hi - 1].low <= r.high + 1
  {
    InsertMerge(rs, r);
    var lc, hc;
    lo, lc := InsertLow(rs, r).0, InsertLow(rs, r).1;
    hi, hc := InsertHigh(rs, r).0, InsertHigh(rs, r).1;
    m := CharRange(lc, hc);
  }

  /** The merged range spans `r` and the replaced block, and reaches beyond
      `r` only as far as the outermost replaced ranges do. */
  lemma InsertMerge(rs: seq<CharRange>, r: CharRange)
    requires Valid(rs) && !IsEmpty(r)
    ensures var lo, lc := InsertLow(rs, r).0, InsertLow(rs, r).1;
      var hi, hc := InsertHigh(rs, r).0, InsertHigh(rs, r).1;
      && lo <= hi <= |rs| && lc <= r.low <= r.high <= hc
      && (forall j :: lo <= j < hi ==> lc <= rs[j].low && rs[j].high <= hc)
      && (lc < r.low ==> lo < hi && rs[lo].low == lc && r.low <= rs[lo].high + 1)
      && (r.high < hc ==> lo < hi && rs[hi - 1].high == hc && rs[hi - 1].low <= r.high + 1)
  {
    InsertIndicesOrdered(rs, r);
    InsertLowFacts(rs, r);
    InsertHighFacts(rs, r);
    var lo, lc := InsertLow(rs, r).0, InsertLow(rs, r).1;
    var hi, hc := InsertHigh(rs, r).0, InsertHigh(rs, r).1;
    MergedSpansBlock(rs, r, lo, hi, lc, hc);
  }

  /** The block's ranges lie between its first range's low end and its
      last range's high end, and so within the merged range. */
  lemma MergedSpansBlock(rs: seq<CharRange>, r: CharRange, lo: nat, hi: nat, lc: Char, hc: Char)
    requires Valid(rs) && lo <= hi <= |rs|
    requires lc == (if lo < |rs| && rs[lo].low <= r.low then rs[lo].low else r.low)
    requires hc == (if 0 < hi && r.high <= rs[hi - 1].high then rs[hi - 1].high else r.high)
    ensures forall j :: lo <= j < hi ==> lc <= rs[j].low && rs[j].high <= hc
  {
    forall j | lo <= j < hi ensures lc <= rs[j].low && rs[j].high <= hc {
      if lo < j {
        assert rs[lo].high + 1 < rs[j].low;
      }
      if j < hi - 1 {
        assert rs[j].high + 1 < rs[hi - 1].low;
      }
    }
  }

  /** The merged range `m` covers the replaced block and `r`, and reaches
      beyond `r` only through the outermost replaced ranges. */
  lemma SpliceMember(rs: seq<CharRange>, lo: nat, hi: nat, m: CharRange, r: CharRange, x: Char)
    requires lo <= hi <= |rs| && m.low <= r.low <= r.high <= m.high
    requires forall j :: lo <= j < hi ==> m.low <= rs[j].low && rs[j].high <= m.high
    requires m.low < r.low ==> lo < hi && rs[lo].low == m.low && r.low <= rs[lo].high + 1
    requires r.high < m.high ==> lo < hi && rs[hi - 1].high == m.high && rs[hi - 1].low <= r.high + 1
    ensures Covers(Splice(rs, lo, hi, m), x) <==> Covers(rs, x) || Contains(r, x)
  {
    var res := Splice(rs, lo, hi, m);
    if Covers(res, x) {
      var i :| 0 <= i < |res| && Contains(res[i], x);
      if i < lo {
        assert res[i] == rs[i];
      } else if i > lo {
        assert res[i] == rs[i - lo - 1 + hi];
      } else if x < r.low {
        assert Contains(rs[lo], x);
      } else if x > r.high {
        assert Contains(rs[hi - 1], x);
      }
    }
    if Contains(r, x) {
      assert Contains(res[lo], x);
    }
    if Covers(rs, x) {
      var j :| 0 <= j < |rs| && Contains(rs[j], x);
      if j < lo {
        assert res[j] == rs[j];
      } else if hi <= j {
        assert res[j - hi + lo + 1] == rs[j];
      } else {
        assert Contains(res[lo], x);
      }
    }
  }

  /** Only the contiguous block of ranges that overlap or touch `r` is
      replaced; every other range keeps its place, below or above the new one. */
  lemma InsertRangeBlock(rs: seq<CharRange>, r: CharRange)
    requires Valid(rs) && !IsEmpty(r)
    ensures var (lo, hi) := (InsertLow(rs, r).0, InsertHigh(rs, r).0);
      && lo <= hi
      && (forall j :: lo <= j < hi <==> 0 <= j < |rs| && r.low <= rs[j].high + 1 && rs[j].low <= r.high + 1)
      && InsertRangeSpec(rs, r)[..lo] == rs[..lo]
      && InsertRangeSpec(rs, r)[lo + 1..] == rs[hi..]
  {
    InsertIndicesOrdered(rs, r);
    InsertLowFacts(rs, r);
    InsertHighFacts(rs, r);
  }

  /** Rows of the insert_range test tables of src/set/mod.rs and
      src/set/owned.rs, with characters as code points ('a' is 97). */
  lemma InsertRangeTableMerge()
    ensures InsertRangeSpec([CharRange(97, 99), CharRange(101, 103)], CharRange(100, 100)) == [CharRange(97, 103)]
  {
    assert Search([CharRange(97, 99), CharRange(101, 103)], 100) == Err(1);
  }

  lemma InsertRangeTableSeparate()
    ensures InsertRangeSpec([CharRange(97, 98), CharRange(104, 106)], CharRange(100, 102))
      == [CharRange(97, 98), CharRange(100, 102), CharRange(104, 106)]
  {
    assert Search([CharRange(97, 98), CharRange(104, 106)], 100) == Err(1);
    assert Search([CharRange(97, 98), CharRange(104, 106)], 102) == Err(1);
  }

  lemma InsertRangeTableEmpty()
    ensures InsertRangeSpec([CharRange(97, 99)], CharRange(122, 97)) == [CharRange(97, 99)]
  {
  }

  /** `CharSet::insert_range` as written (src/set/mod.rs:178-215): the same
      steps without the emptiness check. `None` is the panic of `drain` when
      its start passes its end. */
  function InsertRangeUnchecked(rs: seq<CharRange>, r: CharRange): Option<seq<CharRange>>
    requires Valid(rs)
  {
    var (lo, lc) := InsertLow(rs, r);
    var (hi, hc) := InsertHigh(rs, r);
    if lo > hi then None else Some(Splice(rs, lo, hi, CharRange(lc, hc)))
  }

  /** For a non-empty range the unchecked version does what the checked one does. */
  lemma InsertRangeUncheckedNonEmpty(rs: seq<CharRange>, r: CharRange)
    requires Valid(rs) && !IsEmpty(r)
    ensures InsertRangeUnchecked(rs, r) == Some(InsertRangeSpec(rs, r))
  {
    InsertIndicesOrdered(rs, r);
  }

  /** Inserting the empty range 'e'..='a' into {a..=c} stores an empty range,
      which breaks the set invariant. */
  lemma InsertRangeUncheckedStoresEmpty()
    ensures InsertRangeUnchecked([CharRange(97, 99)], CharRange(101, 97)) == Some([CharRange(97, 99), CharRange(101, 99)])
    ensures !Valid(InsertRangeUnchecked([CharRange(97, 99)], CharRange(101, 97)).value)
  {
    assert Search([CharRange(97, 99)], 101) == Err(1);
    assert Search([CharRange(97, 99)], 97) == Ok(0);
    assert InsertLow([CharRange(97, 99)], CharRange(101, 97)) == (1, 101);
    assert InsertHigh([CharRange(97, 99)], CharRange(101, 97)) == (1, 99);
    assert Splice([CharRange(97, 99)], 1, 1, CharRange(101, 99)) == [CharRange(97, 99), CharRange(101, 99)];
  }

  /** Inserting the empty range 'n'..='a' into {a, c} makes `drain` panic. */
  lemma InsertRangeUncheckedPanics()
    ensures InsertRangeUnchecked([CharRange(97, 97), CharRange(99, 99)], CharRange(110, 97)) == None
  {
    assert Search([CharRange(97, 97), CharRange(99, 99)], 110) == Err(2);
    assert Search([CharRange(97, 97), CharRange(99, 99)], 97) == Ok(0);
  }

  // ---------------------------------------------------------------------
  // insert of one character (src/set/mod.rs:82-107 and 172-176,
  // src/set/owned.rs:76-101)
  // ---------------------------------------------------------------------

  /** `insert_at(idx, c)` as written, under its documented assumptions: the
      range below `idx` ends before `c` and the range at `idx` starts after it.
      `high` is read from the range at `idx` and, when `c` touches the range
      below, written into that range. */
  function InsertAt(rs: seq<CharRange>, idx: nat, c: Char): seq<CharRange>
    requires idx <= |rs|
    requires idx < |rs| ==> c < rs[idx].low
    requires 0 < idx ==> rs[idx - 1].high < c
  {
    if idx == |rs| then rs + [Singleton(c)]
    else
      var high := rs[idx].high;
      var grown :=
        if rs[idx].low - c == 1 then rs[idx := CharRange(c, high)]
        else rs[..idx] + [Singleton(c)] + rs[idx..];
      if 0 < idx && c - rs[idx - 1].high <= 1 then
        grown[..idx - 1] + [CharRange(rs[idx - 1].low, high)] + grown[idx + 1..]
      else grown
  }

  /** `insert(c)` as written: nothing when `c` is already covered, otherwise
      `insert_at` at the index the search reports. */
  function InsertAsWritten(rs: seq<CharRange>, c: Char): (res: seq<CharRange>)
    requires Valid(rs)
    ensures Covers(rs, c) ==> res == rs
  {
    match Search(rs, c)
    case Ok(_) => rs
    case Err(idx) => InsertAt(rs, idx, c)
  }

  /** The two shapes the code gets wrong: `c` touches the range below it but
      not a range above it, either because there is none (the push at the end)
      or because the range above starts further up. */
  predicate InsertMisses(rs: seq<CharRange>, c: Char)
    requires Valid(rs)
  {
    match Search(rs, c)
    case Ok(_) => false
    case Err(idx) => 0 < idx && rs[idx - 1].high + 1 == c && (idx == |rs| || c + 1 < rs[idx].low)
  }

  /** Everywhere else the code as written agrees with inserting the singleton
      range: it extends the range above down to `c` when that range starts at
      `c + 1`, and fuses both neighbours when `c` also touches the one below. */
  lemma InsertAsWrittenWorks(rs: seq<CharRange>, c: Char)
    requires Valid(rs) && !InsertMisses(rs, c)
    ensures InsertAsWritten(rs, c) == InsertRangeSpec(rs, Singleton(c))
  {
    if Search(rs, c).Ok? {
      InsertAsWrittenCovered(rs, c);
    } else {
      InsertAsWrittenGap(rs, c);
    }
  }

  /** What `insert` as written achieves away from the shapes it gets wrong:
      the set stays valid, equals the corrected result, and gains exactly `c`. */
  lemma InsertAsWrittenMeaning(rs: seq<CharRange>, c: Char)
    requires Valid(rs)
    ensures !InsertMisses(rs, c) ==>
      && Valid(InsertAsWritten(rs, c))
      && InsertAsWritten(rs, c) == InsertRangeSpec(rs, Singleton(c))
      && forall x: Char :: Covers(InsertAsWritten(rs, c), x) <==> Covers(rs, x) || x == c
  {
    if !InsertMisses(rs, c) {
      InsertAsWrittenWorks(rs, c);
      InsertRangeValid(rs, Singleton(c));
      InsertRangeMembers(rs, Singleton(c));
    }
  }

  /** The case of `InsertAsWrittenWorks` where `c` is not yet covered. */
  lemma InsertAsWrittenGap(rs: seq<CharRange>, c: Char)
    requires Valid(rs) && !InsertMisses(rs, c) && Search(rs, c).Err?
    ensures InsertAsWritten(rs, c) == InsertRangeSpec(rs, Singleton(c))
  {
    var idx := Search(rs, c).error;
    if idx == |rs| {
      InsertGapAtEnd(rs, c, idx);
    } else if rs[idx].low - c == 1 {
      InsertGapBelowNext(rs, c, idx);
    } else {
      InsertGapApart(rs, c, idx);
    }
  }

  /** `c` after every range, not touching the last. */
  lemma InsertGapAtEnd(rs: seq<CharRange>, c: Char, idx: nat)
    requires Valid(rs) && !InsertMisses(rs, c) && Search(rs, c) == Err(idx) && idx == |rs|
    ensures InsertAsWritten(rs, c) == InsertRangeSpec(rs, Singleton(c))
  {
    var r := Singleton(c);
    assert InsertLow(rs, r).0 == idx && InsertHigh(rs, r).0 == idx;
    assert InsertRangeSpec(rs, r) == rs + [Singleton(c)];
  }

  /** `c` just below the range at `idx`, fused with it and, when it touches,
      with the range below. */
  lemma InsertGapBelowNext(rs: seq<CharRange>, c: Char, idx: nat)
    requires Valid(rs) && !InsertMisses(rs, c) && Search(rs, c) == Err(idx)
    requires idx < |rs| && rs[idx].low - c == 1
    ensures InsertAsWritten(rs, c) == InsertRangeSpec(rs, Singleton(c))
  {
    var r := Singleton(c);
    assert InsertHigh(rs, r).0 == idx + 1;
    if 0 < idx && c - rs[idx - 1].high <= 1 {
      assert InsertLow(rs, r).0 == idx - 1;
      assert InsertRangeSpec(rs, r) == rs[..idx - 1] + [CharRange(rs[idx - 1].low, rs[idx].high)] + rs[idx + 1..];
    } else {
      assert InsertLow(rs, r).0 == idx;
      assert InsertRangeSpec(rs, r) == rs[idx := CharRange(c, rs[idx].high)];
    }
  }

  /** `c` touching neither neighbour: a new range at `idx`. */
  lemma InsertGapApart(rs: seq<CharRange>, c: Char, idx: nat)
    requires Valid(rs) && !InsertMisses(rs, c) && Search(rs, c) == Err(idx)
    requires idx < |rs| && rs[idx].low - c != 1
    ensures InsertAsWritten(rs, c) == InsertRangeSpec(rs, Singleton(c))
  {
    var r := Singleton(c);
    assert InsertHigh(rs, r).0 == idx;
    assert InsertLow(rs, r).0 == idx;
    assert InsertRangeSpec(rs, r) == rs[..idx] + [Singleton(c)] + rs[idx..];
  }

  /** Inserting a covered character changes nothing, in the spec too. */
  lemma InsertAsWrittenCovered(rs: seq<CharRange>, c: Char)
    requires Valid(rs) && Search(rs, c).Ok?
    ensures InsertRangeSpec(rs, Singleton(c)) == rs
  {
    var idx := Search(rs, c).value;
    var r := Singleton(c);
    InsertLowFacts(rs, r);
    InsertHighFacts(rs, r);
    var lo, lc := InsertLow(rs, r).0, InsertLow(rs, r).1;
    var hi, hc := InsertHigh(rs, r).0, InsertHigh(rs, r).1;
    assert lo == idx && lc == rs[idx].low;
    assert hi == idx + 1 && hc == rs[idx].high;
    SpliceSame(rs, idx);
  }

  /** Splicing a range over itself changes nothing. */
  lemma SpliceSame(rs: seq<CharRange>, i: nat)
    requires i < |rs|
    ensures Splice(rs, i, i + 1, rs[i]) == rs
  {
    assert rs[..i] + [rs[i]] + rs[i + 1..] == rs;
  }

  /** The push at the end: inserting 'c' into {a..=b} leaves two touching
      ranges where one range a..=c belongs, which breaks the set invariant. */
  lemma InsertAtEndMisses()
    ensures InsertAsWritten([CharRange(97, 98)], 99) == [CharRange(97, 98), CharRange(99, 99)]
    ensures !Valid(InsertAsWritten([CharRange(97, 98)], 99))
    ensures InsertRangeSpec([CharRange(97, 98)], Singleton(99)) == [CharRange(97, 99)]
  {
    var s0 := [CharRange(97, 98)];
    assert Search(s0, 99) == Err(1);
    var res := InsertAsWritten(s0, 99);
    assert res[0].high + 1 == res[1].low;
    assert InsertLow(s0, Singleton(99)) == (0, 97);
    assert InsertHigh(s0, Singleton(99)) == (1, 99);
  }

  /** Touching only the range below: inserting 'b' into {a, e} copies the
      high end of the range above into the range below, so 'c' and 'd' join
      the set and two ranges overlap. */
  lemma InsertLowerOnlyMisses()
    ensures InsertAsWritten([CharRange(97, 97), CharRange(101, 101)], 98) == [CharRange(97, 101), CharRange(101, 101)]
    ensures Covers(InsertAsWritten([CharRange(97, 97), CharRange(101, 101)], 98), 99)
    ensures !Valid(InsertAsWritten([CharRange(97, 97), CharRange(101, 101)], 98))
    ensures InsertRangeSpec([CharRange(97, 97), CharRange(101, 101)], Singleton(98)) == [CharRange(97, 98), CharRange(101, 101)]
  {
    var rs := [CharRange(97, 97), CharRange(101, 101)];
    assert Search(rs, 98) == Err(1);
    var res := InsertAsWritten(rs, 98);
    assert res == [CharRange(97, 101), CharRange(101, 101)];
    assert Contains(res[0], 99);
    assert res[0].high + 1 > res[1].low;
  }

  // ---------------------------------------------------------------------
  // remove of one character (src/set/owned.rs:156-174,
  // src/set/mod.rs:116-133 and 217-221)
  // ---------------------------------------------------------------------

  /** Replaces the block `rs[lo..hi]` with the ranges `pieces`. */
  function ReplaceBlock(rs: seq<CharRange>, lo: nat, hi: nat, pieces: seq<CharRange>): (res: seq<CharRange>)
    requires lo <= hi <= |rs|
    ensures |res| == |rs| - (hi - lo) + |pieces|
  {
    rs[..lo] + pieces + rs[hi..]
  }

  /** Replacing an empty block with nothing changes nothing. */
  lemma ReplaceNothing(rs: seq<CharRange>, i: nat)
    requires i <= |rs|
    ensures ReplaceBlock(rs, i, i, []) == rs
  {
    assert rs[..i] + rs[i..] == rs;
  }

  /** The new pieces sit at `lo` onwards. */
  lemma ReplaceBlockPieces(rs: seq<CharRange>, lo: nat, hi: nat, pieces: seq<CharRange>)
    requires lo <= hi <= |rs|
    ensures forall k :: 0 <= k < |pieces| ==> ReplaceBlock(rs, lo, hi, pieces)[lo + k] == pieces[k]
  {
  }

  /** Replaces `rs[idx]` with the ranges `pieces`. */
  function ReplaceOne(rs: seq<CharRange>, idx: nat, pieces: seq<CharRange>): (res: seq<CharRange>)
    requires idx < |rs|
  {
    ReplaceBlock(rs, idx, idx + 1, pieces)
  }

  /** The `Vec` edits at one index, as replacements of `rs[idx]`: `remove`,
      an element write, and a write followed by an `insert` before it. */
  lemma ReplaceOneShapes(rs: seq<CharRange>, idx: nat, a: CharRange, b: CharRange)
    requires idx < |rs|
    ensures rs[..idx] + rs[idx + 1..] == ReplaceOne(rs, idx, [])
    ensures rs[idx := a] == ReplaceOne(rs, idx, [a])
    ensures rs[idx := a][..idx] + [b] + rs[idx := a][idx..] == ReplaceOne(rs, idx, [b, a])
    ensures rs[idx := a][..idx + 1] + [b] + rs[idx := a][idx + 1..] == ReplaceOne(rs, idx, [a, b])
  {
    assert rs[idx := a][idx..] == [a] + rs[idx + 1..];
  }

  /** Overwriting both ends of the block `rs[lo..hi]` and draining what lies
      between them replaces the block with the two new ends. */
  lemma TrimAndDrain(rs: seq<CharRange>, lo: nat, hi: nat, a: CharRange, b: CharRange)
    requires lo + 1 < hi <= |rs|
    ensures rs[lo := a][hi - 1 := b][..lo + 1] + rs[lo := a][hi - 1 := b][hi - 1..] == ReplaceBlock(rs, lo, hi, [a, b])
  {
    var t := rs[lo := a][hi - 1 := b];
    assert t[..lo + 1] == rs[..lo] + [a];
    assert t[hi - 1..] == [b] + rs[hi..];
  }

  /** The part of `x` above `c`: `CharRange::from((Excluded(c), Included(x.high)))`. */
  function Above(x: CharRange, c: Char): (r: CharRange)
    ensures forall y: Char :: Contains(r, y) <==> c < y <= x.high
    ensures IsEmpty(r) <==> x.high <= c
    ensures c < x.high ==> r == CharRange(Succ(c), x.high)
  {
    FromBounds(Excluded(c), Included(x.high))
  }

  /** The part of `x` below `c`: `CharRange::from((Included(x.low), Excluded(c)))`. */
  function Below(x: CharRange, c: Char): (r: CharRange)
    ensures forall y: Char :: Contains(r, y) <==> x.low <= y < c
    ensures IsEmpty(r) <==> c <= x.low
    ensures x.low < c ==> r == CharRange(x.low, Pred(c))
  {
    FromBounds(Included(x.low), Excluded(c))
  }

  /** What is left of the range `x` holding `c` once `c` is taken out: nothing
      for a one-character range, the part above when `c` is its low end, the
      part below when `c` is its high end, and both parts otherwise. */
  function RemovePieces(x: CharRange, c: Char): seq<CharRange>
    requires Contains(x, c)
  {
    if Len(x) == 1 then []
    else if x.low == c then [Above(x, c)]
    else if x.high == c then [Below(x, c)]
    else [Below(x, c), Above(x, c)]
  }

  /** The pieces are valid, lie inside `x` and hold every character of `x`
      but `c`. */
  lemma RemovePiecesFacts(x: CharRange, c: Char)
    requires Contains(x, c)
    ensures Valid(RemovePieces(x, c))
    ensures forall p :: p in RemovePieces(x, c) ==> x.low <= p.low && p.high <= x.high
    ensures forall y: Char :: Covers(RemovePieces(x, c), y) <==> Contains(x, y) && y != c
  {
    var ps := RemovePieces(x, c);
    if Len(x) == 1 {
      assert x.low == x.high;
    } else {
      assert x.low < x.high;
      forall y: Char ensures Covers(ps, y) <==> Contains(x, y) && y != c {
        if Contains(x, y) && y != c {
          if y < c { assert Contains(Below(x, c), y); } else { assert Contains(Above(x, c), y); }
          if x.low == c { assert Contains(ps[0], y); }
          else if x.high == c { assert Contains(ps[0], y); }
          else if y < c { assert Contains(ps[0], y); }
          else { assert Contains(ps[1], y); }
        }
      }
    }
  }

  /** Replacing a block by valid pieces that stay clear of the kept ranges
      keeps the set invariant. */
  lemma ReplaceBlockValid(rs: seq<CharRange>, lo: nat, hi: nat, pieces: seq<CharRange>, a: int, b: int)
    requires Valid(rs) && lo <= hi <= |rs| && Valid(pieces)
    requires forall p :: p in pieces ==> a <= p.low && p.high <= b
    requires 0 < lo ==> rs[lo - 1].high + 1 < a
    requires hi < |rs| ==> b + 1 < rs[hi].low
    requires 0 < lo && hi < |rs| ==> rs[lo - 1].high + 1 < rs[hi].low
    ensures Valid(ReplaceBlock(rs, lo, hi, pieces))
  {
    var res := ReplaceBlock(rs, lo, hi, pieces);
    var n := |pieces|;
    forall i | 0 <= i < |res| ensures !IsEmpty(res[i]) {
      ReplaceBlockAt(rs, lo, hi, pieces, i);
      if lo <= i < lo + n {
        assert res[i] in pieces;
      }
    }
    forall i, j | 0 <= i < j < |res| ensures res[i].high + 1 < res[j].low {
      ReplaceBlockAt(rs, lo, hi, pieces, i);
      ReplaceBlockAt(rs, lo, hi, pieces, j);
      if i < lo && lo <= j {
        assert rs[i].high <= rs[lo - 1].high;
      }
      if lo <= i < lo + n {
        assert res[i] in pieces;
      }
      if lo <= j < lo + n {
        assert res[j] in pieces;
      }
      if j >= lo + n && i < lo + n {
        assert rs[hi].low <= rs[j - lo - n + hi].low;
      }
    }
  }

  lemma ReplaceBlockAt(rs: seq<CharRange>, lo: nat, hi: nat, pieces: seq<CharRange>, i: nat)
    requires lo <= hi <= |rs| && i < |rs| - (hi - lo) + |pieces|
    ensures ReplaceBlock(rs, lo, hi, pieces)[i] ==
      if i < lo then rs[i] else if i < lo + |pieces| then pieces[i - lo] else rs[i - lo - |pieces| + hi]
  {
  }

  /** A character is covered after the replacement when a kept range or a
      piece covers it. */
  lemma ReplaceBlockCovers(rs: seq<CharRange>, lo: nat, hi: nat, pieces: seq<CharRange>, y: Char)
    requires lo <= hi <= |rs|
    ensures Covers(ReplaceBlock(rs, lo, hi, pieces), y) <==>
      Covers(pieces, y) || exists j :: (0 <= j < lo || hi <= j < |rs|) && Contains(rs[j], y)
  {
    var res := ReplaceBlock(rs, lo, hi, pieces);
    var n := |pieces|;
    if Covers(res, y) {
      var i :| 0 <= i < |res| && Contains(res[i], y);
      if i < lo {
        assert res[i] == rs[i];
      } else if i >= lo + n {
        assert res[i] == rs[i - lo - n + hi];
      } else {
        assert res[i] == pieces[i - lo];
      }
    }
    if Covers(pieces, y) {
      var k :| 0 <= k < n && Contains(pieces[k], y);
      assert res[lo + k] == pieces[k];
    }
    if j :| (0 <= j < lo || hi <= j < |rs|) && Contains(rs[j], y) {
      if j < lo {
        assert res[j] == rs[j];
      } else {
        assert res[j - hi + lo + n] == rs[j];
      }
    }
  }

  /** `remove(c)` with the evident intent: the range holding `c` is replaced
      by what is left of it. */
  function RemoveSpec(rs: seq<CharRange>, c: Char): seq<CharRange>
    requires Valid(rs)
  {
    match Search(rs, c)
    case Err(_) => rs
    case Ok(idx) => ReplaceOne(rs, idx, RemovePieces(rs[idx], c))
  }

  /** `remove(c)` keeps the set invariant and takes out exactly `c`. */
  lemma RemoveCorrect(rs: seq<CharRange>, c: Char)
    requires Valid(rs)
    ensures Valid(RemoveSpec(rs, c))
    ensures forall y: Char :: Covers(RemoveSpec(rs, c), y) <==> Covers(rs, y) && y != c
  {
    match Search(rs, c)
    case Err(_) =>
    case Ok(idx) =>
      var x := rs[idx];
      RemovePiecesFacts(x, c);
      ReplaceBlockValid(rs, idx, idx + 1, RemovePieces(x, c), x.low, x.high);
      forall y: Char ensures Covers(RemoveSpec(rs, c), y) <==> Covers(rs, y) && y != c {
        ReplaceBlockCovers(rs, idx, idx + 1, RemovePieces(x, c), y);
        if Contains(x, y) && y != c {
          assert Covers(RemovePieces(x, c), y);
        }
      }
  }

  /** `CharSetBuf::remove` as written: the high-end case rebuilds `low..=c`,
      which is the range it started from. */
  function RemoveOwnedAsWritten(rs: seq<CharRange>, c: Char): seq<CharRange>
  {
    match Search(rs, c)
    case Err(_) => rs
    case Ok(idx) =>
      var x := rs[idx];
      if Len(x) == 1 then ReplaceOne(rs, idx, [])
      else if x.low == c then ReplaceOne(rs, idx, [Above(x, c)])
      else if x.high == c then ReplaceOne(rs, idx, [FromBounds(Included(x.low), Included(c))])
      else ReplaceOne(rs, idx, [Below(x, c), Above(x, c)])
  }

  /** `CharSet::remove_at` as written: besides the high-end case, the interior
      case keeps `c` in the lower part `low..=c`. */
  function RemoveAt(rs: seq<CharRange>, idx: nat, c: Char): seq<CharRange>
    requires idx < |rs| && Contains(rs[idx], c)
  {
    var x := rs[idx];
    if Len(x) == 1 then ReplaceOne(rs, idx, [])
    else if x.low == c then ReplaceOne(rs, idx, [Above(x, c)])
    else if x.high == c then ReplaceOne(rs, idx, [FromBounds(Included(x.low), Included(c))])
    else ReplaceOne(rs, idx, [FromBounds(Included(x.low), Included(c)), Above(x, c)])
  }

  /** `CharSet::remove` as written. */
  function RemoveSetAsWritten(rs: seq<CharRange>, c: Char): seq<CharRange>
  {
    match Search(rs, c)
    case Err(_) => rs
    case Ok(idx) => RemoveAt(rs, idx, c)
  }

  /** `c` is the high end of a range of two or more characters. */
  predicate IsHighEnd(rs: seq<CharRange>, c: Char)
  {
    Search(rs, c).Ok? && rs[Search(rs, c).value].low < c == rs[Search(rs, c).value].high
  }

  /** `c` lies strictly inside a stored range. */
  predicate IsInterior(rs: seq<CharRange>, c: Char)
  {
    Search(rs, c).Ok? && rs[Search(rs, c).value].low < c < rs[Search(rs, c).value].high
  }

  /** Except at a high end, `CharSetBuf::remove` as written does what is meant:
      a non-member changes nothing, a one-character range is deleted and an
      interior character splits its range in two. */
  lemma RemoveOwnedWorks(rs: seq<CharRange>, c: Char)
    requires Valid(rs) && !IsHighEnd(rs, c)
    ensures RemoveOwnedAsWritten(rs, c) == RemoveSpec(rs, c)
    ensures !Covers(rs, c) ==> RemoveOwnedAsWritten(rs, c) == rs
  {
  }

  /** `CharSet::remove` as written does what is meant only when `c` is not
      covered, is a range's low end, or is a one-character range. */
  lemma RemoveSetWorks(rs: seq<CharRange>, c: Char)
    requires Valid(rs) && !IsHighEnd(rs, c) && !IsInterior(rs, c)
    ensures RemoveSetAsWritten(rs, c) == RemoveSpec(rs, c)
  {
  }

  /** Removing 'c' from {a..=c} leaves the set unchanged in both versions. */
  lemma RemoveHighEndMisses()
    ensures RemoveOwnedAsWritten([CharRange(97, 99)], 99) == [CharRange(97, 99)]
    ensures RemoveSetAsWritten([CharRange(97, 99)], 99) == [CharRange(97, 99)]
    ensures RemoveSpec([CharRange(97, 99)], 99) == [CharRange(97, 98)]
  {
    assert Search([CharRange(97, 99)], 99) == Ok(0);
  }

  /** Removing 'b' from {a..=c} with `CharSet::remove` keeps 'b' and leaves two
      touching ranges. */
  lemma RemoveAtInteriorMisses()
    ensures RemoveSetAsWritten([CharRange(97, 99)], 98) == [CharRange(97, 98), CharRange(99, 99)]
    ensures Covers(RemoveSetAsWritten([CharRange(97, 99)], 98), 98)
    ensures !Valid(RemoveSetAsWritten([CharRange(97, 99)], 98))
  {
    assert Search([CharRange(97, 99)], 98) == Ok(0);
    var res := RemoveSetAsWritten([CharRange(97, 99)], 98);
    assert res == [CharRange(97, 98), CharRange(99, 99)];
    assert Contains(res[0], 98);
    assert res[0].high + 1 == res[1].low;
  }

  /** The doc example of `CharSetBuf::remove`: {a..=c} without 'b' is {a, c}. */
  lemma RemoveDocExample()
    ensures RemoveOwnedAsWritten([CharRange(97, 99)], 98) == [CharRange(97, 97), CharRange(99, 99)]
  {
    assert Search([CharRange(97, 99)], 98) == Ok(0);
  }

  // ---------------------------------------------------------------------
  // remove_range (src/set/owned.rs:176-227)
  // ---------------------------------------------------------------------

  /** Inclusive index of the lowest range the removal edits. */
  function RemoveLow(rs: seq<CharRange>, r: CharRange): (low: nat)
    ensures low <= |rs|
  {
    match Search(rs, r.low)
    case Ok(i) => i
    case Err(i) => i
  }

  /** Exclusive index of the highest range the removal edits. */
  function RemoveHigh(rs: seq<CharRange>, r: CharRange): (high: nat)
    ensures high <= |rs|
  {
    match Search(rs, r.high)
    case Ok(i) => i + 1
    case Err(i) => i
  }

  /** The edited block is exactly the ranges that share a character with `r`. */
  lemma RemoveIndexFacts(rs: seq<CharRange>, r: CharRange)
    requires Valid(rs) && !IsEmpty(r)
    ensures RemoveLow(rs, r) <= RemoveHigh(rs, r)
    ensures forall j :: 0 <= j < RemoveLow(rs, r) ==> rs[j].high < r.low
    ensures forall j :: RemoveHigh(rs, r) <= j < |rs| ==> r.high < rs[j].low
    ensures forall j :: RemoveLow(rs, r) <= j < RemoveHigh(rs, r) ==> r.low <= rs[j].high && rs[j].low <= r.high
  {
    var low, high := RemoveLow(rs, r), RemoveHigh(rs, r);
    if high < |rs| {
      var x := rs[high];
      assert r.high < x.low;
    }
  }

  /** What `remove_range` as written puts in place of the edited block
      `rs[low..high]`: nothing when the block is empty; for a single range,
      nothing when it equals `r`, else the part above `r`, the part below it,
      or both; for several ranges, the part of the first below `r` and the
      part of the last above `r`. The parts are built without checking that
      they are non-empty. */
  function RemoveMid(rs: seq<CharRange>, r: CharRange, low: nat, high: nat): seq<CharRange>
    requires low <= high <= |rs|
  {
    if low == high then []
    else if low + 1 == high then
      var split := rs[low];
      if split.low == r.low && split.high == r.high then []
      else if split.low == r.low then [Above(split, r.high)]
      else if split.high == r.high then [Below(split, r.low)]
      else [Below(split, r.low), Above(split, r.high)]
    else [Below(rs[low], r.low), Above(rs[high - 1], r.high)]
  }

  /** `CharSetBuf::remove_range` as written. */
  function RemoveRangeAsWritten(rs: seq<CharRange>, r: CharRange): seq<CharRange>
    requires Valid(rs)
  {
    if IsEmpty(r) then rs
    else
      RemoveIndexFacts(rs, r);
      ReplaceBlock(rs, RemoveLow(rs, r), RemoveHigh(rs, r), RemoveMid(rs, r, RemoveLow(rs, r), RemoveHigh(rs, r)))
  }

  /** The evident intent: keep the part of the first edited range below `r`
      and the part of the last one above `r`, each only when it is non-empty. */
  function TrimmedMid(rs: seq<CharRange>, r: CharRange, low: nat, high: nat): seq<CharRange>
    requires low < high <= |rs|
  {
    (if rs[low].low < r.low then [Below(rs[low], r.low)] else [])
    + (if r.high < rs[high - 1].high then [Above(rs[high - 1], r.high)] else [])
  }

  /** `remove_range` with the emptiness checks the code leaves out. */
  function RemoveRangeSpec(rs: seq<CharRange>, r: CharRange): seq<CharRange>
    requires Valid(rs)
  {
    if IsEmpty(r) then rs
    else
      RemoveIndexFacts(rs, r);
      var low, high := RemoveLow(rs, r), RemoveHigh(rs, r);
      if low == high then rs else ReplaceBlock(rs, low, high, TrimmedMid(rs, r, low, high))
  }

  /** The ranges that drop out of `remove_range` as written are exactly its
      empty ones. */
  function NonEmpty(ps: seq<CharRange>): (res: seq<CharRange>)
    ensures forall p :: p in res <==> p in ps && !IsEmpty(p)
  {
    if ps == [] then []
    else (if IsEmpty(ps[0]) then [] else [ps[0]]) + NonEmpty(ps[1..])
  }

  /** Dropping the empty parts of what the code builds gives the trimmed parts. */
  lemma RemoveMidNonEmpty(rs: seq<CharRange>, r: CharRange)
    requires Valid(rs) && !IsEmpty(r)
    ensures var low, high := RemoveLow(rs, r), RemoveHigh(rs, r);
      low < high ==> NonEmpty(RemoveMid(rs, r, low, high)) == TrimmedMid(rs, r, low, high)
  {
    RemoveIndexFacts(rs, r);
    var low, high := RemoveLow(rs, r), RemoveHigh(rs, r);
    if low < high {
      RemoveMidParts(rs, r, low, high);
    }
  }

  /** `RemoveMidNonEmpty` for a given non-empty edited block. */
  lemma RemoveMidParts(rs: seq<CharRange>, r: CharRange, low: nat, high: nat)
    requires low < high <= |rs| && !IsEmpty(r)
    requires rs[low].low <= r.high && r.low <= rs[high - 1].high
    requires low + 1 < high ==> r.low <= rs[low].high && rs[high - 1].low <= r.high
    ensures NonEmpty(RemoveMid(rs, r, low, high)) == TrimmedMid(rs, r, low, high)
  {
    var first, last := rs[low], rs[high - 1];
    var b, a := Below(first, r.low), Above(last, r.high);
    if low + 1 == high {
      if first.low == r.low && first.high == r.high {
        assert RemoveMid(rs, r, low, high) == [];
      } else if first.low == r.low {
        NonEmptyPair([a], []);
      } else if first.high == r.high {
        NonEmptyPair([b], []);
      } else {
        NonEmptyPair([b], [a]);
      }
    } else {
      NonEmptyPair([b], [a]);
    }
  }

  /** `NonEmpty` of at most two ranges, one after the other. */
  lemma NonEmptyPair(x: seq<CharRange>, y: seq<CharRange>)
    requires |x| <= 1 && |y| <= 1
    ensures NonEmpty(x + y) == (if x != [] && !IsEmpty(x[0]) then x else []) + (if y != [] && !IsEmpty(y[0]) then y else [])
  {
    if x == [] {
      assert x + y == y;
      if y != [] {
        assert NonEmpty(y) == (if IsEmpty(y[0]) then [] else [y[0]]) + NonEmpty([]);
      }
    } else {
      assert (x + y)[1..] == y;
      if y != [] {
        assert NonEmpty(y) == (if IsEmpty(y[0]) then [] else [y[0]]) + NonEmpty([]);
      }
    }
  }

  /** `remove_range` keeps the set invariant. */
  lemma RemoveRangeValid(rs: seq<CharRange>, r: CharRange)
    requires Valid(rs)
    ensures Valid(RemoveRangeSpec(rs, r))
  {
    if !IsEmpty(r) {
      RemoveIndexFacts(rs, r);
      var low, high := RemoveLow(rs, r), RemoveHigh(rs, r);
      if low < high {
        var ps := TrimmedMid(rs, r, low, high);
        var first, last := rs[low], rs[high - 1];
        TrimmedMidFacts(rs, r, low, high);
        assert 0 < low ==> rs[low - 1].high + 1 < first.low;
        assert high < |rs| ==> last.high + 1 < rs[high].low;
        assert 0 < low && high < |rs| ==> rs[low - 1].high + 1 < rs[high].low;
        ReplaceBlockValid(rs, low, high, ps, first.low, last.high);
      }
    }
  }

  /** The trimmed parts are valid and lie within the edited block. */
  lemma TrimmedMidFacts(rs: seq<CharRange>, r: CharRange, low: nat, high: nat)
    requires Valid(rs) && !IsEmpty(r) && low == RemoveLow(rs, r) && high == RemoveHigh(rs, r) && low < high
    ensures Valid(TrimmedMid(rs, r, low, high))
    ensures forall p :: p in TrimmedMid(rs, r, low, high) ==> rs[low].low <= p.low && p.high <= rs[high - 1].high
  {
    RemoveIndexFacts(rs, r);
    var ps := TrimmedMid(rs, r, low, high);
    var first, last := rs[low], rs[high - 1];
    assert first.low <= r.high && r.low <= last.high;
    var below, above := first.low < r.low, r.high < last.high;
    if below && above {
      assert ps == [Below(first, r.low), Above(last, r.high)];
      assert Pred(r.low) < r.low <= r.high < Succ(r.high);
    } else if below {
      assert ps == [Below(first, r.low)];
    } else if above {
      assert ps == [Above(last, r.high)];
    } else {
      assert ps == [];
    }
  }

  /** `remove_range` takes out exactly the characters of `r`. */
  lemma RemoveRangeMembers(rs: seq<CharRange>, r: CharRange)
    requires Valid(rs)
    ensures forall y: Char :: Covers(RemoveRangeSpec(rs, r), y) <==> Covers(rs, y) && !Contains(r, y)
  {
    if !IsEmpty(r) {
      RemoveIndexFacts(rs, r);
      var low, high := RemoveLow(rs, r), RemoveHigh(rs, r);
      if low == high {
        forall y: Char | Covers(rs, y) ensures !Contains(r, y) {
          var j :| 0 <= j < |rs| && Contains(rs[j], y);
        }
      } else {
        var ps := TrimmedMid(rs, r, low, high);
        forall y: Char ensures Covers(RemoveRangeSpec(rs, r), y) <==> Covers(rs, y) && !Contains(r, y) {
          ReplaceBlockCovers(rs, low, high, ps, y);
          RemoveRangeMember(rs, r, low, high, y);
          if j :| 0 <= j < |rs| && Contains(rs[j], y) {
            if j < low || high <= j {
              assert !Contains(r, y);
            }
          }
        }
      }
    }
  }

  /** Inside the edited block, the trimmed parts hold the characters outside `r`. */
  lemma RemoveRangeMember(rs: seq<CharRange>, r: CharRange, low: nat, high: nat, y: Char)
    requires Valid(rs) && low < high <= |rs|
    requires r.low <= rs[low].high && rs[high - 1].low <= r.high
    ensures Covers(TrimmedMid(rs, r, low, high), y) <==>
      !Contains(r, y) && exists j :: low <= j < high && Contains(rs[j], y)
  {
    TrimmedMidCovers(rs, r, low, high, y);
    var first, last := rs[low], rs[high - 1];
    if first.low <= y < r.low {
      assert Contains(first, y);
    } else if r.high < y <= last.high {
      assert Contains(last, y);
    }
  }

  /** The trimmed parts hold what lies below `r` in the first edited range
      and above `r` in the last. */
  lemma TrimmedMidCovers(rs: seq<CharRange>, r: CharRange, low: nat, high: nat, y: Char)
    requires low < high <= |rs|
    ensures Covers(TrimmedMid(rs, r, low, high), y) <==>
      rs[low].low <= y < r.low || r.high < y <= rs[high - 1].high
  {
    var first, last := rs[low], rs[high - 1];
    var ps := TrimmedMid(rs, r, low, high);
    var b, a := Below(first, r.low), Above(last, r.high);
    if first.low < r.low && r.high < last.high {
      assert ps == [b, a];
      if Contains(b, y) { assert Contains(ps[0], y); }
      if Contains(a, y) { assert Contains(ps[1], y); }
    } else if first.low < r.low {
      assert ps == [b];
      if Contains(b, y) { assert Contains(ps[0], y); }
    } else if r.high < last.high {
      assert ps == [a];
      if Contains(a, y) { assert Contains(ps[0], y); }
    } else {
      assert ps == [];
    }
  }

  /** Whatever `remove_range` as written leaves behind covers the same
      characters as the corrected result. */
  lemma RemoveRangeAsWrittenCovers(rs: seq<CharRange>, r: CharRange)
    requires Valid(rs)
    ensures forall y: Char :: Covers(RemoveRangeAsWritten(rs, r), y) <==> Covers(RemoveRangeSpec(rs, r), y)
  {
    if !IsEmpty(r) {
      RemoveIndexFacts(rs, r);
      RemoveMidNonEmpty(rs, r);
      var low, high := RemoveLow(rs, r), RemoveHigh(rs, r);
      var mid := RemoveMid(rs, r, low, high);
      if low < high {
        assert RemoveRangeAsWritten(rs, r) == ReplaceBlock(rs, low, high, mid);
        assert RemoveRangeSpec(rs, r) == ReplaceBlock(rs, low, high, NonEmpty(mid));
        forall y: Char ensures Covers(RemoveRangeAsWritten(rs, r), y) <==> Covers(RemoveRangeSpec(rs, r), y) {
          ReplaceBlockCovers(rs, low, high, mid, y);
          ReplaceBlockCovers(rs, low, high, NonEmpty(mid), y);
          NonEmptyCovers(mid, y);
        }
      } else {
        assert RemoveRangeAsWritten(rs, r) == rs;
      }
    }
  }

  /** When `remove_range` as written builds no empty range, it gives the
      corrected result. */
  lemma RemoveRangeAsWrittenWorks(rs: seq<CharRange>, r: CharRange)
    requires Valid(rs)
    requires forall k :: 0 <= k < |RemoveRangeAsWritten(rs, r)| ==> !IsEmpty(RemoveRangeAsWritten(rs, r)[k])
    ensures RemoveRangeAsWritten(rs, r) == RemoveRangeSpec(rs, r)
  {
    if !IsEmpty(r) {
      RemoveIndexFacts(rs, r);
      RemoveMidNonEmpty(rs, r);
      var low, high := RemoveLow(rs, r), RemoveHigh(rs, r);
      var mid := RemoveMid(rs, r, low, high);
      assert RemoveRangeAsWritten(rs, r) == ReplaceBlock(rs, low, high, mid);
      if low < high {
        ReplaceBlockPieces(rs, low, high, mid);
        NonEmptyOfNonEmpty(mid);
      } else {
        ReplaceNothing(rs, low);
      }
    }
  }

  /** What `remove_range` as written achieves: the covered characters lose
      exactly those of `r`, and when no empty range is left behind the set
      is valid and equal to the corrected result. */
  lemma RemoveRangeAsWrittenMeaning(rs: seq<CharRange>, r: CharRange)
    requires Valid(rs)
    ensures forall y: Char :: Covers(RemoveRangeAsWritten(rs, r), y) <==> Covers(rs, y) && !Contains(r, y)
    ensures (forall k :: 0 <= k < |RemoveRangeAsWritten(rs, r)| ==> !IsEmpty(RemoveRangeAsWritten(rs, r)[k])) ==>
      Valid(RemoveRangeAsWritten(rs, r)) && RemoveRangeAsWritten(rs, r) == RemoveRangeSpec(rs, r)
  {
    RemoveRangeAsWrittenCovers(rs, r);
    RemoveRangeMembers(rs, r);
    if forall k :: 0 <= k < |RemoveRangeAsWritten(rs, r)| ==> !IsEmpty(RemoveRangeAsWritten(rs, r)[k]) {
      RemoveRangeAsWrittenWorks(rs, r);
      RemoveRangeValid(rs, r);
    }
  }

  /** Empty ranges cover nothing, so dropping them changes no membership. */
  lemma NonEmptyCovers(ps: seq<CharRange>, y: Char)
    ensures Covers(NonEmpty(ps), y) <==> Covers(ps, y)
  {
    var ne := NonEmpty(ps);
    if Covers(ne, y) {
      var k :| 0 <= k < |ne| && Contains(ne[k], y);
      assert ne[k] in ps;
      var i :| 0 <= i < |ps| && ps[i] == ne[k];
    }
    if Covers(ps, y) {
      var i :| 0 <= i < |ps| && Contains(ps[i], y);
      assert ps[i] in ne;
      var k :| 0 <= k < |ne| && ne[k] == ps[i];
    }
  }

  lemma {:induction false} NonEmptyOfNonEmpty(ps: seq<CharRange>)
    requires forall k :: 0 <= k < |ps| ==> !IsEmpty(ps[k])
    ensures NonEmpty(ps) == ps
  {
    if ps != [] {
      NonEmptyOfNonEmpty(ps[1..]);
    }
  }

  /** Removing 'a'..='e' from {a..=b, d..=e} as written leaves two empty ranges
      ('a'..='`' and 'f'..='e') where nothing should remain. */
  lemma RemoveRangeLeavesEmpty()
    ensures RemoveRangeAsWritten([CharRange(97, 98), CharRange(100, 101)], CharRange(97, 101))
      == [CharRange(97, 96), CharRange(102, 101)]
    ensures !Valid(RemoveRangeAsWritten([CharRange(97, 98), CharRange(100, 101)], CharRange(97, 101)))
    ensures RemoveRangeSpec([CharRange(97, 98), CharRange(100, 101)], CharRange(97, 101)) == []
  {
    var rs := [CharRange(97, 98), CharRange(100, 101)];
    assert Search(rs, 97) == Ok(0);
    assert Search(rs, 101) == Ok(1);
    assert RemoveRangeAsWritten(rs, CharRange(97, 101))[0] == CharRange(97, 96);
  }

  /** Rows of the remove_range test table of src/set/owned.rs. */
  lemma RemoveRangeTable()
    ensures RemoveRangeAsWritten([CharRange(97, 99)], CharRange(122, 97)) == [CharRange(97, 99)]
    ensures RemoveRangeAsWritten([CharRange(97, 99)], CharRange(98, 98)) == [CharRange(97, 97), CharRange(99, 99)]
    ensures RemoveRangeAsWritten([CharRange(97, 98), CharRange(100, 101)], CharRange(98, 100))
      == [CharRange(97, 97), CharRange(101, 101)]
  {
    assert Search([CharRange(97, 99)], 98) == Ok(0);
    assert Search([CharRange(97, 98), CharRange(100, 101)], 98) == Ok(0);
    assert Search([CharRange(97, 98), CharRange(100, 101)], 100) == Ok(1);
  }

  // ---------------------------------------------------------------------
  // CharSet::remove_range as written (src/set/mod.rs:223-236)
  // ---------------------------------------------------------------------

  /** The loop of `CharSet::remove_range`: while the range at `idx` ends below
      `r.high` it must start above `r.low` and is deleted. `None` is a panic:
      either `idx` runs past the end of the list or the `assert!` fails. */
  function DropBelow(rs: seq<CharRange>, idx: nat, r: CharRange): Option<seq<CharRange>>
    decreases |rs|
  {
    if idx >= |rs| then None
    else if rs[idx].high < r.high then
      if rs[idx].low > r.low then DropBelow(rs[..idx] + rs[idx + 1..], idx, r) else None
    else Some(rs)
  }

  /** `CharSet::remove_range` as written: `remove_at(r.low)` where `r.low` is
      covered, `remove(r.high)`, then the loop. */
  function RemoveRangeSetAsWritten(rs: seq<CharRange>, r: CharRange): Option<seq<CharRange>> {
    match Search(rs, r.low)
    case Err(idx) => DropBelow(RemoveSetAsWritten(rs, r.high), idx, r)
    case Ok(idx) => DropBelow(RemoveSetAsWritten(RemoveAt(rs, idx, r.low), r.high), idx, r)
  }

  /** On an empty set every `remove_range` panics: the loop reads index 0. */
  lemma RemoveRangeSetPanicsOnEmpty(r: CharRange)
    ensures RemoveRangeSetAsWritten([], r) == None
  {
  }

  /** Removing 'c'..='d' from {a..=z} panics: the first step leaves a..=c, which
      ends below 'd' and does not start above 'c', so the `assert!` fails. */
  lemma RemoveRangeSetPanicsInside()
    ensures RemoveRangeSetAsWritten([CharRange(97, 122)], CharRange(99, 100)) == None
  {
    var rs := [CharRange(97, 122)];
    assert Search(rs, 99) == Ok(0);
    var first := RemoveAt(rs, 0, 99);
    assert first == [CharRange(97, 99), CharRange(100, 122)];
    assert Search(first, 100) == Ok(1);
    assert RemoveSetAsWritten(first, 100) == [CharRange(97, 99), CharRange(101, 122)];
  }

  /** Removing 'x'..='y' from {a..=b} panics: nothing is stored at or above
      'x', so the loop reads past the end. */
  lemma RemoveRangeSetPanicsAbove()
    ensures RemoveRangeSetAsWritten([CharRange(97, 98)], CharRange(120, 121)) == None
  {
    assert Search([CharRange(97, 98)], 120) == Err(1);
    assert Search([CharRange(97, 98)], 121) == Err(1);
  }

  /** Where no edge case arises it does remove the range: taking 'b'..='d' out
      of {a, c, e} leaves {a, e}. */
  lemma RemoveRangeSetGap()
    ensures RemoveRangeSetAsWritten([CharRange(97, 97), CharRange(99, 99), CharRange(101, 101)], CharRange(98, 100))
      == Some([CharRange(97, 97), CharRange(101, 101)])
  {
    var rs := [CharRange(97, 97), CharRange(99, 99), CharRange(101, 101)];
    var r := CharRange(98, 100);
    assert SearchIn(rs, 98, 0, 1) == Err(1);
    assert Search(rs, 98) == Err(1);
    assert SearchIn(rs, 100, 2, 3) == Err(2);
    assert Search(rs, 100) == Err(2);
    assert RemoveSetAsWritten(rs, 100) == rs;
    var rest := rs[..1] + rs[2..];
    assert rest == [CharRange(97, 97), CharRange(101, 101)];
    assert DropBelow(rest, 1, r) == Some(rest);
  }

  /** The corrected `remove_range` gives the same answer there. */
  lemma RemoveRangeSpecGap()
    ensures RemoveRangeSpec([CharRange(97, 97), CharRange(99, 99), CharRange(101, 101)], CharRange(98, 100))
      == [CharRange(97, 97), CharRange(101, 101)]
  {
    var rs := [CharRange(97, 97), CharRange(99, 99), CharRange(101, 101)];
    var r := CharRange(98, 100);
    assert SearchIn(rs, 98, 0, 1) == Err(1);
    assert RemoveLow(rs, r) == 1;
    assert SearchIn(rs, 100, 2, 3) == Err(2);
    assert RemoveHigh(rs, r) == 2;
    assert TrimmedMid(rs, r, 1, 2) == [];
    assert ReplaceBlock(rs, 1, 2, []) == [CharRange(97, 97), CharRange(101, 101)];
  }

  // ---------------------------------------------------------------------
  // The `Extend` / `FromIterator` folds (src/set/owned.rs:230-257)
  // ---------------------------------------------------------------------

  /** `insert_range` applied to each of `qs` in turn. */
  function InsertRanges(rs: seq<CharRange>, qs: seq<CharRange>): (res: seq<CharRange>)
    requires Valid(rs)
    ensures Valid(res)
    decreases |qs|
  {
    if qs == [] then rs
    else
      InsertRangeValid(rs, qs[0]);
      InsertRanges(InsertRangeSpec(rs, qs[0]), qs[1..])
  }

  /** After the fold the set holds what it held before and every character of
      every inserted range, and nothing else. */
  lemma {:induction false} InsertRangesMembers(rs: seq<CharRange>, qs: seq<CharRange>)
    requires Valid(rs)
    ensures forall x: Char :: Covers(InsertRanges(rs, qs), x) <==>
      Covers(rs, x) || exists i :: 0 <= i < |qs| && Contains(qs[i], x)
    decreases |qs|
  {
    if qs != [] {
      var next := InsertRangeSpec(rs, qs[0]);
      InsertRangeMembers(rs, qs[0]);
      InsertRangeValid(rs, qs[0]);
      InsertRangesMembers(next, qs[1..]);
      forall x: Char ensures Covers(InsertRanges(rs, qs), x) <==>
        Covers(rs, x) || exists i :: 0 <= i < |qs| && Contains(qs[i], x)
      {
        if exists i :: 0 <= i < |qs| && Contains(qs[i], x) {
          var i :| 0 <= i < |qs| && Contains(qs[i], x);
          if i > 0 {
            assert Contains(qs[1..][i - 1], x);
          }
        }
        if exists i :: 0 <= i < |qs[1..]| && Contains(qs[1..][i], x) {
          var i :| 0 <= i < |qs[1..]| && Contains(qs[1..][i], x);
          assert Contains(qs[i + 1], x);
        }
      }
    }
  }

  /** The characters `cs` as one-character ranges. */
  function Singletons(cs: seq<Char>): (res: seq<CharRange>)
    ensures |res| == |cs|
    ensures forall i :: 0 <= i < |cs| ==> res[i] == Singleton(cs[i])
  {
    if cs == [] then [] else [Singleton(cs[0])] + Singletons(cs[1..])
  }

  /** Inserting the characters `cs` one at a time adds exactly them. */
  lemma InsertCharsMembers(rs: seq<CharRange>, cs: seq<Char>)
    requires Valid(rs)
    ensures forall x: Char :: Covers(InsertRanges(rs, Singletons(cs)), x) <==> Covers(rs, x) || x in cs
  {
    var qs := Singletons(cs);
    InsertRangesMembers(rs, qs);
    forall x: Char ensures (exists i :: 0 <= i < |qs| && Contains(qs[i], x)) <==> x in cs {
      if x in cs {
        var i :| 0 <= i < |cs| && cs[i] == x;
        assert Contains(qs[i], x);
      }
    }
  }

  /** No insertion along the way meets one of the shapes `insert` gets
      wrong, so each step of the fold of `insert` is the singleton
      `insert_range`. */
  predicate InsertsWork(rs: seq<CharRange>, cs: seq<Char>)
    requires Valid(rs)
    decreases |cs|
  {
    if cs == [] then true
    else
      InsertRangeValid(rs, Singleton(cs[0]));
      !InsertMisses(rs, cs[0]) && InsertsWork(InsertRangeSpec(rs, Singleton(cs[0])), cs[1..])
  }

  /** The doc example of `CharSetBuf::insert` (src/set/owned.rs:70-74):
      {a..=b}, insert 'd', insert 'c', gives {a..=d}. */
  lemma InsertDocExample()
    ensures InsertAsWritten(InsertAsWritten([CharRange(97, 98)], 100), 99) == [CharRange(97, 100)]
  {
    var s0 := [CharRange(97, 98)];
    assert Search(s0, 100) == Err(1);
    var s1 := InsertAsWritten(s0, 100);
    assert s1 == [CharRange(97, 98), CharRange(100, 100)];
    assert SearchIn(s1, 99, 0, 1) == Err(1);
    assert Search(s1, 99) == Err(1);
    assert InsertAt(s1, 1, 99) == [CharRange(97, 100)];
  }

  /** Neither insertion of the doc example meets a shape `insert` gets wrong. */
  lemma InsertDocExampleWorks()
    ensures InsertsWork([CharRange(97, 98)], [100, 99])
  {
    var s0, s1 := [CharRange(97, 98)], [CharRange(97, 98), CharRange(100, 100)];
    InsertDocFirst();
    InsertDocSecond();
    assert InsertsWork(s1, [99]) by {
      assert [99][1..] == [];
    }
    assert [100, 99][1..] == [99];
  }

  /** Inserting 'd' into {a..=b}: a new range above, as the code does it. */
  lemma InsertDocFirst()
    ensures !InsertMisses([CharRange(97, 98)], 100)
    ensures InsertRangeSpec([CharRange(97, 98)], Singleton(100)) == [CharRange(97, 98), CharRange(100, 100)]
  {
    var s0 := [CharRange(97, 98)];
    assert Search(s0, 100) == Err(1);
    assert InsertLow(s0, Singleton(100)) == (1, 100);
    assert InsertHigh(s0, Singleton(100)) == (1, 100);
  }

  /** Then 'c' touches both neighbours, which the code fuses. */
  lemma InsertDocSecond()
    ensures !InsertMisses([CharRange(97, 98), CharRange(100, 100)], 99)
  {
    var s1 := [CharRange(97, 98), CharRange(100, 100)];
    assert SearchIn(s1, 99, 0, 1) == Err(1);
    assert Search(s1, 99) == Err(1);
  }
}
