/** `CharMapRef` (src/map/mod.rs): a read-only map from characters to values,
    stored as two parallel slices. `ranges[i]` maps to `values[i]`; nothing
    checks at construction that the ranges are sorted or that there are
    enough values (`from_raw` is the datatype constructor itself). */
module MapRefs {
  import opened Wrappers
  import opened CharRanges
  import opened RangeLists

  datatype CharMapRef<T> = CharMapRef(ranges: seq<CharRange>, values: seq<T>)

  /** The message `Index` fails with. */
  const NO_ENTRY: string := "no entry found for key"

  /** `CharMapRef::empty`: no ranges and no values. */
  function Empty<T>(): (m: CharMapRef<T>)
    ensures m.ranges == [] && m.values == []
  {
    CharMapRef([], [])
  }

  /** `search(c)`: the binary search by `cmp_char` shared with `CharSet`. */
  function Search<T>(m: CharMapRef<T>, c: Char): (res: Result<nat, nat>)
    ensures res.Ok? ==> res.value < |m.ranges| && CharRanges.Contains(m.ranges[res.value], c)
    ensures Sorted(m.ranges) ==> (res.Ok? <==> Covers(m.ranges, c))
  {
    RangeLists.Search(m.ranges, c)
  }

  /** Where the search finds `c`, `values` must have an entry at that index;
      otherwise the slice index in `get` panics. */
  predicate HasValueFor<T>(m: CharMapRef<T>, c: Char) {
    Search(m, c).Ok? ==> Search(m, c).value < |m.values|
  }

  /** `get(c)`: the value at the index of the range holding `c`. Over sorted
      ranges that is the value of the one range containing `c`, and `None`
      when no range does. */
  function Get<T>(m: CharMapRef<T>, c: Char): (r: Option<T>)
    requires HasValueFor(m, c)
    ensures r.Some? ==> exists i :: 0 <= i < |m.ranges| && i < |m.values| && CharRanges.Contains(m.ranges[i], c) && r.value == m.values[i]
    ensures Sorted(m.ranges) ==> (r.None? <==> !Covers(m.ranges, c))
  {
    match Search(m, c)
    case Err(_) => None
    case Ok(idx) => Some(m.values[idx])
  }

  /** Over sorted ranges, `get` answers with the value paired with the range
      that contains `c`, whichever range that is. */
  lemma GetAt<T>(m: CharMapRef<T>, c: Char, i: nat)
    requires Sorted(m.ranges) && i < |m.ranges| && i < |m.values| && CharRanges.Contains(m.ranges[i], c)
    ensures HasValueFor(m, c) && Get(m, c) == Some(m.values[i])
  {
    SearchUnique(m.ranges, c, i);
  }

  /** `contains(c)`: over sorted ranges, whether some range holds `c`. */
  function Contains<T>(m: CharMapRef<T>, c: Char): (b: bool)
    ensures Sorted(m.ranges) ==> (b <==> Covers(m.ranges, c))
  {
    Search(m, c).Ok?
  }

  /** `contains(c)` holds exactly when `get(c)` has a value. */
  lemma ContainsIffGet<T>(m: CharMapRef<T>, c: Char)
    requires HasValueFor(m, c)
    ensures Contains(m, c) <==> Get(m, c).Some?
  {
  }

  /** `len()`: the sum of the range lengths, the number of characters
      `chars()` yields. */
  function Len<T>(m: CharMapRef<T>): (n: nat)
    ensures n == |Chars(m.ranges)|
  {
    SumLenIsCharsLength(m.ranges);
    SumLen(m.ranges)
  }

  /** `is_empty()`: no range is stored; over sorted ranges, no character is
      covered. */
  function IsEmpty<T>(m: CharMapRef<T>): (b: bool)
    ensures b <==> m.ranges == []
    ensures Sorted(m.ranges) ==> (b <==> forall c: Char :: !Covers(m.ranges, c))
  {
    assert m.ranges != [] && Sorted(m.ranges) ==> Covers(m.ranges, m.ranges[0].low) by {
      if m.ranges != [] && Sorted(m.ranges) {
        assert CharRanges.Contains(m.ranges[0], m.ranges[0].low);
      }
    }
    m.ranges == []
  }

  /** `Index<char>`: the value `get` finds, or the failure
      "no entry found for key". */
  function Index<T>(m: CharMapRef<T>, c: Char): (r: Result<T, string>)
    requires HasValueFor(m, c)
    ensures r.Ok? <==> Get(m, c).Some?
    ensures r.Ok? ==> r.value == Get(m, c).value
    ensures r.Err? ==> r.error == NO_ENTRY
  {
    match Get(m, c)
    case Some(v) => Ok(v)
    case None => Err(NO_ENTRY)
  }

  /** The empty map is empty, has length 0 and maps nothing. */
  lemma EmptyMap<T>(c: Char)
    ensures IsEmpty(Empty<T>()) && Len(Empty<T>()) == 0
    ensures HasValueFor(Empty<T>(), c) && Get(Empty<T>(), c) == None
    ensures Index(Empty<T>(), c) == Err(NO_ENTRY)
  {
  }
}
