/** `CharTrie` (src/trie/mod.rs): a read-only set of characters stored as a
    three-level bit trie.

    Characters below 0x800 index a bitmap of 32 words directly. Characters
    from 0x800 up to 0x10000 pick a leaf word through the 992-entry second
    level. Characters from 0x10000 on pick a 64-entry row through the
    256-entry third level, and the row picks the leaf. The low six bits of
    a character pick the bit within its word. Words are `u64`, indices `u8`;
    both are modelled as bounded integers, and a shift right by `j` as
    division by 2 to the `j`. */
module Tries {
  import opened Wrappers
  import opened CharRanges

  const WORD_LIMIT: nat := 0x1_0000_0000_0000_0000

  /** A `u64`. */
  type Word = n: int | 0 <= n < WORD_LIMIT
  /** A `u8`. */
  type Byte = n: int | 0 <= n < 256

  function Pow2(n: nat): (p: nat)
    ensures p >= 1
  {
    if n == 0 then 1 else 2 * Pow2(n - 1)
  }

  /** `w >> j`. */
  function Shr(w: nat, j: nat): nat {
    if j == 0 then w else Shr(w / 2, j - 1)
  }

  /** `(w >> j) & 1 == 1`: bit `j` of `w`, least significant first. */
  predicate Bit(w: nat, j: nat) {
    Shr(w, j) % 2 == 1
  }

  /** The word whose bit `j` is `bits[j]` (least significant first), as the
      little-endian `BitVec` the generator collects packs it. */
  function Pack(bits: seq<bool>): (w: nat)
    ensures w < Pow2(|bits|)
  {
    if bits == [] then 0 else (if bits[0] then 1 else 0) + 2 * Pack(bits[1..])
  }

  /** Reading a bit back out of a packed word gives the bit that went in. */
  lemma {:induction false} BitOfPack(bits: seq<bool>, j: nat)
    requires j < |bits|
    ensures Bit(Pack(bits), j) == bits[j]
  {
    if j > 0 {
      BitOfPack(bits[1..], j - 1);
      assert Pack(bits) / 2 == Pack(bits[1..]);
    }
  }

  lemma {:induction false} Pow2Add(a: nat, b: nat)
    ensures Pow2(a + b) == Pow2(a) * Pow2(b)
  {
    if a > 0 {
      Pow2Add(a - 1, b);
    }
  }

  lemma Pow2Is64()
    ensures Pow2(64) == WORD_LIMIT
  {
    assert Pow2(2) == 4;
    Pow2Add(2, 2);
    Pow2Add(4, 4);
    assert Pow2(8) == 256;
    Pow2Add(8, 8);
    assert Pow2(16) == 0x1_0000;
    Pow2Add(16, 16);
    assert Pow2(32) == 0x1_0000_0000;
    Pow2Add(32, 32);
  }

  /** Sixty-four bits pack into one `u64`. */
  function PackWord(bits: seq<bool>): (w: Word)
    requires |bits| == 64
    ensures forall j :: 0 <= j < 64 ==> Bit(w, j) == bits[j]
  {
    Pow2Is64();
    forall j | 0 <= j < 64 ensures Bit(Pack(bits), j) == bits[j] {
      BitOfPack(bits, j);
    }
    Pack(bits)
  }

  /** The four tables of `CharTrie::from_raw`: `level1`, `level2`,
      `level3 = (index, rows)` and `leaves`. */
  datatype CharTrie = CharTrie(
    level1: seq<Word>,
    level2: seq<Byte>,
    level3Index: seq<Byte>,
    level3Rows: seq<seq<Byte>>,
    leaves: seq<Word>)

  /** The lengths the Rust types fix: `[u64; 32]`, `[u8; 992]`, `[u8; 256]`
      and rows of `[u8; 64]`. */
  predicate Shaped(t: CharTrie) {
    && |t.level1| == 32
    && |t.level2| == 992
    && |t.level3Index| == 256
    && forall k :: 0 <= k < |t.level3Rows| ==> |t.level3Rows[k]| == 64
  }

  /** The data-dependent indices on the way to `c` are in range: the leaf
      named by the second level, or the row named by the third level and
      the leaf named by that row. */
  predicate PathInBounds(t: CharTrie, c: Char)
    requires Shaped(t)
  {
    if c < 0x800 then true
    else if c < 0x10000 then t.level2[(c - 0x800) / 64] < |t.leaves|
    else
      var row := t.level3Index[(c - 0x10000) / 4096];
      row < |t.level3Rows| && t.level3Rows[row][((c - 0x10000) / 64) % 64] < |t.leaves|
  }

  /** `contains(c)`. `None` is the panic of a slice index out of range, which
      only the data-dependent indices can cause: the first-stage indices are
      in range for every character. */
  function Contains(t: CharTrie, c: Char): (r: Option<bool>)
    requires Shaped(t)
    ensures r.Some? <==> PathInBounds(t, c)
  {
    var bitIndex := c % 64;
    if c < 0x800 then
      Some(Bit(t.level1[c / 64], bitIndex))
    else if c < 0x10000 then
      var chunkIndex := t.level2[(c - 0x800) / 64];
      if chunkIndex < |t.leaves| then Some(Bit(t.leaves[chunkIndex], bitIndex)) else None
    else
      var d := c - 0x10000;
      var rowIndex := t.level3Index[d / 4096];
      if rowIndex < |t.level3Rows| then
        var chunkIndex := t.level3Rows[rowIndex][(d / 64) % 64];
        if chunkIndex < |t.leaves| then Some(Bit(t.leaves[chunkIndex], bitIndex)) else None
      else None
  }

  // ---------------------------------------------------------------------
  // assert_optimal (src/trie/mod.rs:112-153)
  // ---------------------------------------------------------------------

  const UNWRAP_NONE: string := "called `Option::unwrap()` on a `None` value"
  const WRONG_LEAF_COUNT: string := "wrong number of leaves stored"
  const WRONG_ROW_COUNT: string := "wrong number of level three secondary nodes"
  const LEAF_NOT_REFERENCED: string := "leaf not referenced"
  const DUPLICATE_LEAVES: string := "duplicate leaves present"

  function Max(a: int, b: int): int {
    if a < b then b else a
  }

  /** `iter().max().unwrap()` of a non-empty sequence. */
  function MaxByte(s: seq<Byte>): (m: Byte)
    requires |s| > 0
    ensures m in s
    ensures forall i :: 0 <= i < |s| ==> s[i] <= m
  {
    if |s| == 1 then s[0] else Max(MaxByte(s[..|s| - 1]), s[|s| - 1])
  }

  /** The rows one after another: `iter().flat_map(|it| it.iter())`. */
  function Flatten(rows: seq<seq<Byte>>): (flat: seq<Byte>)
  {
    if rows == [] then [] else Flatten(rows[..|rows| - 1]) + rows[|rows| - 1]
  }

  /** Every entry of every row appears in the flattened rows, and nothing else. */
  lemma {:induction false} FlattenMembers(rows: seq<seq<Byte>>)
    ensures forall x :: x in Flatten(rows) <==> exists k, m :: 0 <= k < |rows| && 0 <= m < |rows[k]| && rows[k][m] == x
    ensures (forall k :: 0 <= k < |rows| ==> |rows[k]| == 64) ==> |Flatten(rows)| == 64 * |rows|
  {
    if rows != [] {
      var init := rows[..|rows| - 1];
      FlattenMembers(init);
      forall x ensures x in Flatten(rows) <==> exists k, m :: 0 <= k < |rows| && 0 <= m < |rows[k]| && rows[k][m] == x {
        if x in Flatten(init) {
          var k, m :| 0 <= k < |init| && 0 <= m < |init[k]| && init[k][m] == x;
          assert rows[k][m] == x;
        } else if x in rows[|rows| - 1] {
          var m :| 0 <= m < |rows[|rows| - 1]| && rows[|rows| - 1][m] == x;
          assert rows[|rows| - 1][m] == x;
        }
        if exists k, m :: 0 <= k < |rows| && 0 <= m < |rows[k]| && rows[k][m] == x {
          var k, m :| 0 <= k < |rows| && 0 <= m < |rows[k]| && rows[k][m] == x;
          if k < |init| {
            assert init[k][m] == x;
          } else {
            assert rows[|rows| - 1][m] in rows[|rows| - 1];
          }
        }
      }
    }
  }

  /** Leaf `i` is named by the second level or by some row. */
  predicate Referenced(t: CharTrie, i: nat) {
    i in t.level2 || i in Flatten(t.level3Rows)
  }

  predicate Distinct<T(==)>(s: seq<T>) {
    forall i, j :: 0 <= i < j < |s| ==> s[i] != s[j]
  }

  /** The largest leaf index the tables name. */
  function MaxLeafIndex(t: CharTrie): Byte
    requires Shaped(t) && |t.level3Rows| > 0
  {
    FlattenMembers(t.level3Rows);
    Max(MaxByte(t.level2), MaxByte(Flatten(t.level3Rows)))
  }

  /** What `assert_optimal` decides, check by check in its order: the
      maximum over the rows needs a row; the leaves must be exactly those up
      to the largest index named; likewise the rows up to the largest index
      of the third level; every leaf must be named; no two leaves may be
      equal. */
  function OptimalVerdict(t: CharTrie): Result<(), string>
    requires Shaped(t)
  {
    if |t.level3Rows| == 0 then Err(UNWRAP_NONE)
    else if |t.leaves| != MaxLeafIndex(t) + 1 then Err(WRONG_LEAF_COUNT)
    else if |t.level3Rows| != MaxByte(t.level3Index) + 1 then Err(WRONG_ROW_COUNT)
    else if exists i :: 0 <= i < |t.leaves| && !Referenced(t, i) then Err(LEAF_NOT_REFERENCED)
    else if !Distinct(t.leaves) then Err(DUPLICATE_LEAVES)
    else Ok(())
  }

  /** A trie that passes `assert_optimal` never panics in `contains`: every
      index the tables name is in range. */
  lemma OptimalInBounds(t: CharTrie, c: Char)
    requires Shaped(t) && OptimalVerdict(t).Ok?
    ensures PathInBounds(t, c)
    ensures Contains(t, c).Some?
  {
    FlattenMembers(t.level3Rows);
    if 0x800 <= c < 0x10000 {
      assert t.level2[(c - 0x800) / 64] <= MaxByte(t.level2);
    } else if 0x10000 <= c {
      var d := c - 0x10000;
      var row := t.level3Index[d / 4096];
      assert row <= MaxByte(t.level3Index);
      var leaf := t.level3Rows[row][(d / 64) % 64];
      assert leaf in Flatten(t.level3Rows);
    }
  }

  /** The distinct elements of `s`, as a `BTreeSet` or an `IndexSet` collects
      them. */
  function Elems<T(!new)>(s: seq<T>): (e: set<T>)
    ensures forall x :: x in e <==> x in s
  {
    if s == [] then {} else Elems(s[..|s| - 1]) + {s[|s| - 1]}
  }

  /** A sequence with one more element has distinct elements exactly when
      the shorter one has and the new element is not among them. */
  lemma DistinctSnoc<T>(s: seq<T>)
    requires s != []
    ensures Distinct(s) <==> Distinct(s[..|s| - 1]) && s[|s| - 1] !in s[..|s| - 1]
  {
    var init := s[..|s| - 1];
    if Distinct(init) && s[|s| - 1] !in init {
      forall i, j | 0 <= i < j < |s| ensures s[i] != s[j] {
        if j < |s| - 1 {
          assert s[i] == init[i] && s[j] == init[j];
        } else {
          assert s[i] in init;
        }
      }
    }
    if Distinct(s) {
      forall i, j | 0 <= i < j < |init| ensures init[i] != init[j] {
        assert init[i] == s[i] && init[j] == s[j];
      }
    }
  }

  /** Collecting into a set keeps the length exactly when no element repeats. */
  lemma {:induction false} ElemsCount<T(!new)>(s: seq<T>)
    ensures |Elems(s)| <= |s|
    ensures |Elems(s)| == |s| <==> Distinct(s)
  {
    if s != [] {
      var init := s[..|s| - 1];
      ElemsCount(init);
      DistinctSnoc(s);
      assert Elems(s) == Elems(init) + {s[|s| - 1]};
      if s[|s| - 1] in init {
        assert s[|s| - 1] in Elems(init);
        assert Elems(s) == Elems(init);
      } else {
        assert s[|s| - 1] !in Elems(init);
      }
    }
  }

  /** `assert_optimal`: its `for` loops mark every leaf index the second and
      third levels name; `Err` carries the message of the assertion that
      fails (or of the `unwrap` of the maximum over no rows). */
  method AssertOptimal(t: CharTrie) returns (r: Result<(), string>)
    requires Shaped(t)
    ensures r == OptimalVerdict(t)
  {
    if |t.level3Rows| == 0 {
      return Err(UNWRAP_NONE);
    }
    FlattenMembers(t.level3Rows);
    var maxLeafIndex := Max(MaxByte(t.level2), MaxByte(Flatten(t.level3Rows)));
    if |t.leaves| != maxLeafIndex + 1 {
      return Err(WRONG_LEAF_COUNT);
    }
    if |t.level3Rows| != MaxByte(t.level3Index) + 1 {
      return Err(WRONG_ROW_COUNT);
    }

    var referenced := new bool[maxLeafIndex + 1](_ => false);
    MarkAll(referenced, t.level2);
    for k := 0 to |t.level3Rows|
      invariant forall i :: 0 <= i < referenced.Length ==>
        (referenced[i] <==> i in t.level2 || i in Flatten(t.level3Rows[..k]))
    {
      assert t.level3Rows[..k + 1][..k] == t.level3Rows[..k];
      forall x | x in t.level3Rows[k] ensures x < referenced.Length {
        var m :| 0 <= m < |t.level3Rows[k]| && t.level3Rows[k][m] == x;
        assert t.level3Rows[k][m] in Flatten(t.level3Rows);
      }
      MarkAll(referenced, t.level3Rows[k]);
    }
    assert t.level3Rows[..|t.level3Rows|] == t.level3Rows;

    // `iter().enumerate().find(|&(_, &b)| !b)`
    for i := 0 to referenced.Length
      invariant forall j :: 0 <= j < referenced.Length ==> (referenced[j] <==> Referenced(t, j))
      invariant forall j :: 0 <= j < i ==> Referenced(t, j)
    {
      if !referenced[i] {
        return Err(LEAF_NOT_REFERENCED);
      }
    }

    var unique := Elems(t.leaves);
    ElemsCount(t.leaves);
    if |t.leaves| != |unique| {
      return Err(DUPLICATE_LEAVES);
    }
    return Ok(());
  }

  /** Sets the flag of every index `s` names; one `for` loop of
      `assert_optimal`. */
  method MarkAll(referenced: array<bool>, s: seq<Byte>)
    requires forall x :: x in s ==> x < referenced.Length
    modifies referenced
    ensures forall i :: 0 <= i < referenced.Length ==> (referenced[i] <==> old(referenced[i]) || i in s)
  {
    for k := 0 to |s|
      invariant forall i :: 0 <= i < referenced.Length ==> (referenced[i] <==> old(referenced[i]) || i in s[..k])
    {
      assert s[k] in s;
      referenced[s[k]] := true;
    }
    assert s[..|s|] == s;
  }

  /** A set inside another is no larger. */
  lemma {:induction false} SubsetCard<T>(a: set<T>, b: set<T>)
    requires a <= b
    ensures |a| <= |b|
    decreases a
  {
    if a != {} {
      var x :| x in a;
      SubsetCard(a - {x}, b - {x});
    }
  }

  // ---------------------------------------------------------------------
  // The ascii trie of the test new_with_ascii (src/trie/mod.rs:251-290)
  // ---------------------------------------------------------------------

  const ALL_ONES: Word := 0xFFFF_FFFF_FFFF_FFFF

  /** Shifting `2^n - 1` right by `j` leaves `2^(n-j) - 1`. */
  lemma {:induction false} ShrOnes(n: nat, j: nat)
    requires j <= n
    ensures Shr(Pow2(n) - 1, j) == Pow2(n - j) - 1
  {
    if j > 0 {
      assert (Pow2(n) - 1) / 2 == Pow2(n - 1) - 1;
      ShrOnes(n - 1, j - 1);
    }
  }

  /** Every bit of `u64::MAX` is set and no bit of `0` is. */
  lemma WordBits(j: nat)
    requires j < 64
    ensures Bit(ALL_ONES, j)
    ensures !Bit(0, j)
  {
    Pow2Is64();
    ShrOnes(64, j);
    assert Pow2(64 - j) == 2 * Pow2(64 - j - 1);
    ShrZero(j);
  }

  lemma {:induction false} ShrZero(j: nat)
    ensures Shr(0, j) == 0
  {
    if j > 0 {
      ShrZero(j - 1);
    }
  }

  /** The trie `new_with(|c| c.is_ascii())` generates (`TrieGen.NewWithAscii`
      proves it): the first two words of the first level full, everything
      else zero, one row and one leaf. */
  function AsciiTrie(): CharTrie {
    CharTrie(
      [ALL_ONES, ALL_ONES] + seq(30, _ => 0),
      seq(992, _ => 0),
      seq(256, _ => 0),
      [seq(64, _ => 0)],
      [0])
  }

  /** The ascii trie holds exactly the characters below 128 and never
      panics. */
  lemma AsciiTrieContains(c: Char)
    ensures Shaped(AsciiTrie())
    ensures Contains(AsciiTrie(), c) == Some(c < 128)
  {
    var t := AsciiTrie();
    WordBits(c % 64);
    if c < 0x800 {
      assert c < 128 <==> c / 64 < 2;
      assert t.level1[c / 64] == if c / 64 < 2 then ALL_ONES else 0;
    } else if c < 0x10000 {
      assert t.leaves[t.level2[(c - 0x800) / 64]] == 0;
    } else {
      var d := c - 0x10000;
      assert t.level3Index[d / 4096] == 0;
      assert t.level3Rows[0][(d / 64) % 64] == 0;
    }
  }

  /** The ascii trie passes `assert_optimal`. */
  lemma AsciiTrieOptimal()
    ensures Shaped(AsciiTrie())
    ensures OptimalVerdict(AsciiTrie()) == Ok(())
  {
    var t := AsciiTrie();
    AsciiTrieMaxima();
    assert t.level2[0] == 0;
  }

  /** The largest indices the ascii trie names: leaf 0 and row 0. */
  lemma AsciiTrieMaxima()
    ensures Shaped(AsciiTrie()) && MaxLeafIndex(AsciiTrie()) == 0
    ensures MaxByte(AsciiTrie().level3Index) == 0
  {
    var t := AsciiTrie();
    assert Flatten(t.level3Rows) == t.level3Rows[0];
    MaxByteZeros(t.level2);
    MaxByteZeros(t.level3Rows[0]);
    MaxByteZeros(t.level3Index);
  }

  /** `assert_optimal` checks the leaves but not the rows: a trie whose
      third level stores the same row twice passes it. */
  lemma OptimalAllowsDuplicateRows()
    ensures Shaped(DuplicateRowTrie())
    ensures DuplicateRowTrie().level3Rows[0] == DuplicateRowTrie().level3Rows[1]
    ensures OptimalVerdict(DuplicateRowTrie()) == Ok(())
  {
    var t := DuplicateRowTrie();
    DuplicateRowMaxima();
    assert t.level2[0] == 0;
  }

  /** The largest indices the duplicate-row trie names: leaf 0 and row 1. */
  lemma DuplicateRowMaxima()
    ensures Shaped(DuplicateRowTrie()) && MaxLeafIndex(DuplicateRowTrie()) == 0
    ensures MaxByte(DuplicateRowTrie().level3Index) == 1
  {
    var t := DuplicateRowTrie();
    var zeros := seq(64, _ => 0);
    assert t.level3Rows == [zeros, zeros];
    FlattenTwo(zeros, zeros);
    MaxByteZeros(t.level2);
    MaxByteZeros(zeros + zeros);
    forall j | 0 <= j < 256 ensures t.level3Index[j] <= 1 {
      if j >= 2 {
        assert t.level3Index[j] == seq(254, _ => 0)[j - 2];
      }
    }
    MaxByteIs(t.level3Index, 1);
  }

  /** An element no other exceeds is the maximum. */
  lemma MaxByteIs(s: seq<Byte>, i: nat)
    requires i < |s| && forall j :: 0 <= j < |s| ==> s[j] <= s[i]
    ensures MaxByte(s) == s[i]
  {
  }

  lemma FlattenTwo(a: seq<Byte>, b: seq<Byte>)
    ensures Flatten([a, b]) == a + b
  {
    assert [a, b][..1] == [a];
    assert Flatten([a]) == a;
  }

  /** The maximum of zeros is zero. */
  lemma MaxByteZeros(s: seq<Byte>)
    requires |s| > 0 && forall i :: 0 <= i < |s| ==> s[i] == 0
    ensures MaxByte(s) == 0
  {
  }

  /** The ascii trie with its one row stored twice and both copies named. */
  function DuplicateRowTrie(): CharTrie {
    CharTrie(
      [ALL_ONES, ALL_ONES] + seq(30, _ => 0),
      seq(992, _ => 0),
      [0, 1] + seq(254, _ => 0),
      [seq(64, _ => 0), seq(64, _ => 0)],
      [0])
  }
}
