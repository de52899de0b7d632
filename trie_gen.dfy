/** `CharTrie::new_with` (src/trie/mod.rs:162-240): builds the tables of a
    trie from a membership function.

    The Rust generator emits the tables as source code. This model returns
    the `CharTrie` that code evaluates to. Leaves and rows are interned in
    `IndexSet`s: a repeated 64-bit chunk shares one leaf and a repeated row
    shares one row index, and an index that does not fit in a `u8` fails
    the build. */
module TrieGen {
  import opened Wrappers
  import opened CharRanges
  import opened Tries

  /** `core::num::TryFromIntError`: an interned index above 255. */
  datatype TryFromIntError = TryFromIntError

  /** `indexmap::IndexSet`: distinct items in insertion order. */
  class IndexSet<K(==)> {
    var items: seq<K>

    ghost predicate Valid()
      reads this
    {
      Distinct(items)
    }

    /** `IndexSet::new`. */
    constructor New()
      ensures items == [] && Valid()
    {
      items := [];
    }

    /** `insert_full(k)`: the index of `k`, appending it first when it is
        new. */
    method InsertFull(k: K) returns (idx: nat, inserted: bool)
      requires Valid()
      modifies this
      ensures Valid()
      ensures idx < |items| && items[idx] == k
      ensures inserted <==> k !in old(items)
      ensures inserted ==> items == old(items) + [k] && idx == |old(items)|
      ensures !inserted ==> items == old(items)
    {
      var i := 0;
      while i < |items|
        invariant i <= |items|
        invariant k !in items[..i]
      {
        if items[i] == k {
          return i, false;
        }
        i := i + 1;
      }
      assert items[..i] == items;
      items := items + [k];
      return |items| - 1, true;
    }
  }

  /** `char::try_from(cp).map(f).unwrap_or(false)`: code points that are not
      characters (the surrogates) count as absent. */
  function BitAt(f: Char -> bool, cp: int): bool {
    if IsScalar(cp) then f(cp as Char) else false
  }

  /** The 64 membership bits from `base` on, packed least significant first:
      one leaf, or one word of the first level. */
  function Chunk(f: Char -> bool, base: int): Word {
    PackWord(seq(64, j => BitAt(f, base + j)))
  }

  /** Bit `j` of a chunk is the membership of the code point `base + j`. */
  lemma ChunkBit(f: Char -> bool, base: int, j: nat)
    requires j < 64
    ensures Bit(Chunk(f, base), j) == BitAt(f, base + j)
  {
    assert seq(64, j => BitAt(f, base + j))[j] == BitAt(f, base + j);
  }

  /** Where the chunks start: word `k` of the first level, entry `k` of the
      second, entry `m` of row `k` of the third. */
  function Level1Base(k: int): int { 64 * k }
  function Level2Base(k: int): int { 0x800 + 64 * k }
  function Level3Base(k: int, m: int): int { 0x10000 + 4096 * k + 64 * m }

  /** The 64 leaves of block `k` of the third level. */
  function Block(f: Char -> bool, k: int): seq<Word> {
    seq(64, m => Chunk(f, Level3Base(k, m)))
  }

  /** Every chunk the second and third levels need a leaf for. */
  function LeafChunks(f: Char -> bool): set<Word> {
    (set k | 0 <= k < 992 :: Chunk(f, Level2Base(k)))
      + (set k, m | 0 <= k < 256 && 0 <= m < 64 :: Chunk(f, Level3Base(k, m)))
  }

  lemma Level2ChunkNeeded(f: Char -> bool, k: int)
    requires 0 <= k < 992
    ensures Chunk(f, Level2Base(k)) in LeafChunks(f)
  {
  }

  lemma Level3ChunkNeeded(f: Char -> bool, k: int, m: int)
    requires 0 <= k < 256 && 0 <= m < 64
    ensures Chunk(f, Level3Base(k, m)) in LeafChunks(f)
  {
    assert Chunk(f, Level3Base(k, m)) in (set k, m | 0 <= k < 256 && 0 <= m < 64 :: Chunk(f, Level3Base(k, m)));
  }

  /** Every block the third level needs a row for. */
  function Blocks(f: Char -> bool): set<seq<Word>> {
    set k | 0 <= k < 256 :: Block(f, k)
  }

  lemma BlockNeeded(f: Char -> bool, k: int)
    requires 0 <= k < 256
    ensures Block(f, k) in Blocks(f)
  {
  }

  /** The leaves a row names. */
  function Decode(leaves: seq<Word>, row: seq<Byte>): seq<Word>
    requires forall m :: 0 <= m < |row| ==> row[m] < |leaves|
  {
    seq(|row|, m requires 0 <= m < |row| => leaves[row[m]])
  }

  /** The tables of `t` hold `f`: each first-level word is the chunk of its
      characters, and each second- and third-level entry leads to the leaf
      that is. */
  predicate Represents(t: CharTrie, f: Char -> bool)
    requires Shaped(t)
  {
    && (forall k :: 0 <= k < 32 ==> t.level1[k] == Chunk(f, Level1Base(k)))
    && (forall k :: 0 <= k < 992 ==>
          t.level2[k] < |t.leaves| && t.leaves[t.level2[k]] == Chunk(f, Level2Base(k)))
    && (forall k :: 0 <= k < 256 ==> t.level3Index[k] < |t.level3Rows|)
    && (forall k, m :: 0 <= k < 256 && 0 <= m < 64 ==>
          t.level3Rows[t.level3Index[k]][m] < |t.leaves|
          && t.leaves[t.level3Rows[t.level3Index[k]][m]] == Chunk(f, Level3Base(k, m)))
  }

  lemma ChunkSplit(d: nat)
    ensures 4096 * (d / 4096) + 64 * ((d / 64) % 64) + d % 64 == d
  {
    var q := d / 64;
    assert d == 64 * q + d % 64;
    assert q == 64 * (q / 64) + q % 64;
    assert q / 64 == d / 4096;
  }

  /** Tables that hold `f` answer `contains` with `f` for every character. */
  lemma RepresentsContains(t: CharTrie, f: Char -> bool, c: Char)
    requires Shaped(t) && Represents(t, f)
    ensures Tries.Contains(t, c) == Some(f(c))
  {
    if c < 0x800 {
      Level1Contains(t, f, c);
    } else if c < 0x10000 {
      Level2Contains(t, f, c);
    } else {
      Level3Contains(t, f, c);
    }
  }

  lemma Level1Contains(t: CharTrie, f: Char -> bool, c: Char)
    requires Shaped(t) && Represents(t, f) && c < 0x800
    ensures Tries.Contains(t, c) == Some(f(c))
  {
    var k, j := c / 64, c % 64;
    assert Level1Base(k) + j == c;
    ChunkBit(f, Level1Base(k), j);
    assert t.level1[k] == Chunk(f, Level1Base(k));
  }

  lemma Level2Contains(t: CharTrie, f: Char -> bool, c: Char)
    requires Shaped(t) && Represents(t, f) && 0x800 <= c < 0x10000
    ensures Tries.Contains(t, c) == Some(f(c))
  {
    var k, j := (c - 0x800) / 64, c % 64;
    assert Level2Base(k) + j == c;
    ChunkBit(f, Level2Base(k), j);
    assert t.leaves[t.level2[k]] == Chunk(f, Level2Base(k));
  }

  lemma Level3Contains(t: CharTrie, f: Char -> bool, c: Char)
    requires Shaped(t) && Represents(t, f) && 0x10000 <= c
    ensures Tries.Contains(t, c) == Some(f(c))
  {
    var d := c - 0x10000;
    var k, m, j := d / 4096, (d / 64) % 64, c % 64;
    ChunkSplit(d);
    assert j == d % 64;
    assert Level3Base(k, m) + j == c;
    ChunkBit(f, Level3Base(k, m), j);
    assert t.leaves[t.level3Rows[t.level3Index[k]][m]] == Chunk(f, Level3Base(k, m));
  }

  /** `level1`: the first 2048 membership bits as 32 words. */
  function Level1(f: Char -> bool): (level1: seq<Word>)
    ensures |level1| == 32
    ensures forall k, j :: 0 <= k < 32 && 0 <= j < 64 ==> Bit(level1[k], j) == BitAt(f, 64 * k + j)
  {
    var level1 := seq(32, k => Chunk(f, Level1Base(k)));
    forall k, j | 0 <= k < 32 && 0 <= j < 64 ensures Bit(level1[k], j) == BitAt(f, 64 * k + j) {
      ChunkBit(f, Level1Base(k), j);
    }
    level1
  }

  /** Collects the 64 bits of one chunk, one code point at a time. */
  method CollectChunk(f: Char -> bool, base: int) returns (w: Word)
    ensures w == Chunk(f, base)
  {
    var bits: seq<bool> := [];
    for j := 0 to 64
      invariant |bits| == j
      invariant forall i :: 0 <= i < j ==> bits[i] == BitAt(f, base + i)
    {
      var cp := base + j;
      bits := bits + [if IsScalar(cp) then f(cp as Char) else false];
    }
    assert bits == seq(64, j => BitAt(f, base + j));
    w := PackWord(bits);
  }

  /** The loop both `level2` and the inner loop of `level3` run: interns
      the chunk starting at each of `bases` in `leaves` and records its leaf
      index as a `u8`, failing on an index above 255. */
  method InternChunks(leaves: IndexSet<Word>, f: Char -> bool, bases: seq<int>, ghost walked: seq<Byte>)
    returns (r: Result<seq<Byte>, TryFromIntError>)
    requires leaves.Valid() && Numbered(walked, |leaves.items|)
    requires forall k :: 0 <= k < |bases| ==> Chunk(f, bases[k]) in LeafChunks(f)
    modifies leaves
    ensures leaves.Valid()
    ensures Grown(f, old(leaves.items), leaves.items)
    ensures r.Ok? ==> |r.value| == |bases| && Indexed(f, bases, leaves.items, r.value)
    ensures r.Ok? ==> forall i :: |old(leaves.items)| <= i < |leaves.items| ==> i in r.value
    ensures r.Ok? ==> Numbered(walked + r.value, |leaves.items|)
    ensures r.Err? ==> |leaves.items| > 256
  {
    ghost var before := leaves.items;
    var indices: seq<Byte> := [];
    assert walked + indices == walked;
    for k := 0 to |bases|
      invariant leaves.Valid()
      invariant Grown(f, before, leaves.items)
      invariant forall i :: |before| <= i < |leaves.items| ==> i in indices
      invariant |indices| == k && Indexed(f, bases[..k], leaves.items, indices)
      invariant Numbered(walked + indices, |leaves.items|)
    {
      var chunk := CollectChunk(f, bases[k]);
      ghost var prev := leaves.items;
      ghost var prevIndices := indices;
      var idx, inserted := leaves.InsertFull(chunk);
      assert Grown(f, prev, leaves.items) by {
        assert prev <= leaves.items;
      }
      GrownTrans(f, before, prev, leaves.items);
      if idx >= 256 {
        return Err(TryFromIntError);
      }
      indices := indices + [idx];
      IndexedStep(f, bases, k, prev, leaves.items, prevIndices, idx);
      NumberedStep(walked + prevIndices, |prev|, idx, |leaves.items|);
      assert walked + prevIndices + [idx] == walked + indices;
    }
    assert bases[..|bases|] == bases;
    return Ok(indices);
  }

  /** Entry `k` of `indices` names the leaf that is the chunk at `bases[k]`. */
  ghost predicate Indexed(f: Char -> bool, bases: seq<int>, items: seq<Word>, indices: seq<Byte>)
    requires |indices| == |bases|
  {
    forall k :: 0 <= k < |bases| ==> indices[k] < |items| && items[indices[k]] == Chunk(f, bases[k])
  }

  /** `s` numbers its values in order of first appearance, from 0 up to
      `n`: each value above 0 comes after an appearance of the one below
      it, so value `i` is the `i`-th distinct one met, and every value
      below `n` appears. This is how `insert_full` numbers the items of an
      `IndexSet` it is handed one after another. */
  predicate Numbered(s: seq<Byte>, n: int) {
    && (forall p :: 0 <= p < |s| ==> s[p] < n)
    && (forall i :: 0 <= i < n ==> i in s)
    && (forall p :: 0 <= p < |s| && s[p] > 0 ==> s[p] - 1 in s[..p])
  }

  /** Appending the index `insert_full` returns keeps the numbering: an
      item already present, or the next one. */
  lemma NumberedStep(s: seq<Byte>, n: nat, idx: Byte, n': nat)
    requires Numbered(s, n)
    requires (idx < n && n' == n) || (idx == n && n' == n + 1)
    ensures Numbered(s + [idx], n')
  {
    var s' := s + [idx];
    forall p | 0 <= p < |s'| && s'[p] > 0 ensures s'[p] - 1 in s'[..p] {
      if p < |s| {
        assert s'[..p] == s[..p];
      } else {
        assert s'[..p] == s;
      }
    }
    forall i | 0 <= i < n' ensures i in s' {
      if i < n {
        assert i in s;
      } else {
        assert s'[|s|] == i;
      }
    }
  }

  lemma IndexedStep(f: Char -> bool, bases: seq<int>, k: nat, prev: seq<Word>, now: seq<Word>, indices: seq<Byte>, idx: Byte)
    requires k < |bases| && |indices| == k && Indexed(f, bases[..k], prev, indices)
    requires |prev| <= |now| && now[..|prev|] == prev
    requires idx < |now| && now[idx] == Chunk(f, bases[k])
    ensures Indexed(f, bases[..k + 1], now, indices + [idx])
  {
    var next := indices + [idx];
    forall i | 0 <= i < k + 1
      ensures next[i] < |now| && now[next[i]] == Chunk(f, bases[..k + 1][i])
    {
      if i < k {
        assert next[i] == indices[i] && bases[..k + 1][i] == bases[..k][i];
        assert now[indices[i]] == prev[indices[i]];
      }
    }
  }

  /** `level2`: the leaf index of the chunk of each of the 992 blocks of 64
      code points from 0x800. */
  method Level2(leaves: IndexSet<Word>, f: Char -> bool, ghost walked: seq<Byte>) returns (r: Result<seq<Byte>, TryFromIntError>)
    requires leaves.Valid() && Numbered(walked, |leaves.items|)
    modifies leaves
    ensures leaves.Valid()
    ensures Grown(f, old(leaves.items), leaves.items)
    ensures r.Ok? ==> |r.value| == 992
    ensures r.Ok? ==> forall k :: 0 <= k < 992 ==>
      r.value[k] < |leaves.items| && leaves.items[r.value[k]] == Chunk(f, Level2Base(k))
    ensures r.Ok? ==> forall i :: |old(leaves.items)| <= i < |leaves.items| ==> i in r.value
    ensures r.Ok? ==> Numbered(walked + r.value, |leaves.items|)
    ensures r.Err? ==> |leaves.items| > 256
  {
    var bases := seq(992, k => Level2Base(k));
    forall k | 0 <= k < 992 ensures Chunk(f, bases[k]) in LeafChunks(f) {
      Level2ChunkNeeded(f, k);
    }
    r := InternChunks(leaves, f, bases, walked);
  }

  /** Leaf index `i` appears in some row. */
  predicate InRows(i: int, rows: seq<seq<Byte>>) {
    exists q, m :: 0 <= q < |rows| && 0 <= m < |rows[q]| && rows[q][m] == i
  }

  /** When the leaves interned are more than 256, so are the distinct chunks
      of `f`. */
  lemma TooManyLeaves(f: Char -> bool, leaves: seq<Word>)
    requires Distinct(leaves) && |leaves| > 256
    requires forall i :: 0 <= i < |leaves| ==> leaves[i] in LeafChunks(f)
    ensures |LeafChunks(f)| > 256
  {
    ElemsCount(leaves);
    SubsetCard(Elems(leaves), LeafChunks(f));
  }

  /** What the third level holds after `|first|` blocks: each recorded row
      index names a row; each row has 64 leaf indices in range and is named
      by some block; and the row of block `i` leads to its chunks. */
  ghost predicate RowsHold(f: Char -> bool, leaves: seq<Word>, rows: seq<seq<Byte>>, first: seq<Byte>) {
    && (forall i :: 0 <= i < |first| ==> first[i] < |rows|)
    && (forall q :: 0 <= q < |rows| ==>
          |rows[q]| == 64 && (forall m :: 0 <= m < 64 ==> rows[q][m] < |leaves|) && q in first)
    && (forall i, m :: 0 <= i < |first| && 0 <= m < 64 ==>
          leaves[rows[first[i]][m]] == Chunk(f, Level3Base(i, m)))
  }

  /** When the rows the third level interned are more than 256, so are the
      distinct blocks of `f`: distinct rows over distinct leaves name
      distinct blocks. Row `idx` is the one just interned for block `k`,
      which `first` does not record yet. */
  lemma TooManyBlocks(f: Char -> bool, leaves: seq<Word>, rows: seq<seq<Byte>>, first: seq<Byte>, idx: nat, k: nat)
    requires Distinct(leaves) && Distinct(rows) && |rows| > 256
    requires idx < |rows| && k < 256 && |first| <= 256
    requires forall q :: 0 <= q < |rows| && q != idx ==>
      |rows[q]| == 64 && (forall m :: 0 <= m < 64 ==> rows[q][m] < |leaves|) && q in first
    requires |rows[idx]| == 64 && forall m :: 0 <= m < 64 ==> rows[idx][m] < |leaves|
    requires forall i :: 0 <= i < |first| ==> first[i] < |rows|
    requires forall i, m :: 0 <= i < |first| && 0 <= m < 64 ==>
      leaves[rows[first[i]][m]] == Chunk(f, Level3Base(i, m))
    requires forall m :: 0 <= m < 64 ==> leaves[rows[idx][m]] == Chunk(f, Level3Base(k, m))
    ensures |Blocks(f)| > 256
  {
    var decoded := seq(|rows|, q requires 0 <= q < |rows| => Decode(leaves, rows[q]));
    forall q | 0 <= q < |rows| ensures decoded[q] in Blocks(f) {
      if q == idx {
        assert decoded[q] == Block(f, k);
        BlockNeeded(f, k);
      } else {
        assert q in first;
        var i :| 0 <= i < |first| && first[i] == q;
        assert decoded[q] == Block(f, i);
        BlockNeeded(f, i);
      }
    }
    forall q1, q2 | 0 <= q1 < q2 < |rows| ensures decoded[q1] != decoded[q2] {
      assert rows[q1] != rows[q2];
      var m :| 0 <= m < 64 && rows[q1][m] != rows[q2][m];
      assert decoded[q1][m] != decoded[q2][m];
    }
    ElemsCount(decoded);
    SubsetCard(Elems(decoded), Blocks(f));
  }

  /** The rows so far and a new one interned at `idx` for block `|first|`
      meet what `TooManyBlocks` needs. */
  lemma RowsHoldOverflow(f: Char -> bool, leaves: seq<Word>, rows: seq<seq<Byte>>, rows': seq<seq<Byte>>,
                         first: seq<Byte>, row: seq<Byte>, idx: nat)
    requires RowsHold(f, leaves, rows, first) && Distinct(leaves) && Distinct(rows')
    requires |first| < 256
    requires |row| == 64 && forall m :: 0 <= m < 64 ==> row[m] < |leaves|
    requires forall m :: 0 <= m < 64 ==> leaves[row[m]] == Chunk(f, Level3Base(|first|, m))
    requires |rows| <= |rows'| && rows'[..|rows|] == rows && idx < |rows'| && rows'[idx] == row
    requires |rows'| <= |rows| + 1 && (|rows'| == |rows| + 1 ==> idx == |rows|)
    requires 256 <= idx
    ensures |Blocks(f)| > 256
  {
    assert forall q :: 0 <= q < |rows| ==> rows'[q] == rows[q];
    TooManyBlocks(f, leaves, rows', first, idx, |first|);
  }

  /** Appending leaves keeps what the rows say. */
  lemma RowsHoldGrow(f: Char -> bool, leaves: seq<Word>, grown: seq<Word>, rows: seq<seq<Byte>>, first: seq<Byte>)
    requires RowsHold(f, leaves, rows, first)
    requires |leaves| <= |grown| && grown[..|leaves|] == leaves
    ensures RowsHold(f, grown, rows, first)
  {
    assert forall x :: 0 <= x < |leaves| ==> grown[x] == leaves[x];
  }

  /** Recording the row of the next block keeps what the rows say, whether
      the row is new or shared. */
  lemma RowsHoldStep(f: Char -> bool, leaves: seq<Word>, rows: seq<seq<Byte>>, rows': seq<seq<Byte>>,
                     first: seq<Byte>, row: seq<Byte>, idx: Byte)
    requires RowsHold(f, leaves, rows, first)
    requires |row| == 64 && forall m :: 0 <= m < 64 ==> row[m] < |leaves|
    requires forall m :: 0 <= m < 64 ==> leaves[row[m]] == Chunk(f, Level3Base(|first|, m))
    requires |rows| <= |rows'| && rows'[..|rows|] == rows && idx < |rows'| && rows'[idx] == row
    requires |rows'| <= |rows| + 1 && (|rows'| == |rows| + 1 ==> idx == |rows|)
    ensures RowsHold(f, leaves, rows', first + [idx])
  {
    var first' := first + [idx];
    assert forall q :: 0 <= q < |rows| ==> rows'[q] == rows[q];
    forall q | 0 <= q < |rows'| ensures q in first' {
      if q < |rows| {
        assert q in first;
        var i :| 0 <= i < |first| && first[i] == q;
        assert first'[i] == q;
      } else {
        assert first'[|first|] == q;
      }
    }
  }

  /** Every leaf from `before` on is named by some row, after a row that
      names the leaves of the latest step is recorded. */
  lemma InRowsStep(before: nat, prev: nat, leaves: nat, rows: seq<seq<Byte>>, rows': seq<seq<Byte>>, row: seq<Byte>, idx: nat)
    requires forall i :: before <= i < prev ==> InRows(i, rows)
    requires forall i :: prev <= i < leaves ==> i in row
    requires |rows| <= |rows'| && rows'[..|rows|] == rows && idx < |rows'| && rows'[idx] == row
    ensures forall i :: before <= i < leaves ==> InRows(i, rows')
  {
    forall i | before <= i < leaves ensures InRows(i, rows') {
      if prev <= i {
        assert i in row;
        var m :| 0 <= m < |row| && row[m] == i;
        assert rows'[idx][m] == i;
      } else {
        assert InRows(i, rows);
        var q, m :| 0 <= q < |rows| && 0 <= m < |rows[q]| && rows[q][m] == i;
        assert rows'[q] == rows[q];
        assert rows'[q][m] == i;
      }
    }
  }

  /** The leaves only grew since `before`, and only by chunks `f` needs. */
  ghost predicate Grown(f: Char -> bool, before: seq<Word>, now: seq<Word>) {
    && |before| <= |now| && now[..|before|] == before
    && forall i :: |before| <= i < |now| ==> now[i] in LeafChunks(f)
  }

  lemma GrownTrans(f: Char -> bool, a: seq<Word>, b: seq<Word>, c: seq<Word>)
    requires Grown(f, a, b) && Grown(f, b, c)
    ensures Grown(f, a, c)
  {
    assert c[..|a|] == b[..|b|][..|a|] by {
      assert c[..|b|] == b;
    }
  }

  /** One turn of the loop of `level3`: the leaf indices of the 64 chunks of
      block `|first|`, interned as a row in `second`; its row index, or the
      failure of an index above 255. */
  method Level3Block(leaves: IndexSet<Word>, second: IndexSet<seq<Byte>>, f: Char -> bool,
                     first: seq<Byte>, ghost before: seq<Word>, ghost walked: seq<Byte>)
    returns (r: Result<Byte, TryFromIntError>)
    requires leaves as object != second as object
    requires leaves.Valid() && second.Valid() && |first| < 256
    requires Grown(f, before, leaves.items)
    requires RowsHold(f, leaves.items, second.items, first)
    requires forall i :: |before| <= i < |leaves.items| ==> InRows(i, second.items)
    requires Numbered(walked, |leaves.items|) && Numbered(first, |second.items|)
    modifies leaves, second
    ensures leaves.Valid() && second.Valid()
    ensures Grown(f, before, leaves.items)
    ensures |old(second.items)| <= |second.items| && second.items[..|old(second.items)|] == old(second.items)
    ensures r.Ok? ==> RowsHold(f, leaves.items, second.items, first + [r.value])
    ensures r.Ok? ==> forall i :: |before| <= i < |leaves.items| ==> InRows(i, second.items)
    ensures r.Ok? ==> r.value < |second.items| && Numbered(walked + second.items[r.value], |leaves.items|)
    ensures r.Ok? ==> Numbered(first + [r.value], |second.items|)
    ensures r.Err? ==> |leaves.items| > 256 || |Blocks(f)| > 256
  {
    var k := |first|;
    var bases := seq(64, m => Level3Base(k, m));
    forall m | 0 <= m < 64 ensures Chunk(f, bases[m]) in LeafChunks(f) {
      Level3ChunkNeeded(f, k, m);
    }
    ghost var prevLeaves := leaves.items;
    var row := InternChunks(leaves, f, bases, walked);
    GrownTrans(f, before, prevLeaves, leaves.items);
    if row.Err? {
      return Err(row.error);
    }
    RowsHoldGrow(f, prevLeaves, leaves.items, second.items, first);
    ghost var prevRows := second.items;
    var idx, inserted := second.InsertFull(row.value);
    assert second.items[..|prevRows|] == prevRows by {
      assert prevRows <= second.items;
    }
    if idx >= 256 {
      RowsHoldOverflow(f, leaves.items, prevRows, second.items, first, row.value, idx);
      return Err(TryFromIntError);
    }
    InRowsStep(|before|, |prevLeaves|, |leaves.items|, prevRows, second.items, row.value, idx);
    RowsHoldStep(f, leaves.items, prevRows, second.items, first, row.value, idx);
    NumberedStep(first, |prevRows|, idx, |second.items|);
    return Ok(idx);
  }

  /** `level3`: for each of the 256 blocks of 4096 code points from 0x10000,
      the row of the leaf indices of its 64 chunks, interned in `second`;
      `first` records each block's row index. */
  method Level3(leaves: IndexSet<Word>, f: Char -> bool, ghost walked: seq<Byte>)
    returns (r: Result<(seq<Byte>, seq<seq<Byte>>), TryFromIntError>)
    requires leaves.Valid() && Numbered(walked, |leaves.items|)
    modifies leaves
    ensures leaves.Valid()
    ensures Grown(f, old(leaves.items), leaves.items)
    ensures r.Ok? ==> |r.value.0| == 256 && Distinct(r.value.1)
    ensures r.Ok? ==> RowsHold(f, leaves.items, r.value.1, r.value.0)
    ensures r.Ok? ==> forall i :: |old(leaves.items)| <= i < |leaves.items| ==> InRows(i, r.value.1)
    ensures r.Ok? ==> Numbered(r.value.0, |r.value.1|)
    ensures r.Ok? ==> Numbered(walked + Flatten(Picked(r.value.1, r.value.0)), |leaves.items|)
    ensures r.Err? ==> |leaves.items| > 256 || |Blocks(f)| > 256
  {
    ghost var before := leaves.items;
    var first: seq<Byte> := [];
    var second := new IndexSet<seq<Byte>>.New();
    ghost var picked: seq<seq<Byte>> := [];
    WalkStart(walked);
    for k := 0 to 256
      invariant leaves.Valid() && second.Valid()
      invariant Grown(f, before, leaves.items)
      invariant |first| == k
      invariant RowsHold(f, leaves.items, second.items, first)
      invariant forall i :: |before| <= i < |leaves.items| ==> InRows(i, second.items)
      invariant Numbered(first, |second.items|)
      invariant PickedRows(second.items, first, picked)
      invariant Numbered(walked + Flatten(picked), |leaves.items|)
    {
      ghost var prevRows := second.items;
      var idx := Level3Block(leaves, second, f, first, before, walked + Flatten(picked));
      if idx.Err? {
        return Err(idx.error);
      }
      PickedStep(prevRows, second.items, first, picked, idx.value);
      WalkSnoc(walked, picked, second.items[idx.value]);
      first := first + [idx.value];
      picked := picked + [second.items[idx.value]];
    }
    assert Picked(second.items, first) == picked;
    return Ok((first, second.items));
  }

  /** The row each block of the third level is led to, block by block. */
  function Picked(rows: seq<seq<Byte>>, index: seq<Byte>): (picked: seq<seq<Byte>>)
    requires forall k :: 0 <= k < |index| ==> index[k] < |rows|
    ensures |picked| == |index| && forall k :: 0 <= k < |index| ==> picked[k] == rows[index[k]]
  {
    seq(|index|, k requires 0 <= k < |index| => rows[index[k]])
  }

  /** `picked` lists the rows `first` leads to. */
  ghost predicate PickedRows(rows: seq<seq<Byte>>, first: seq<Byte>, picked: seq<seq<Byte>>) {
    |picked| == |first| && forall k :: 0 <= k < |first| ==> first[k] < |rows| && rows[first[k]] == picked[k]
  }

  /** Rows that only grew at the end still lead the recorded blocks to the
      same rows, and the next block to row `idx`. */
  lemma PickedStep(rows: seq<seq<Byte>>, rows': seq<seq<Byte>>, first: seq<Byte>, picked: seq<seq<Byte>>, idx: Byte)
    requires PickedRows(rows, first, picked)
    requires |rows| <= |rows'| && rows'[..|rows|] == rows && idx < |rows'|
    ensures PickedRows(rows', first + [idx], picked + [rows'[idx]])
  {
    forall k | 0 <= k < |first| ensures rows'[first[k]] == rows[first[k]] {
      assert rows'[..|rows|][first[k]] == rows'[first[k]];
    }
  }

  lemma WalkSnoc(walked: seq<Byte>, rows: seq<seq<Byte>>, row: seq<Byte>)
    ensures walked + Flatten(rows + [row]) == walked + Flatten(rows) + row
  {
    assert (rows + [row])[..|rows|] == rows;
  }

  lemma WalkStart(walked: seq<Byte>)
    ensures walked + Flatten([]) == walked
  {
  }

  /** The tables the generator builds: every index in range, every leaf
      named by the second level or a row, every row named by the third
      level, and no leaf or row stored twice. */
  predicate Tight(t: CharTrie)
    requires Shaped(t)
  {
    && |t.level3Rows| > 0
    && (forall k :: 0 <= k < 992 ==> t.level2[k] < |t.leaves|)
    && (forall q, m :: 0 <= q < |t.level3Rows| && 0 <= m < 64 ==> t.level3Rows[q][m] < |t.leaves|)
    && (forall k :: 0 <= k < 256 ==> t.level3Index[k] < |t.level3Rows|)
    && (forall i :: 0 <= i < |t.leaves| ==> i in t.level2 || InRows(i, t.level3Rows))
    && (forall q :: 0 <= q < |t.level3Rows| ==> q in t.level3Index)
    && Distinct(t.leaves)
    && Distinct(t.level3Rows)
  }

  /** The leaf indices in the order the generator interns them: the second
      level, then the row of each block of the third level in turn. */
  function LeafWalk(t: CharTrie): (walk: seq<Byte>)
    requires Shaped(t) && Tight(t)
    ensures |walk| == 992 + 64 * 256
  {
    FlattenMembers(Picked(t.level3Rows, t.level3Index));
    t.level2 + Flatten(Picked(t.level3Rows, t.level3Index))
  }

  /** Leaves are numbered in the order the generator first meets their
      chunks along `LeafWalk`, and rows in the order the blocks first need
      them: leaf `i` is the `i`-th distinct chunk, row `q` the `q`-th
      distinct block. */
  predicate FirstSeenOrder(t: CharTrie)
    requires Shaped(t) && Tight(t)
  {
    Numbered(LeafWalk(t), |t.leaves|) && Numbered(t.level3Index, |t.level3Rows|)
  }

  /** Tight tables pass `assert_optimal`. */
  lemma TightIsOptimal(t: CharTrie)
    requires Shaped(t) && Tight(t)
    ensures OptimalVerdict(t) == Ok(())
  {
    FlattenMembers(t.level3Rows);
    var flat := Flatten(t.level3Rows);
    var n := |t.leaves|;
    assert t.level2[0] < n;
    assert MaxLeafIndex(t) + 1 == n by {
      assert MaxByte(t.level2) < n;
      assert MaxByte(flat) < n by {
        var q, m :| 0 <= q < |t.level3Rows| && 0 <= m < |t.level3Rows[q]| && t.level3Rows[q][m] == MaxByte(flat);
      }
      if n - 1 in t.level2 {
        assert n - 1 <= MaxByte(t.level2);
      } else {
        assert InRows(n - 1, t.level3Rows);
        assert n - 1 in flat;
      }
    }
    assert |t.level3Rows| == MaxByte(t.level3Index) + 1 by {
      assert |t.level3Rows| - 1 in t.level3Index;
    }
    forall i | 0 <= i < n ensures Referenced(t, i) {
      if i !in t.level2 {
        assert InRows(i, t.level3Rows);
      }
    }
  }

  /** A trie that holds `f` and passes `assert_optimal` exists only when `f`
      has at most 256 distinct chunks above 0x800: each has its own leaf,
      and the leaves are indexed by `u8`. */
  lemma OptimalLeafBound(t: CharTrie, f: Char -> bool)
    requires Shaped(t) && Represents(t, f) && OptimalVerdict(t).Ok?
    ensures |LeafChunks(f)| <= 256
  {
    assert |t.leaves| <= 256;
    forall x | x in LeafChunks(f) ensures x in Elems(t.leaves) {
      if x in (set k | 0 <= k < 992 :: Chunk(f, Level2Base(k))) {
        var k :| 0 <= k < 992 && x == Chunk(f, Level2Base(k));
        assert t.leaves[t.level2[k]] == x;
      } else {
        var k, m :| 0 <= k < 256 && 0 <= m < 64 && x == Chunk(f, Level3Base(k, m));
        assert t.leaves[t.level3Rows[t.level3Index[k]][m]] == x;
      }
    }
    ElemsCount(t.leaves);
    SubsetCard(LeafChunks(f), Elems(t.leaves));
  }

  /** Likewise at most 256 distinct blocks above 0x10000: each has its own
      row, and the rows are indexed by `u8`. */
  lemma OptimalBlockBound(t: CharTrie, f: Char -> bool)
    requires Shaped(t) && Represents(t, f) && OptimalVerdict(t).Ok?
    ensures |Blocks(f)| <= 256
  {
    FlattenMembers(t.level3Rows);
    var rows := t.level3Rows;
    assert |rows| <= 256;
    forall q, m | 0 <= q < |rows| && 0 <= m < |rows[q]| ensures rows[q][m] < |t.leaves| {
      assert rows[q][m] in Flatten(rows);
    }
    var decoded := seq(|rows|, q requires 0 <= q < |rows| => Decode(t.leaves, rows[q]));
    forall b | b in Blocks(f) ensures b in Elems(decoded) {
      var k :| 0 <= k < 256 && b == Block(f, k);
      assert decoded[t.level3Index[k]] == b;
    }
    ElemsCount(decoded);
    SubsetCard(Blocks(f), Elems(decoded));
  }

  /** The tables `new_with` assembles hold `f` and are tight: `mid` is the
      leaf table after the second level, whose leaves it names; the third
      level names the rest. */
  lemma AssembledHolds(f: Char -> bool, t: CharTrie, mid: seq<Word>)
    requires t.level1 == Level1(f) && |t.level2| == 992 && |t.level3Index| == 256
    requires forall k :: 0 <= k < 992 ==> t.level2[k] < |mid| && mid[t.level2[k]] == Chunk(f, Level2Base(k))
    requires forall i :: 0 <= i < |mid| ==> i in t.level2
    requires |mid| <= |t.leaves| && t.leaves[..|mid|] == mid
    requires RowsHold(f, t.leaves, t.level3Rows, t.level3Index)
    requires forall i :: |mid| <= i < |t.leaves| ==> InRows(i, t.level3Rows)
    requires Distinct(t.leaves) && Distinct(t.level3Rows)
    ensures Shaped(t) && Represents(t, f) && Tight(t)
  {
    assert forall i :: 0 <= i < |mid| ==> t.leaves[i] == mid[i];
    assert t.level3Index[0] < |t.level3Rows|;
  }

  /** `new_with(f)`: the trie that holds `f`, built in the order of the Rust
      code (first level, then the second and the third, interning leaves and
      rows as it goes). It fails exactly when `f` has more than 256
      distinct chunks above 0x800 or more than 256 distinct blocks above
      0x10000; otherwise the trie answers `contains` with `f` for every
      character and passes `assert_optimal`. */
  method NewWith(f: Char -> bool) returns (r: Result<CharTrie, TryFromIntError>)
    ensures r.Ok? ==> Shaped(r.value) && Represents(r.value, f) && Tight(r.value)
    ensures r.Ok? ==> FirstSeenOrder(r.value)
    ensures r.Ok? ==> forall c: Char :: Tries.Contains(r.value, c) == Some(f(c))
    ensures r.Ok? ==> OptimalVerdict(r.value) == Ok(())
    ensures r.Err? <==> |LeafChunks(f)| > 256 || |Blocks(f)| > 256
  {
    var leaves := new IndexSet<Word>.New();
    var level1 := Level1(f);
    var level2 := Level2(leaves, f, []);
    if level2.Err? {
      TooManyLeaves(f, leaves.items);
      return Err(level2.error);
    }
    ghost var mid := leaves.items;
    assert [] + level2.value == level2.value;
    var level3 := Level3(leaves, f, level2.value);
    if level3.Err? {
      if |leaves.items| > 256 {
        GrownTrans(f, [], mid, leaves.items);
        TooManyLeaves(f, leaves.items);
      }
      return Err(level3.error);
    }
    var t := CharTrie(level1, level2.value, level3.value.0, level3.value.1, leaves.items);
    AssembledHolds(f, t, mid);
    TightIsOptimal(t);
    forall c: Char ensures Tries.Contains(t, c) == Some(f(c)) {
      RepresentsContains(t, f, c);
    }
    OptimalLeafBound(t, f);
    OptimalBlockBound(t, f);
    return Ok(t);
  }

  // ---------------------------------------------------------------------
  // The test new_with_ascii (src/trie/mod.rs:251-290)
  // ---------------------------------------------------------------------

  /** `char::is_ascii`. */
  predicate IsAscii(c: Char) {
    c < 128
  }

  /** Sixty-four equal bits pack into `u64::MAX` or `0`. */
  lemma {:induction false} PackSame(b: bool, n: nat)
    ensures Pack(seq(n, _ => b)) == if b then Pow2(n) - 1 else 0
  {
    if n > 0 {
      assert seq(n, _ => b)[1..] == seq(n - 1, _ => b);
      PackSame(b, n - 1);
    }
  }

  /** The chunks of `is_ascii`: all ones below 128 and zero from 128 on. */
  lemma AsciiChunk(base: int)
    requires base == 0 || base == 64 || base >= 128
    ensures Chunk(IsAscii, base) == if base < 128 then ALL_ONES else 0
  {
    var b := base < 128;
    var bits := seq(64, j => BitAt(IsAscii, base + j));
    forall j | 0 <= j < 64 ensures bits[j] == b {
      assert bits[j] == BitAt(IsAscii, base + j);
      if b {
        assert IsScalar(base + j);
        assert IsAscii((base + j) as Char);
      }
    }
    assert bits == seq(64, _ => b);
    PackSame(b, 64);
    Pow2Is64();
  }

  /** The first level of any table holding `is_ascii` is the test's
      `ascii` array. */
  lemma AsciiLevel1(t: CharTrie)
    requires Shaped(t) && Represents(t, IsAscii)
    ensures t.level1 == AsciiTrie().level1
  {
    forall k | 0 <= k < 32 ensures t.level1[k] == AsciiTrie().level1[k] {
      AsciiChunk(Level1Base(k));
    }
  }

  /** Tight tables holding `is_ascii` store the one leaf `0`: every leaf
      they name is a chunk from 0x800 on, and those are all zero. */
  lemma AsciiLeaves(t: CharTrie)
    requires Shaped(t) && Represents(t, IsAscii) && Tight(t)
    ensures t.leaves == [0]
  {
    forall i | 0 <= i < |t.leaves| ensures t.leaves[i] == 0 {
      if i in t.level2 {
        var k :| 0 <= k < 992 && t.level2[k] == i;
        AsciiChunk(Level2Base(k));
      } else {
        var q, m :| 0 <= q < |t.level3Rows| && 0 <= m < |t.level3Rows[q]| && t.level3Rows[q][m] == i;
        assert q in t.level3Index;
        var k :| 0 <= k < 256 && t.level3Index[k] == q;
        AsciiChunk(Level3Base(k, m));
      }
    }
    assert t.level2[0] < |t.leaves|;
    AllSame(t.leaves, 0);
  }

  /** A sequence of one repeated value has no two distinct entries once
      it is longer than one. */
  lemma AllSame<T>(s: seq<T>, x: T)
    requires forall i :: 0 <= i < |s| ==> s[i] == x
    ensures Distinct(s) ==> |s| <= 1
  {
    if |s| > 1 {
      assert s[0] == s[1];
    }
  }

  /** With one leaf, the tight tables hold one row of zeros, and every
      index is zero. */
  lemma AsciiRows(t: CharTrie)
    requires Shaped(t) && Tight(t) && |t.leaves| == 1
    ensures t.level2 == AsciiTrie().level2
    ensures t.level3Rows == AsciiTrie().level3Rows
    ensures t.level3Index == AsciiTrie().level3Index
  {
    forall q | 0 <= q < |t.level3Rows| ensures t.level3Rows[q] == seq(64, _ => 0) {
      assert forall m :: 0 <= m < 64 ==> t.level3Rows[q][m] == 0;
    }
    if |t.level3Rows| > 1 {
      assert t.level3Rows[0] == t.level3Rows[1];
    }
  }

  /** The only tight tables holding `is_ascii` are the ones the test
      expects `new_with(|c| c.is_ascii())` to generate. */
  lemma AsciiGenerated(t: CharTrie)
    requires Shaped(t) && Represents(t, IsAscii) && Tight(t)
    ensures t == AsciiTrie()
  {
    AsciiLevel1(t);
    AsciiLeaves(t);
    AsciiRows(t);
  }

  /** And the ascii trie is such tables, numbered as the generator
      numbers them; so `is_ascii` needs few enough leaves and rows. */
  lemma AsciiTrieGenerated()
    ensures Shaped(AsciiTrie()) && Represents(AsciiTrie(), IsAscii)
    ensures Tight(AsciiTrie()) && FirstSeenOrder(AsciiTrie())
    ensures |LeafChunks(IsAscii)| <= 256 && |Blocks(IsAscii)| <= 256
  {
    var t := AsciiTrie();
    AsciiRepresents();
    AsciiOrder();
    AsciiTrieOptimal();
    OptimalLeafBound(t, IsAscii);
    OptimalBlockBound(t, IsAscii);
  }

  /** The ascii trie holds `is_ascii`. */
  lemma AsciiRepresents()
    ensures Shaped(AsciiTrie()) && Represents(AsciiTrie(), IsAscii)
  {
    var t := AsciiTrie();
    forall k | 0 <= k < 32 ensures t.level1[k] == Chunk(IsAscii, Level1Base(k)) {
      AsciiChunk(Level1Base(k));
    }
    forall k | 0 <= k < 992 ensures t.leaves[t.level2[k]] == Chunk(IsAscii, Level2Base(k)) {
      AsciiChunk(Level2Base(k));
    }
    forall k, m | 0 <= k < 256 && 0 <= m < 64
      ensures t.leaves[t.level3Rows[t.level3Index[k]][m]] == Chunk(IsAscii, Level3Base(k, m))
    {
      AsciiChunk(Level3Base(k, m));
    }
  }

  /** The ascii trie is tight. */
  lemma AsciiTight()
    ensures Shaped(AsciiTrie()) && Tight(AsciiTrie())
  {
    var t := AsciiTrie();
    assert t.level2[0] == 0 && t.level3Index[0] == 0;
  }

  /** The leaf walk of the ascii trie is all zeros. */
  lemma AsciiWalk()
    ensures Shaped(AsciiTrie()) && Tight(AsciiTrie())
    ensures forall p :: 0 <= p < |LeafWalk(AsciiTrie())| ==> LeafWalk(AsciiTrie())[p] == 0
  {
    AsciiTight();
    var t := AsciiTrie();
    var picked := Picked(t.level3Rows, t.level3Index);
    FlattenMembers(picked);
    forall p | 0 <= p < |LeafWalk(t)| ensures LeafWalk(t)[p] == 0 {
      if p >= 992 {
        assert LeafWalk(t)[p] in Flatten(picked);
      }
    }
  }

  /** The ascii trie is numbered as the generator numbers it. */
  lemma AsciiOrder()
    ensures Shaped(AsciiTrie()) && Tight(AsciiTrie()) && FirstSeenOrder(AsciiTrie())
  {
    AsciiWalk();
    NumberedZeros(LeafWalk(AsciiTrie()));
    NumberedZeros(AsciiTrie().level3Index);
  }

  /** Zeros number one value. */
  lemma NumberedZeros(s: seq<Byte>)
    requires |s| > 0 && forall p :: 0 <= p < |s| ==> s[p] == 0
    ensures Numbered(s, 1)
  {
    assert s[0] == 0;
  }

  /** The test `new_with_ascii`: `new_with(|c| c.is_ascii())` succeeds and
      gives the ascii trie. */
  method NewWithAscii() returns (r: Result<CharTrie, TryFromIntError>)
    ensures r == Ok(AsciiTrie())
  {
    r := NewWith(IsAscii);
    AsciiTrieGenerated();
    AsciiGenerated(r.value);
  }
}
