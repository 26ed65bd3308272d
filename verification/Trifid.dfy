/**
  * `Trifid`: the trifid fractionation cipher over a cube of `layers` grids
  * of `gridSize` by `gridSize` characters. A character stands for its
  * (layer, row, column) coordinates; within each block of `groupSize`
  * characters the coordinates are written out as a row of layers, a row of
  * rows and a row of columns, and those rows are read back three values at
  * a time as the coordinates of the output characters.
  */
module Trifids {
  import opened Primitives
  import opened Trigrams

  /** A cell of the cube: the `Tuple<byte, byte, byte>` that `Encode(char)` returns. */
  datatype Coord = Coord(layer: int, row: int, column: int)

  /** The cube's characters by layer, row and column, as the jagged `TrifidCube` holds them. */
  type Cube = seq<seq<seq<char>>>

  /** `layers` grids of `size` rows of `size` characters. */
  ghost predicate Shaped(cells: Cube, layers: nat, size: nat)
  {
    |cells| == layers &&
    forall l :: 0 <= l < layers ==> |cells[l]| == size && forall r :: 0 <= r < size ==> |cells[l][r]| == size
  }

  /** Indexing the jagged cube with `p` stays within every bound. */
  predicate InCube(cells: Cube, p: Coord)
  {
    0 <= p.layer < |cells| && 0 <= p.row < |cells[p.layer]| && 0 <= p.column < |cells[p.layer][p.row]|
  }

  function At(cells: Cube, p: Coord): char
    requires InCube(cells, p)
  {
    cells[p.layer][p.row][p.column]
  }

  /** No character occupies two cells. */
  ghost predicate DistinctCells(cells: Cube)
  {
    forall p, q :: InCube(cells, p) && InCube(cells, q) && At(cells, p) == At(cells, q) ==> p == q
  }

  /** Some cell holds `ch`. */
  ghost predicate Contains(cells: Cube, ch: char)
  {
    exists p :: InCube(cells, p) && At(cells, p) == ch
  }

  /** Two cubes of the same shape that agree on every cell are equal. */
  lemma CubeEqual(a: Cube, b: Cube, layers: nat, size: nat)
    requires Shaped(a, layers, size) && Shaped(b, layers, size)
    requires forall p :: InCube(a, p) ==> At(a, p) == At(b, p)
    ensures a == b
  {
    forall l | 0 <= l < layers
      ensures a[l] == b[l]
    {
      forall r | 0 <= r < size
        ensures a[l][r] == b[l][r]
      {
        forall c | 0 <= c < size
          ensures a[l][r][c] == b[l][r][c]
        {
          assert InCube(a, Coord(l, r, c));
        }
      }
    }
  }

  /** `q` comes before `p` in layer, row, column order. */
  predicate Before(q: Coord, p: Coord)
  {
    q.layer < p.layer || (q.layer == p.layer && (q.row < p.row || (q.row == p.row && q.column < p.column)))
  }

  // ---------------------------------------------------------------------
  // Filling the cube
  // ---------------------------------------------------------------------

  /**
    * The queue position of the character the constructor puts in cell `p`:
    * layer by layer `(l * size + r) * size + c`, or, filling each row
    * across all layers, `(r * layers + l) * size + c`.
    */
  function Position(layers: nat, size: nat, horizontal: bool, p: Coord): int
  {
    if horizontal then (p.row * layers + p.layer) * size + p.column
    else (p.layer * size + p.row) * size + p.column
  }

  /** `a * n + c` with `c < n` lies below `(a + 1) * n`. */
  lemma MixedBound(a: int, bound: int, c: int, n: int)
    requires 0 <= a < bound && 0 <= c < n
    ensures 0 <= a * n + c < bound * n
  {
    MulMonotone(a + 1, bound, n);
  }

  /** `a * n + c` with `c < n` determines `a` and `c`. */
  lemma MixedUnique(a: int, c: int, a': int, c': int, n: int)
    requires 0 <= c < n && 0 <= c' < n && a * n + c == a' * n + c'
    ensures a == a' && c == c'
  {
    ModUnique(a * n + c, a, c, n);
    ModUnique(a * n + c, a', c', n);
  }

  /** Every cell's position is a valid index into an alphabet of `layers * size * size` characters. */
  lemma PositionBounds(layers: nat, size: nat, horizontal: bool, p: Coord)
    requires 0 <= p.layer < layers && 0 <= p.row < size && 0 <= p.column < size
    ensures 0 <= Position(layers, size, horizontal, p) < layers * size * size
  {
    if horizontal {
      MixedBound(p.row, size, p.layer, layers);
      MixedBound(p.row * layers + p.layer, size * layers, p.column, size);
      assert size * layers * size == layers * size * size;
    } else {
      MixedBound(p.layer, layers, p.row, size);
      MixedBound(p.layer * size + p.row, layers * size, p.column, size);
    }
  }

  /** The cube the constructor builds from `alphabet`. */
  function Filled(alphabet: seq<char>, layers: nat, size: nat, horizontal: bool): (cells: Cube)
    requires |alphabet| == layers * size * size
  {
    seq(layers, l requires 0 <= l < layers =>
      seq(size, r requires 0 <= r < size =>
        seq(size, c requires 0 <= c < size =>
          PositionBounds(layers, size, horizontal, Coord(l, r, c));
          alphabet[Position(layers, size, horizontal, Coord(l, r, c))])))
  }

  /** The filled cube has `layers` grids of `size` by `size` cells, and cell `p` holds the alphabet at `p`'s position. */
  lemma FilledCells(alphabet: seq<char>, layers: nat, size: nat, horizontal: bool)
    requires |alphabet| == layers * size * size
    ensures Shaped(Filled(alphabet, layers, size, horizontal), layers, size)
    ensures forall p :: InCube(Filled(alphabet, layers, size, horizontal), p) ==>
      0 <= Position(layers, size, horizontal, p) < |alphabet| &&
      At(Filled(alphabet, layers, size, horizontal), p) == alphabet[Position(layers, size, horizontal, p)]
  {
    var cells := Filled(alphabet, layers, size, horizontal);
    forall p | InCube(cells, p)
      ensures 0 <= Position(layers, size, horizontal, p) < |alphabet|
    {
      PositionBounds(layers, size, horizontal, p);
    }
  }

  /** Different cells take different queue positions. */
  lemma PositionInjective(layers: nat, size: nat, horizontal: bool, p: Coord, q: Coord)
    requires 0 <= p.layer < layers && 0 <= p.row < size && 0 <= p.column < size
    requires 0 <= q.layer < layers && 0 <= q.row < size && 0 <= q.column < size
    requires Position(layers, size, horizontal, p) == Position(layers, size, horizontal, q)
    ensures p == q
  {
    if horizontal {
      MixedUnique(p.row * layers + p.layer, p.column, q.row * layers + q.layer, q.column, size);
      MixedUnique(p.row, p.layer, q.row, q.layer, layers);
    } else {
      MixedUnique(p.layer * size + p.row, p.column, q.layer * size + q.row, q.column, size);
      MixedUnique(p.layer, p.row, q.layer, q.row, size);
    }
  }

  /** `k` as `a * n + c` with `c < n`; below `bound * n`, `a` is below `bound`. */
  lemma Split(k: int, n: int, bound: int) returns (a: int, c: int)
    requires 0 <= k < bound * n && n > 0
    ensures k == a * n + c && 0 <= a < bound && 0 <= c < n
  {
    a, c := k / n, k % n;
    assert k == a * n + c;
    if a >= bound {
      MulMonotone(bound, a, n);
    }
  }

  /** Every queue position is the position of some cell: the fill uses up the queue. */
  lemma PositionOnto(layers: nat, size: nat, horizontal: bool, k: int) returns (p: Coord)
    requires 0 <= k < layers * size * size
    ensures 0 <= p.layer < layers && 0 <= p.row < size && 0 <= p.column < size
    ensures Position(layers, size, horizontal, p) == k
  {
    var outer, column := Split(k, size, layers * size);
    if horizontal {
      assert outer < size * layers;
      var row, layer := Split(outer, layers, size);
      p := Coord(layer, row, column);
    } else {
      var layer, row := Split(outer, size, layers);
      p := Coord(layer, row, column);
    }
  }

  /** Both fill orders put every character of the alphabet in some cell. */
  lemma FilledCoversAlphabet(alphabet: seq<char>, layers: nat, size: nat, horizontal: bool)
    requires |alphabet| == layers * size * size
    ensures forall k :: 0 <= k < |alphabet| ==> Contains(Filled(alphabet, layers, size, horizontal), alphabet[k])
  {
    var cells := Filled(alphabet, layers, size, horizontal);
    FilledCells(alphabet, layers, size, horizontal);
    forall k | 0 <= k < |alphabet|
      ensures Contains(cells, alphabet[k])
    {
      var p := PositionOnto(layers, size, horizontal, k);
      assert InCube(cells, p) && At(cells, p) == alphabet[k];
    }
  }

  /** With a duplicate-free alphabet, no character occupies two cells of either fill. */
  lemma FilledDistinct(alphabet: seq<char>, layers: nat, size: nat, horizontal: bool)
    requires |alphabet| == layers * size * size
    requires forall i, j :: 0 <= i < j < |alphabet| ==> alphabet[i] != alphabet[j]
    ensures DistinctCells(Filled(alphabet, layers, size, horizontal))
  {
    var cells := Filled(alphabet, layers, size, horizontal);
    FilledCells(alphabet, layers, size, horizontal);
    forall p, q | InCube(cells, p) && InCube(cells, q) && At(cells, p) == At(cells, q)
      ensures p == q
    {
      PositionInjective(layers, size, horizontal, p, q);
    }
  }

  // ---------------------------------------------------------------------
  // Looking a character up
  // ---------------------------------------------------------------------

  /**
    * The nested loops of `Encode(char)` from cell (l, r, c) on: the first
    * cell, in layer, row, column order, that holds `ch`.
    */
  function Locate(cells: Cube, size: nat, ch: char, l: nat, r: nat, c: nat): (p: Result<Coord>)
    requires Shaped(cells, |cells|, size)
    ensures p.Ok? ==> InCube(cells, p.value) && At(cells, p.value) == ch && !Before(p.value, Coord(l, r, c))
    ensures p.Ok? ==> forall q :: InCube(cells, q) && !Before(q, Coord(l, r, c)) && Before(q, p.value) ==> At(cells, q) != ch
    ensures p.Err? ==> p.error == NotInAlphabet && forall q :: InCube(cells, q) && !Before(q, Coord(l, r, c)) ==> At(cells, q) != ch
    decreases |cells| - l, size - r, size - c
  {
    if l >= |cells| then Err(NotInAlphabet)
    else if r >= size then Locate(cells, size, ch, l + 1, 0, 0)
    else if c >= size then Locate(cells, size, ch, l, r + 1, 0)
    else if cells[l][r][c] == ch then Ok(Coord(l, r, c))
    else Locate(cells, size, ch, l, r, c + 1)
  }

  /** `Encode(char)`: the first cell holding `ch`, or `NotInAlphabet`. */
  function Find(cells: Cube, size: nat, ch: char): Result<Coord>
    requires Shaped(cells, |cells|, size)
  {
    Locate(cells, size, ch, 0, 0, 0)
  }

  /** In a cube without repeated characters, looking up the character of a cell finds that cell. */
  lemma FindDistinct(cells: Cube, size: nat, p: Coord)
    requires Shaped(cells, |cells|, size) && DistinctCells(cells) && InCube(cells, p)
    ensures Find(cells, size, At(cells, p)) == Ok(p)
  {
    var zero := Coord(0, 0, 0);
    assert !Before(p, zero);
  }

  /** Looks up every character of `s` in turn; the first one missing fails. */
  function FindAll(cells: Cube, size: nat, s: seq<char>): (r: Result<seq<Coord>>)
    requires Shaped(cells, |cells|, size)
    ensures r.Ok? ==> (|r.value| == |s| &&
      forall i :: 0 <= i < |s| ==> InCube(cells, r.value[i]) && At(cells, r.value[i]) == s[i])
    ensures r.Err? ==> (r.error == NotInAlphabet &&
      exists i :: 0 <= i < |s| && forall q :: InCube(cells, q) ==> At(cells, q) != s[i])
  {
    if s == [] then Ok([])
    else
      match FindAll(cells, size, s[..|s| - 1])
      case Err(e) =>
        assert forall i :: 0 <= i < |s| - 1 ==> s[..|s| - 1][i] == s[i];
        Err(e)
      case Ok(coords) =>
        match Find(cells, size, s[|s| - 1])
        case Err(e) =>
          assert !Before(Coord(0, 0, 0), Coord(0, 0, 0));
          Err(e)
        case Ok(p) => Ok(coords + [p])
  }

  /** Looking up one more character extends the found cells by its cell; a missing character fails the whole message. */
  lemma FindAllStep(cells: Cube, size: nat, s: seq<char>, i: nat)
    requires Shaped(cells, |cells|, size) && i < |s| && FindAll(cells, size, s[..i]).Ok?
    ensures Find(cells, size, s[i]).Ok? ==>
      FindAll(cells, size, s[..i + 1]) == Ok(FindAll(cells, size, s[..i]).value + [Find(cells, size, s[i]).value])
    ensures Find(cells, size, s[i]).Err? ==> FindAll(cells, size, s).Err?
  {
    assert s[..i + 1][..i] == s[..i];
    if FindAll(cells, size, s).Ok? {
      FoundEach(cells, size, s, i);
    }
  }

  /** When the whole message is found, so is each of its characters. */
  lemma FoundEach(cells: Cube, size: nat, s: seq<char>, i: nat)
    requires Shaped(cells, |cells|, size) && i < |s| && FindAll(cells, size, s).Ok?
    ensures Find(cells, size, s[i]).Ok?
  {
    var q := FindAll(cells, size, s).value[i];
    assert InCube(cells, q) && At(cells, q) == s[i];
  }

  /** In a cube without repeated characters, looking up the characters of cells finds those cells. */
  lemma FindAllDistinct(cells: Cube, size: nat, coords: seq<Coord>, s: seq<char>)
    requires Shaped(cells, |cells|, size) && DistinctCells(cells)
    requires |s| == |coords| && forall i :: 0 <= i < |s| ==> InCube(cells, coords[i]) && At(cells, coords[i]) == s[i]
    ensures FindAll(cells, size, s) == Ok(coords)
  {
    var r := FindAll(cells, size, s);
    if r.Ok? {
      forall i | 0 <= i < |s|
        ensures r.value[i] == coords[i]
      {
        assert At(cells, r.value[i]) == At(cells, coords[i]);
      }
      assert r.value == coords;
    }
  }

  // ---------------------------------------------------------------------
  // Fractionation
  // ---------------------------------------------------------------------

  /** Coordinate `k` of a cell: 0 the layer, 1 the row, 2 the column. */
  function Component(p: Coord, k: int): int
  {
    if k == 0 then p.layer else if k == 1 then p.row else p.column
  }

  /** Coordinate `k` of every cell of a block: one row of the byte matrix, within the block. */
  function LayerRow(block: seq<Coord>, k: int): (row: seq<int>)
    ensures |row| == |block|
    ensures forall i :: 0 <= i < |block| ==> row[i] == Component(block[i], k)
  {
    seq(|block|, i requires 0 <= i < |block| => Component(block[i], k))
  }

  /** Rows 0 to k-1 of a block, one after the other. */
  function Rows(block: seq<Coord>, k: nat): (rows: seq<int>)
    ensures |rows| == k * |block|
  {
    if k == 0 then [] else Rows(block, k - 1) + LayerRow(block, k - 1)
  }

  lemma GroupStep(groups: nat, width: nat)
    requires groups > 0
    ensures 0 <= (groups - 1) * width <= groups * width
    ensures (groups - 1) * width + width == groups * width
  {
  }

  /**
    * The queue `Encode` fills from the byte matrix: for each block of
    * `groupSize` cells, all their layers, then all their rows, then all
    * their columns.
    */
  function Fractionated(coords: seq<Coord>, groupSize: nat, groups: nat): (bytes: seq<int>)
    requires |coords| == groups * groupSize
    ensures |bytes| == groups * (3 * groupSize) == 3 * |coords|
  {
    if groups == 0 then []
    else
      GroupStep(groups, groupSize);
      GroupStep(groups, 3 * groupSize);
      var before := (groups - 1) * groupSize;
      Fractionated(coords[..before], groupSize, groups - 1) + Rows(coords[before..], 3)
  }

  /** One more group appends the next block's three rows. */
  lemma FractionatedStep(coords: seq<Coord>, groupSize: nat, group: nat)
    requires (group + 1) * groupSize <= |coords|
    ensures group * groupSize + groupSize == (group + 1) * groupSize
    ensures Fractionated(coords[..(group + 1) * groupSize], groupSize, group + 1) ==
      Fractionated(coords[..group * groupSize], groupSize, group) + Rows(coords[group * groupSize..(group + 1) * groupSize], 3)
  {
    var prefix := coords[..(group + 1) * groupSize];
    assert prefix[..group * groupSize] == coords[..group * groupSize];
    assert prefix[group * groupSize..] == coords[group * groupSize..(group + 1) * groupSize];
  }

  /** The coordinates of the cells one after the other: the queue `GetDecodeByteMatrix` fills. */
  function Flattened(coords: seq<Coord>): (bytes: seq<int>)
    ensures |bytes| == 3 * |coords|
  {
    if coords == [] then []
    else
      var last := coords[|coords| - 1];
      Flattened(coords[..|coords| - 1]) + [last.layer, last.row, last.column]
  }

  /** A block of `3 * groupSize` bytes as `groupSize` cells: byte `i` of each third. */
  function Unblock(block: seq<int>, groupSize: nat): (coords: seq<Coord>)
    requires |block| == 3 * groupSize
    ensures |coords| == groupSize
  {
    seq(groupSize, i requires 0 <= i < groupSize => Coord(block[i], block[groupSize + i], block[2 * groupSize + i]))
  }

  /** The byte matrix `Decode` builds: each block of `3 * groupSize` bytes read back as three rows. */
  function Unfractionated(bytes: seq<int>, groupSize: nat, groups: nat): (coords: seq<Coord>)
    requires |bytes| == groups * (3 * groupSize)
    ensures |coords| == groups * groupSize
  {
    if groups == 0 then []
    else
      GroupStep(groups, groupSize);
      GroupStep(groups, 3 * groupSize);
      var before := (groups - 1) * (3 * groupSize);
      Unfractionated(bytes[..before], groupSize, groups - 1) + Unblock(bytes[before..], groupSize)
  }

  /** One more group appends the cells of the next block of `3 * groupSize` bytes. */
  lemma UnfractionatedStep(bytes: seq<int>, groupSize: nat, group: nat)
    requires (group + 1) * (3 * groupSize) <= |bytes|
    ensures group * (3 * groupSize) + 3 * groupSize == (group + 1) * (3 * groupSize)
    ensures Unfractionated(bytes[..(group + 1) * (3 * groupSize)], groupSize, group + 1) ==
      Unfractionated(bytes[..group * (3 * groupSize)], groupSize, group) +
      Unblock(bytes[group * (3 * groupSize)..(group + 1) * (3 * groupSize)], groupSize)
  {
    var prefix := bytes[..(group + 1) * (3 * groupSize)];
    assert prefix[..group * (3 * groupSize)] == bytes[..group * (3 * groupSize)];
    assert prefix[group * (3 * groupSize)..] == bytes[group * (3 * groupSize)..(group + 1) * (3 * groupSize)];
  }

  /** The three rows of a block are its layers, then its rows, then its columns. */
  lemma RowsOfThree(block: seq<Coord>)
    ensures Rows(block, 3) == LayerRow(block, 0) + LayerRow(block, 1) + LayerRow(block, 2)
  {
    assert Rows(block, 0) == [];
    assert Rows(block, 1) == LayerRow(block, 0);
  }

  /** Reading the three rows of a block back in threes gives its cells. */
  lemma UnblockRows(block: seq<Coord>)
    ensures Unblock(Rows(block, 3), |block|) == block
  {
    var n := |block|;
    var layers, rows, columns := LayerRow(block, 0), LayerRow(block, 1), LayerRow(block, 2);
    RowsOfThree(block);
    var all := layers + rows + columns;
    var coords := Unblock(all, n);
    forall i | 0 <= i < n
      ensures coords[i] == block[i]
    {
      var p := block[i];
      assert all[i] == layers[i] && all[n + i] == rows[i] && all[2 * n + i] == columns[i];
      assert coords[i] == Coord(Component(p, 0), Component(p, 1), Component(p, 2));
    }
  }

  /** One more block of `3 * groupSize` bytes appends its cells. */
  lemma UnfractionatedAppend(head: seq<int>, block: seq<int>, groupSize: nat, groups: nat)
    requires |head| == 3 * (groups * groupSize) && |block| == 3 * groupSize
    ensures |head| == groups * (3 * groupSize)
    ensures Unfractionated(head + block, groupSize, groups + 1) ==
      Unfractionated(head, groupSize, groups) + Unblock(block, groupSize)
  {
    var bytes := head + block;
    GroupStep(groups + 1, 3 * groupSize);
    assert bytes[..|head|] == head && bytes[|head|..] == block;
  }

  /** The last group of the encoder's queue is the three rows of the last block. */
  lemma FractionatedLast(coords: seq<Coord>, groupSize: nat, groups: nat)
    requires groups > 0 && |coords| == groups * groupSize
    ensures groupSize <= |coords| && |coords| - groupSize == (groups - 1) * groupSize
    ensures Fractionated(coords, groupSize, groups) ==
      Fractionated(coords[..|coords| - groupSize], groupSize, groups - 1) + Rows(coords[|coords| - groupSize..], 3)
  {
    GroupStep(groups, groupSize);
  }

  /** The decoder's matrix undoes the encoder's transposition. */
  lemma {:induction false} UnfractionateFractionated(coords: seq<Coord>, groupSize: nat, groups: nat)
    requires |coords| == groups * groupSize
    ensures Unfractionated(Fractionated(coords, groupSize, groups), groupSize, groups) == coords
  {
    if groups > 0 {
      FractionatedLast(coords, groupSize, groups);
      var init, block := coords[..|coords| - groupSize], coords[|coords| - groupSize..];
      var head := Fractionated(init, groupSize, groups - 1);
      UnfractionatedAppend(head, Rows(block, 3), groupSize, groups - 1);
      UnfractionateFractionated(init, groupSize, groups - 1);
      UnblockRows(block);
      assert init + block == coords;
    }
  }

  /** The cell the encoder's output queue yields as its `k`-th triple. */
  function TripleAt(bytes: seq<int>, k: nat): Coord
    requires 3 * k + 2 < |bytes|
  {
    Coord(bytes[3 * k], bytes[3 * k + 1], bytes[3 * k + 2])
  }

  /** The flattened cells yield those cells back as triples. */
  lemma {:induction false} FlattenedTriples(coords: seq<Coord>)
    ensures forall k :: 0 <= k < |coords| ==> TripleAt(Flattened(coords), k) == coords[k]
  {
    if coords != [] {
      var init := coords[..|coords| - 1];
      FlattenedTriples(init);
      var bytes := Flattened(coords);
      assert bytes[..3 * |init|] == Flattened(init);
    }
  }

  /** Two byte sequences with the same `k`-th triple agree on its three bytes. */
  lemma SameTripleSameBytes(a: seq<int>, b: seq<int>, k: nat, i: nat)
    requires 3 * k <= i < 3 * k + 3 && 3 * k + 2 < |a| && 3 * k + 2 < |b|
    requires TripleAt(a, k) == TripleAt(b, k)
    ensures a[i] == b[i]
  {
    if i == 3 * k {
      assert a[i] == TripleAt(a, k).layer;
    } else if i == 3 * k + 1 {
      assert a[i] == TripleAt(a, k).row;
    } else {
      assert a[i] == TripleAt(a, k).column;
    }
  }

  /** Bytes that yield `coords` as their triples are the flattened `coords`. */
  lemma FlattenedUnique(coords: seq<Coord>, bytes: seq<int>)
    requires |bytes| == 3 * |coords|
    requires forall k :: 0 <= k < |coords| ==> TripleAt(bytes, k) == coords[k]
    ensures Flattened(coords) == bytes
  {
    var flat := Flattened(coords);
    FlattenedTriples(coords);
    forall i | 0 <= i < |bytes|
      ensures flat[i] == bytes[i]
    {
      ByteOfTriple(flat, bytes, coords, i / 3, i);
    }
  }

  /** Byte `i` lies in triple `i / 3`, so two byte sequences with the same triples agree on it. */
  lemma ByteOfTriple(a: seq<int>, b: seq<int>, coords: seq<Coord>, k: nat, i: nat)
    requires |a| == |b| == 3 * |coords| && i < |a| && k == i / 3
    requires forall k :: 0 <= k < |coords| ==> TripleAt(a, k) == coords[k] && TripleAt(b, k) == coords[k]
    ensures a[i] == b[i]
  {
    assert TripleAt(a, k) == TripleAt(b, k);
    SameTripleSameBytes(a, b, k, i);
  }

  // ---------------------------------------------------------------------
  // Encoding and decoding
  // ---------------------------------------------------------------------

  /**
    * The argument check of all four `Encode`/`Decode` overloads: the length
    * must be a multiple of `groupSize` (C#'s `%`, which throws on 0) and not
    * smaller than it.
    */
  function LengthCheck(length: nat, groupSize: int): Result<()>
  {
    if groupSize == 0 then Err(DivideByZero)
    else if CsRem(length, if groupSize > 0 then groupSize else -groupSize) != 0 || groupSize > length then Err(InvalidLength)
    else Ok(())
  }

  /** C#'s `length / groupSize`, which truncates toward zero. */
  function Groups(length: nat, groupSize: int): int
    requires groupSize != 0
  {
    if groupSize > 0 then length / groupSize else -(length / -groupSize)
  }

  /** A passing check leaves `length / groupSize` whole groups; a negative group size leaves none. */
  lemma GroupsOfCheck(length: nat, groupSize: int)
    requires LengthCheck(length, groupSize).Ok?
    ensures groupSize > 0 ==> 0 < Groups(length, groupSize) && Groups(length, groupSize) * groupSize == length
    ensures groupSize < 0 ==> Groups(length, groupSize) <= 0
  {
    if groupSize > 0 {
      assert length == (length / groupSize) * groupSize + length % groupSize;
    }
  }

  /** The queue of coordinates `Encode` reads its output from. */
  function Stream(coords: seq<Coord>, groupSize: int): seq<int>
    requires groupSize != 0 && LengthCheck(|coords|, groupSize).Ok?
  {
    GroupsOfCheck(|coords|, groupSize);
    if groupSize > 0 then Fractionated(coords, groupSize, Groups(|coords|, groupSize)) else []
  }

  /**
    * The output loop of `Encode`: `count` times, three values are dequeued
    * and index the cube as layer, row and column. Each index is checked
    * before the next value is dequeued.
    */
  function Output(cells: Cube, bytes: seq<int>, count: nat): Result<seq<char>>
    decreases count
  {
    if count == 0 then Ok([])
    else if |bytes| == 0 then Err(EmptyQueue)
    else if !(0 <= bytes[0] < |cells|) then Err(IndexOutOfRange)
    else if |bytes| == 1 then Err(EmptyQueue)
    else if !(0 <= bytes[1] < |cells[bytes[0]]|) then Err(IndexOutOfRange)
    else if |bytes| == 2 then Err(EmptyQueue)
    else if !(0 <= bytes[2] < |cells[bytes[0]][bytes[1]]|) then Err(IndexOutOfRange)
    else
      match Output(cells, bytes[3..], count - 1)
      case Err(e) => Err(e)
      case Ok(rest) => Ok([cells[bytes[0]][bytes[1]][bytes[2]]] + rest)
  }

  /** A successful output is the cube's characters at the queue's successive triples. */
  lemma {:induction false} OutputOk(cells: Cube, bytes: seq<int>, count: nat)
    requires Output(cells, bytes, count).Ok?
    ensures 3 * count <= |bytes| && |Output(cells, bytes, count).value| == count
    ensures forall k :: 0 <= k < count ==>
      InCube(cells, TripleAt(bytes, k)) && Output(cells, bytes, count).value[k] == At(cells, TripleAt(bytes, k))
    decreases count
  {
    if count > 0 {
      var rest := bytes[3..];
      OutputOk(cells, rest, count - 1);
      forall k | 1 <= k < count
        ensures TripleAt(bytes, k) == TripleAt(rest, k - 1)
      {
      }
    }
  }

  /** The matrix `Decode` indexes the cube with. A negative group size leaves it all zero. */
  function Regrouped(bytes: seq<int>, groupSize: int, length: nat): (coords: seq<Coord>)
    requires groupSize != 0 && LengthCheck(length, groupSize).Ok? && |bytes| == 3 * length
    ensures |coords| == length
  {
    GroupsOfCheck(length, groupSize);
    if groupSize > 0 then
      var groups := Groups(length, groupSize);
      assert |bytes| == groups * (3 * groupSize);
      Unfractionated(bytes, groupSize, groups)
    else seq(length, _ => Coord(0, 0, 0))
  }

  /** The output loop of `Decode`: each cell of the matrix indexes the cube. */
  function Lookups(cells: Cube, coords: seq<Coord>): (r: Result<seq<char>>)
    ensures r.Ok? <==> forall i :: 0 <= i < |coords| ==> InCube(cells, coords[i])
    ensures r.Ok? ==> |r.value| == |coords| && forall i :: 0 <= i < |coords| ==> r.value[i] == At(cells, coords[i])
    ensures r.Err? ==> r.error == IndexOutOfRange
  {
    if coords == [] then Ok([])
    else
      var last := coords[|coords| - 1];
      match Lookups(cells, coords[..|coords| - 1])
      case Err(e) => Err(e)
      case Ok(chars) => if InCube(cells, last) then Ok(chars + [At(cells, last)]) else Err(IndexOutOfRange)
  }

  /** `Encode(string, groupSize)` on the cube `cells`. */
  function Encrypted(cells: Cube, size: nat, s: seq<char>, groupSize: int): Result<seq<char>>
    requires Shaped(cells, 3, size)
  {
    match LengthCheck(|s|, groupSize)
    case Err(e) => Err(e)
    case Ok(_) =>
      match FindAll(cells, size, s)
      case Err(e) => Err(e)
      case Ok(coords) => Output(cells, Stream(coords, groupSize), |s|)
  }

  /** `Decode(string, groupSize)` on the cube `cells`. */
  function Decrypted(cells: Cube, size: nat, s: seq<char>, groupSize: int): Result<seq<char>>
    requires Shaped(cells, 3, size)
  {
    match LengthCheck(|s|, groupSize)
    case Err(e) => Err(e)
    case Ok(_) =>
      match FindAll(cells, size, s)
      case Err(e) => Err(e)
      case Ok(coords) => Lookups(cells, Regrouped(Flattened(coords), groupSize, |s|))
  }

  /** The digits of each trigram, taken as its cell by the trigram overloads. */
  function Digits(trigrams: seq<Trigram>): (coords: seq<Coord>)
    ensures |coords| == |trigrams|
  {
    seq(|trigrams|, i requires 0 <= i < |trigrams| => Coord(trigrams[i].a, trigrams[i].b, trigrams[i].c))
  }

  /** `Encode(TrigramCollection, groupSize)`: the digits of each trigram are its cell. */
  function EncryptedTrigrams(cells: Cube, trigrams: seq<Trigram>, groupSize: int): Result<seq<char>>
  {
    match LengthCheck(|trigrams|, groupSize)
    case Err(e) => Err(e)
    case Ok(_) => Output(cells, Stream(Digits(trigrams), groupSize), |trigrams|)
  }

  /** `Decode(TrigramCollection, groupSize)`: the digits of each trigram are its cell. */
  function DecryptedTrigrams(cells: Cube, trigrams: seq<Trigram>, groupSize: int): Result<seq<char>>
  {
    match LengthCheck(|trigrams|, groupSize)
    case Err(e) => Err(e)
    case Ok(_) => Lookups(cells, Regrouped(Flattened(Digits(trigrams)), groupSize, |trigrams|))
  }

  // ---------------------------------------------------------------------
  // Properties of encoding and decoding
  // ---------------------------------------------------------------------

  /** The output loop succeeds exactly when the queue holds `count` triples that all lie in the cube. */
  lemma {:induction false} OutputSucceeds(cells: Cube, bytes: seq<int>, count: nat)
    ensures Output(cells, bytes, count).Ok? <==>
      3 * count <= |bytes| && forall k :: 0 <= k < count ==> InCube(cells, TripleAt(bytes, k))
    decreases count
  {
    if Output(cells, bytes, count).Ok? {
      OutputOk(cells, bytes, count);
    } else if count > 0 && 3 * count <= |bytes| && InCube(cells, TripleAt(bytes, 0)) {
      var rest := bytes[3..];
      OutputSucceeds(cells, rest, count - 1);
      var k :| 0 <= k < count - 1 && !InCube(cells, TripleAt(rest, k));
      assert TripleAt(bytes, k + 1) == TripleAt(rest, k);
    }
  }

  /** Looking up the cells `FindAll` found gives back the searched characters. */
  lemma LookupsFound(cells: Cube, size: nat, s: seq<char>)
    requires Shaped(cells, |cells|, size) && FindAll(cells, size, s).Ok?
    ensures Lookups(cells, FindAll(cells, size, s).value) == Ok(s)
  {
    var r := Lookups(cells, FindAll(cells, size, s).value);
    assert r.value == s;
  }

  /**
    * Decoding the output of the encoder's loops gives the characters at the
    * cells the encoder started from, provided no character occupies two
    * cells.
    */
  lemma CoordsRoundTrip(cells: Cube, size: nat, coords: seq<Coord>, groupSize: int)
    requires Shaped(cells, 3, size) && DistinctCells(cells)
    requires LengthCheck(|coords|, groupSize).Ok?
    requires Output(cells, Stream(coords, groupSize), |coords|).Ok?
    ensures Decrypted(cells, size, Output(cells, Stream(coords, groupSize), |coords|).value, groupSize) == Lookups(cells, coords)
  {
    var stream := Stream(coords, groupSize);
    var e := Output(cells, stream, |coords|).value;
    OutputOk(cells, stream, |coords|);
    StreamRegrouped(coords, groupSize);
    OutputFound(cells, size, stream, |coords|);
    assert Decrypted(cells, size, e, groupSize) == Lookups(cells, Regrouped(stream, groupSize, |coords|));
  }

  /** In a cube without repeated characters, looking up what the output loop wrote gives back the whole queue it read. */
  lemma OutputFound(cells: Cube, size: nat, bytes: seq<int>, count: nat)
    requires Shaped(cells, 3, size) && DistinctCells(cells)
    requires Output(cells, bytes, count).Ok? && |bytes| == 3 * count
    ensures FindAll(cells, size, Output(cells, bytes, count).value).Ok?
    ensures Flattened(FindAll(cells, size, Output(cells, bytes, count).value).value) == bytes
  {
    var e := Output(cells, bytes, count).value;
    OutputOk(cells, bytes, count);
    var triples := seq(count, k requires 0 <= k < count => TripleAt(bytes, k));
    assert forall i :: 0 <= i < |e| ==> InCube(cells, triples[i]) && At(cells, triples[i]) == e[i];
    FindAllDistinct(cells, size, triples, e);
    FlattenedUnique(triples, bytes);
  }

  /**
    * Regrouping the queue the encoder fills gives back the cells it was
    * filled from. With a negative group size the queue is empty, so only an
    * empty message comes back.
    */
  lemma StreamRegrouped(coords: seq<Coord>, groupSize: int)
    requires LengthCheck(|coords|, groupSize).Ok?
    ensures |Stream(coords, groupSize)| == if groupSize > 0 then 3 * |coords| else 0
    ensures (groupSize > 0 || coords == []) ==> Regrouped(Stream(coords, groupSize), groupSize, |coords|) == coords
  {
    GroupsOfCheck(|coords|, groupSize);
    if groupSize > 0 {
      UnfractionateFractionated(coords, groupSize, Groups(|coords|, groupSize));
    }
  }

  /** With a duplicate-free cube, `Decode(Encode(s, g), g)` is `s` whenever `Encode` succeeds. */
  lemma RoundTrip(cells: Cube, size: nat, s: seq<char>, groupSize: int)
    requires Shaped(cells, 3, size) && DistinctCells(cells)
    requires Encrypted(cells, size, s, groupSize).Ok?
    ensures Decrypted(cells, size, Encrypted(cells, size, s, groupSize).value, groupSize) == Ok(s)
  {
    var coords := FindAll(cells, size, s).value;
    CoordsRoundTrip(cells, size, coords, groupSize);
    LookupsFound(cells, size, s);
  }

  /** Decoding a trigram message's encoding gives the characters at the trigrams' cells. */
  lemma TrigramRoundTrip(cells: Cube, size: nat, trigrams: seq<Trigram>, groupSize: int)
    requires Shaped(cells, 3, size) && DistinctCells(cells)
    requires EncryptedTrigrams(cells, trigrams, groupSize).Ok?
    ensures Decrypted(cells, size, EncryptedTrigrams(cells, trigrams, groupSize).value, groupSize) == Lookups(cells, Digits(trigrams))
  {
    CoordsRoundTrip(cells, size, Digits(trigrams), groupSize);
  }

  /**
    * The trigram overloads treat a message as the string of the characters
    * at its trigrams' cells: when those all lie in a duplicate-free cube,
    * both overloads of `Encode` and of `Decode` agree.
    */
  lemma TrigramOverloads(cells: Cube, size: nat, trigrams: seq<Trigram>, groupSize: int)
    requires Shaped(cells, 3, size) && DistinctCells(cells)
    requires Lookups(cells, Digits(trigrams)).Ok?
    ensures EncryptedTrigrams(cells, trigrams, groupSize) == Encrypted(cells, size, Lookups(cells, Digits(trigrams)).value, groupSize)
    ensures DecryptedTrigrams(cells, trigrams, groupSize) == Decrypted(cells, size, Lookups(cells, Digits(trigrams)).value, groupSize)
  {
    FindAllDistinct(cells, size, Digits(trigrams), Lookups(cells, Digits(trigrams)).value);
  }

  /** Every component of every cell lies below `bound`. */
  predicate Bounded(coords: seq<Coord>, bound: int)
  {
    forall i :: 0 <= i < |coords| ==> 0 <= coords[i].layer < bound && 0 <= coords[i].row < bound && 0 <= coords[i].column < bound
  }

  lemma {:induction false} RowsBounded(block: seq<Coord>, k: nat, bound: int)
    requires Bounded(block, bound) && k <= 3
    ensures forall j :: 0 <= j < |Rows(block, k)| ==> 0 <= Rows(block, k)[j] < bound
  {
    if k > 0 {
      RowsBounded(block, k - 1, bound);
    }
  }

  /** Fractionation only rearranges components, so it keeps them below the same bound. */
  lemma {:induction false} FractionatedBounded(coords: seq<Coord>, groupSize: nat, groups: nat, bound: int)
    requires |coords| == groups * groupSize && Bounded(coords, bound)
    ensures forall j :: 0 <= j < |Fractionated(coords, groupSize, groups)| ==> 0 <= Fractionated(coords, groupSize, groups)[j] < bound
  {
    if groups > 0 {
      GroupStep(groups, groupSize);
      var before := (groups - 1) * groupSize;
      FractionatedBounded(coords[..before], groupSize, groups - 1, bound);
      RowsBounded(coords[before..], 3, bound);
    }
  }

  /**
    * On a 3 by 3 by 3 cube every component is 0, 1 or 2, so every triple the
    * encoder reads back is a cell: `Encode` fails only on the length check or
    * on a character outside the cube.
    */
  lemma EncryptSucceeds(cells: Cube, s: seq<char>, groupSize: int)
    requires Shaped(cells, 3, 3) && groupSize > 0
    requires LengthCheck(|s|, groupSize).Ok? && FindAll(cells, 3, s).Ok?
    ensures Encrypted(cells, 3, s, groupSize).Ok?
  {
    var coords := FindAll(cells, 3, s).value;
    GroupsOfCheck(|s|, groupSize);
    var groups := Groups(|s|, groupSize);
    var stream := Stream(coords, groupSize);
    assert stream == Fractionated(coords, groupSize, groups);
    assert Bounded(coords, 3);
    FractionatedBounded(coords, groupSize, groups, 3);
    forall k | 0 <= k < |s|
      ensures InCube(cells, TripleAt(stream, k))
    {
      var p := TripleAt(stream, k);
      assert 0 <= p.layer < 3 && 0 <= p.row < 3 && 0 <= p.column < 3;
    }
    OutputSucceeds(cells, stream, |s|);
    assert Encrypted(cells, 3, s, groupSize) == Output(cells, stream, |s|);
  }

  // ---------------------------------------------------------------------
  // The repository's test vectors
  // ---------------------------------------------------------------------

  /** Appending a block of `groupSize` cells appends its three rows to the queue. */
  lemma FractionatedAppend(init: seq<Coord>, block: seq<Coord>, groupSize: nat, groups: nat)
    requires |init| == groups * groupSize && |block| == groupSize
    ensures |init + block| == (groups + 1) * groupSize
    ensures Fractionated(init + block, groupSize, groups + 1) == Fractionated(init, groupSize, groups) + Rows(block, 3)
  {
    FractionatedLast(init + block, groupSize, groups + 1);
    assert (init + block)[..|init|] == init && (init + block)[|init|..] == block;
  }

  /** The output loop over two queues one after the other emits the two outputs one after the other. */
  lemma {:induction false} OutputAppend(cells: Cube, a: seq<int>, b: seq<int>, m: nat, n: nat)
    requires |a| == 3 * m && Output(cells, a, m).Ok? && Output(cells, b, n).Ok?
    ensures Output(cells, a + b, m + n) == Ok(Output(cells, a, m).value + Output(cells, b, n).value)
    decreases m
  {
    var ab := a + b;
    if m == 0 {
      assert ab == b && Output(cells, a, m).value == [];
      assert Output(cells, a, m).value + Output(cells, b, n).value == Output(cells, b, n).value;
    } else {
      assert ab[0] == a[0] && ab[1] == a[1] && ab[2] == a[2];
      assert ab[3..] == a[3..] + b;
      assert Output(cells, a, m) == Ok([cells[a[0]][a[1]][a[2]]] + Output(cells, a[3..], m - 1).value);
      OutputAppend(cells, a[3..], b, m - 1, n);
      var x, rest := cells[a[0]][a[1]][a[2]], Output(cells, a[3..], m - 1).value;
      assert Output(cells, ab, m + n) == Ok([x] + (rest + Output(cells, b, n).value));
      assert [x] + (rest + Output(cells, b, n).value) == [x] + rest + Output(cells, b, n).value;
    }
  }

  /** A queue of in-range bytes emits the alphabet at each of its triples from a 3 by 3 by 3 cube. */
  lemma QueueOutput(cells: Cube, alphabet: seq<char>, horizontal: bool, bytes: seq<int>, expected: seq<char>)
    requires |alphabet| == 27 && cells == Filled(alphabet, 3, 3, horizontal) && |bytes| == 3 * |expected|
    requires forall j :: 0 <= j < |bytes| ==> 0 <= bytes[j] < 3
    requires forall k :: 0 <= k < |expected| ==> alphabet[Position(3, 3, horizontal, TripleAt(bytes, k))] == expected[k]
    ensures Output(cells, bytes, |expected|) == Ok(expected)
  {
    FilledCells(alphabet, 3, 3, horizontal);
    forall k | 0 <= k < |expected|
      ensures InCube(cells, TripleAt(bytes, k))
    {
      assert 0 <= bytes[3 * k] < 3 && 0 <= bytes[3 * k + 1] < 3 && 0 <= bytes[3 * k + 2] < 3;
    }
    OutputSucceeds(cells, bytes, |expected|);
    OutputOk(cells, bytes, |expected|);
    var out := Output(cells, bytes, |expected|).value;
    forall k | 0 <= k < |expected|
      ensures out[k] == expected[k]
    {
      assert out[k] == At(cells, TripleAt(bytes, k));
    }
    assert out == expected;
  }

  /**
    * Encryption on a 3 by 3 by 3 cube filled from a duplicate-free alphabet:
    * given the cell of each character, the message encrypts to whatever its
    * queue emits.
    */
  lemma EncryptsTo(cells: Cube, alphabet: seq<char>, horizontal: bool, s: seq<char>, groupSize: int, coords: seq<Coord>)
    requires |alphabet| == 27 && forall i, j :: 0 <= i < j < 27 ==> alphabet[i] != alphabet[j]
    requires cells == Filled(alphabet, 3, 3, horizontal)
    requires groupSize > 0 && LengthCheck(|s|, groupSize).Ok?
    requires |coords| == |s| && Bounded(coords, 3)
    requires forall i :: 0 <= i < |s| ==> alphabet[Position(3, 3, horizontal, coords[i])] == s[i]
    ensures Shaped(cells, 3, 3) && Encrypted(cells, 3, s, groupSize) == Output(cells, Stream(coords, groupSize), |s|)
  {
    FilledCells(alphabet, 3, 3, horizontal);
    FilledDistinct(alphabet, 3, 3, horizontal);
    forall i | 0 <= i < |s|
      ensures InCube(cells, coords[i]) && At(cells, coords[i]) == s[i]
    {
    }
    FindAllDistinct(cells, 3, coords, s);
  }

  // The layer-by-layer test: `Trifid(3, 3, "FELIXMARDSTBCGHJKNOPQUVWYZ+", false)`
  // encodes "AIDETOILECIELTAIDERA" in groups of five.

  const LayerAlphabet := "FELIXMARDSTBCGHJKNOPQUVWYZ+"
  const LayerMessage := "AIDETOILECIELTAIDERA"

  /** The cell of each character of the message. */
  const LayerCells := [Coord(0, 2, 0), Coord(0, 1, 0), Coord(0, 2, 2), Coord(0, 0, 1), Coord(1, 0, 1),
                       Coord(2, 0, 0), Coord(0, 1, 0), Coord(0, 0, 2), Coord(0, 0, 1), Coord(1, 1, 0),
                       Coord(0, 1, 0), Coord(0, 0, 1), Coord(0, 0, 2), Coord(1, 0, 1), Coord(0, 2, 0),
                       Coord(0, 1, 0), Coord(0, 2, 2), Coord(0, 0, 1), Coord(0, 2, 1), Coord(0, 2, 0)]

  /** The same cells in groups of five, and the queue each group's three rows make. */
  const LayerBlock0 := [Coord(0, 2, 0), Coord(0, 1, 0), Coord(0, 2, 2), Coord(0, 0, 1), Coord(1, 0, 1)]
  const LayerBlock1 := [Coord(2, 0, 0), Coord(0, 1, 0), Coord(0, 0, 2), Coord(0, 0, 1), Coord(1, 1, 0)]
  const LayerBlock2 := [Coord(0, 1, 0), Coord(0, 0, 1), Coord(0, 0, 2), Coord(1, 0, 1), Coord(0, 2, 0)]
  const LayerBlock3 := [Coord(0, 1, 0), Coord(0, 2, 2), Coord(0, 0, 1), Coord(0, 2, 1), Coord(0, 2, 0)]
  const LayerQueue0 := [0, 0, 0, 0, 1, 2, 1, 2, 0, 0, 0, 0, 2, 1, 1]
  const LayerQueue1 := [2, 0, 0, 0, 1, 0, 1, 0, 0, 1, 0, 0, 2, 1, 0]
  const LayerQueue2 := [0, 0, 0, 1, 0, 1, 0, 0, 0, 2, 0, 1, 2, 1, 0]
  const LayerQueue3 := [0, 0, 0, 0, 0, 1, 2, 0, 2, 2, 0, 2, 1, 1, 0]

  lemma LayerAlphabetDistinct()
    ensures |LayerAlphabet| == 27 && forall i, j :: 0 <= i < j < 27 ==> LayerAlphabet[i] != LayerAlphabet[j]
  {
  }

  lemma LayerCellsFound()
    ensures forall i :: 0 <= i < 20 ==>
      0 <= Position(3, 3, false, LayerCells[i]) < 27 && LayerAlphabet[Position(3, 3, false, LayerCells[i])] == LayerMessage[i]
  {
  }

  lemma LayerCellsGrouped()
    ensures |LayerCells| == |LayerMessage| == 20 && Bounded(LayerCells, 3)
    ensures LayerCells == LayerBlock0 + LayerBlock1 + LayerBlock2 + LayerBlock3
  {
  }

  lemma LayerQueuesFirst()
    ensures Rows(LayerBlock0, 3) == LayerQueue0 && Rows(LayerBlock1, 3) == LayerQueue1
  {
    RowsOfThree(LayerBlock0);
    RowsOfThree(LayerBlock1);
  }

  lemma LayerQueuesLast()
    ensures Rows(LayerBlock2, 3) == LayerQueue2 && Rows(LayerBlock3, 3) == LayerQueue3
  {
    RowsOfThree(LayerBlock2);
    RowsOfThree(LayerBlock3);
  }

  lemma LayerGroup0Emits(cells: Cube)
    requires cells == Filled(LayerAlphabet, 3, 3, false)
    ensures Output(cells, LayerQueue0, 5) == Ok("FMJFV")
  {
    QueueOutput(cells, LayerAlphabet, false, LayerQueue0, "FMJFV");
  }

  lemma LayerGroup1Emits(cells: Cube)
    requires cells == Filled(LayerAlphabet, 3, 3, false)
    ensures Output(cells, LayerQueue1, 5) == Ok("OISSU")
  {
    QueueOutput(cells, LayerAlphabet, false, LayerQueue1, "OISSU");
  }

  lemma LayerGroup2Emits(cells: Cube)
    requires cells == Filled(LayerAlphabet, 3, 3, false)
    ensures Output(cells, LayerQueue2, 5) == Ok("FTFPU")
  {
    QueueOutput(cells, LayerAlphabet, false, LayerQueue2, "FTFPU");
  }

  lemma LayerGroup3Emits(cells: Cube)
    requires cells == Filled(LayerAlphabet, 3, 3, false)
    ensures Output(cells, LayerQueue3, 5) == Ok("FEQQC")
  {
    QueueOutput(cells, LayerAlphabet, false, LayerQueue3, "FEQQC");
  }

  lemma LayerCipherGroups()
    ensures "FMJFV" + "OISSU" + "FTFPU" + "FEQQC" == "FMJFVOISSUFTFPUFEQQC"
  {
  }

  /**
    * The layer-by-layer unit test: the alphabet "FELIXMARDSTBCGHJKNOPQUVWYZ+"
    * encrypts "AIDETOILECIELTAIDERA" in groups of five to
    * "FMJFVOISSUFTFPUFEQQC".
    */
  lemma LayerByLayerVector(cells: Cube)
    requires cells == Filled(LayerAlphabet, 3, 3, false)
    ensures Shaped(cells, 3, 3) && Encrypted(cells, 3, LayerMessage, 5) == Ok("FMJFVOISSUFTFPUFEQQC")
  {
    var b0, b1, b2, b3 := LayerBlock0, LayerBlock1, LayerBlock2, LayerBlock3;
    var q0, q1, q2, q3 := LayerQueue0, LayerQueue1, LayerQueue2, LayerQueue3;
    var coords := LayerCells;
    LayerAlphabetDistinct();
    LayerCellsFound();
    LayerCellsGrouped();
    EncryptsTo(cells, LayerAlphabet, false, LayerMessage, 5, coords);
    LayerQueuesFirst();
    LayerQueuesLast();
    assert Fractionated(b0, 5, 1) == q0 by {
      FractionatedAppend([], b0, 5, 0);
      assert [] + b0 == b0;
    }
    FractionatedAppend(b0, b1, 5, 1);
    FractionatedAppend(b0 + b1, b2, 5, 2);
    FractionatedAppend(b0 + b1 + b2, b3, 5, 3);
    assert Stream(coords, 5) == Fractionated(coords, 5, 4);
    LayerGroup0Emits(cells);
    LayerGroup1Emits(cells);
    LayerGroup2Emits(cells);
    LayerGroup3Emits(cells);
    assert Stream(coords, 5) == q0 + q1 + q2 + q3;
    OutputAppend(cells, q0, q1, 5, 5);
    OutputAppend(cells, q0 + q1, q2, 10, 5);
    OutputAppend(cells, q0 + q1 + q2, q3, 15, 5);
    LayerCipherGroups();
  }

  // The row-by-row test: `Trifid(3, 3, "ABCD.EFGHIJKLMNOPQRSTUVWXYZ", true)`
  // encodes "WIKIPEDIA" in one group of nine.

  const RowAlphabet := "ABCD.EFGHIJKLMNOPQRSTUVWXYZ"
  const RowMessage := "WIKIPEDIA"

  /** The cell of each character of the message, and the queue of their three rows. */
  const RowCells := [Coord(1, 2, 2), Coord(0, 1, 0), Coord(0, 1, 2), Coord(0, 1, 0), Coord(2, 1, 1),
                     Coord(1, 0, 2), Coord(1, 0, 0), Coord(0, 1, 0), Coord(0, 0, 0)]
  const RowQueue := [1, 0, 0, 0, 2, 1, 1, 0, 0, 2, 1, 1, 1, 1, 0, 0, 1, 0, 2, 0, 2, 0, 1, 2, 0, 0, 0]

  lemma RowAlphabetDistinct()
    ensures |RowAlphabet| == 27 && forall i, j :: 0 <= i < j < 27 ==> RowAlphabet[i] != RowAlphabet[j]
  {
  }

  lemma RowCellsFound()
    ensures forall i :: 0 <= i < 9 ==>
      0 <= Position(3, 3, true, RowCells[i]) < 27 && RowAlphabet[Position(3, 3, true, RowCells[i])] == RowMessage[i]
  {
  }

  lemma RowCellsShape()
    ensures |RowCells| == |RowMessage| == 9 && Bounded(RowCells, 3)
  {
  }

  lemma RowGroupQueue()
    ensures Rows(RowCells, 3) == RowQueue
  {
    RowsOfThree(RowCells);
  }

  lemma RowQueueSpellsFirst()
    ensures forall k :: 0 <= k < 5 ==> RowAlphabet[Position(3, 3, true, TripleAt(RowQueue, k))] == "DSDPLIHKA"[k]
  {
  }

  lemma RowQueueSpellsLast()
    ensures forall k :: 5 <= k < 9 ==> RowAlphabet[Position(3, 3, true, TripleAt(RowQueue, k))] == "DSDPLIHKA"[k]
  {
  }

  lemma RowGroupEmits(cells: Cube)
    requires cells == Filled(RowAlphabet, 3, 3, true)
    ensures Output(cells, RowQueue, 9) == Ok("DSDPLIHKA")
  {
    RowQueueSpellsFirst();
    RowQueueSpellsLast();
    QueueOutput(cells, RowAlphabet, true, RowQueue, "DSDPLIHKA");
  }

  /**
    * The row-by-row unit test: the alphabet "ABCD.EFGHIJKLMNOPQRSTUVWXYZ"
    * encrypts "WIKIPEDIA" in one group of nine to "DSDPLIHKA".
    */
  lemma RowByRowVector(cells: Cube)
    requires cells == Filled(RowAlphabet, 3, 3, true)
    ensures Shaped(cells, 3, 3) && Encrypted(cells, 3, RowMessage, 9) == Ok("DSDPLIHKA")
  {
    var coords := RowCells;
    RowAlphabetDistinct();
    RowCellsFound();
    RowCellsShape();
    EncryptsTo(cells, RowAlphabet, true, RowMessage, 9, coords);
    assert Stream(coords, 9) == RowQueue by {
      FractionatedAppend([], coords, 9, 0);
      assert [] + coords == coords;
      RowGroupQueue();
      assert Stream(coords, 9) == Fractionated(coords, 9, 1);
    }
    RowGroupEmits(cells);
  }
}
