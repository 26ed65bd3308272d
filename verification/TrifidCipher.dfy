/**
  * The `Trifid` class: the cube as a three-dimensional array that the
  * constructor fills from a queue of characters, and the loops of
  * `Encode(char)`, the byte matrices and the four `Encode`/`Decode`
  * overloads, each proved to compute the functions of `Trifids`.
  */
module TrifidCiphers {
  import opened Primitives
  import opened Trigrams
  import opened Trifids

  /** The characters of an array cube, by layer, row and column. */
  function CellsOf(a: array3<char>): (cells: Cube)
    reads a
    ensures Shaped(cells, a.Length0, a.Length1) || a.Length1 != a.Length2
    ensures a.Length1 == a.Length2 ==> forall p :: InCube(cells, p) ==> At(cells, p) == a[p.layer, p.row, p.column]
  {
    seq(a.Length0, l requires 0 <= l < a.Length0 reads a =>
      seq(a.Length1, r requires 0 <= r < a.Length1 reads a =>
        seq(a.Length2, c requires 0 <= c < a.Length2 reads a => a[l, r, c])))
  }

  /** Every cell whose queue position lies below `k` holds the alphabet's character at that position. */
  ghost predicate FilledUpTo(a: array3<char>, alphabet: seq<char>, horizontal: bool, k: int)
    reads a
  {
    k <= |alphabet| &&
    forall l, r, c ::
      (0 <= l < a.Length0 && 0 <= r < a.Length1 && 0 <= c < a.Length2 &&
       0 <= Position(a.Length0, a.Length1, horizontal, Coord(l, r, c)) < k) ==>
        a[l, r, c] == alphabet[Position(a.Length0, a.Length1, horizontal, Coord(l, r, c))]
  }

  /** Writing the character of position `k` into the cell at that position extends the filled part by one. */
  lemma FilledStep(a: array3<char>, alphabet: seq<char>, horizontal: bool, k: int, p: Coord)
    requires a.Length1 == a.Length2 && 0 <= k < |alphabet|
    requires 0 <= p.layer < a.Length0 && 0 <= p.row < a.Length1 && 0 <= p.column < a.Length2
    requires Position(a.Length0, a.Length1, horizontal, p) == k && a[p.layer, p.row, p.column] == alphabet[k]
    requires forall l, r, c ::
      (0 <= l < a.Length0 && 0 <= r < a.Length1 && 0 <= c < a.Length2 &&
       0 <= Position(a.Length0, a.Length1, horizontal, Coord(l, r, c)) < k) ==>
        a[l, r, c] == alphabet[Position(a.Length0, a.Length1, horizontal, Coord(l, r, c))]
    ensures FilledUpTo(a, alphabet, horizontal, k + 1)
  {
    forall l, r, c | 0 <= l < a.Length0 && 0 <= r < a.Length1 && 0 <= c < a.Length2 &&
      0 <= Position(a.Length0, a.Length1, horizontal, Coord(l, r, c)) < k + 1
      ensures a[l, r, c] == alphabet[Position(a.Length0, a.Length1, horizontal, Coord(l, r, c))]
    {
      if Position(a.Length0, a.Length1, horizontal, Coord(l, r, c)) == k {
        PositionInjective(a.Length0, a.Length1, horizontal, p, Coord(l, r, c));
      }
    }
  }

  /** Once every position is filled, the array holds the cube `Filled` describes. */
  lemma FilledArray(a: array3<char>, alphabet: seq<char>, horizontal: bool)
    requires a.Length1 == a.Length2 && |alphabet| == a.Length0 * a.Length1 * a.Length1
    requires FilledUpTo(a, alphabet, horizontal, |alphabet|)
    ensures CellsOf(a) == Filled(alphabet, a.Length0, a.Length1, horizontal)
  {
    var cells, filled := CellsOf(a), Filled(alphabet, a.Length0, a.Length1, horizontal);
    FilledCells(alphabet, a.Length0, a.Length1, horizontal);
    forall p | InCube(cells, p)
      ensures At(cells, p) == At(filled, p)
    {
      PositionBounds(a.Length0, a.Length1, horizontal, p);
    }
    CubeEqual(cells, filled, a.Length0, a.Length1);
  }

  /** `(row * layers + a) * size + c` is the `a * size + c`-th place of row `row` of the horizontal fill. */
  lemma HorizontalPosition(row: int, a: int, c: int, layers: int, size: int)
    ensures (row * layers + a) * size + c == row * (size * layers) + (a * size + c)
  {
    calc {
      (row * layers + a) * size + c;
      row * layers * size + a * size + c;
      { assert row * layers * size == row * (size * layers); }
      row * (size * layers) + (a * size + c);
    }
  }

  /** Coordinate `k` of every column of a three-row byte matrix, as cells. */
  function Column(m: array2<int>, j: int): Coord
    reads m
    requires m.Length0 == 3 && 0 <= j < m.Length1
  {
    Coord(m[0, j], m[1, j], m[2, j])
  }

  /** The columns of a three-row byte matrix. */
  function Columns(m: array2<int>): (coords: seq<Coord>)
    reads m
    requires m.Length0 == 3
    ensures |coords| == m.Length1 && forall j :: 0 <= j < m.Length1 ==> coords[j] == Column(m, j)
  {
    seq(m.Length1, j requires 0 <= j < m.Length1 reads m => Column(m, j))
  }

  /** Writes cell `p` into column `j` of a three-row byte matrix. */
  method SetColumn(matrix: array2<int>, j: int, p: Coord)
    requires matrix.Length0 == 3 && 0 <= j < matrix.Length1
    modifies matrix
    ensures Column(matrix, j) == p
    ensures forall i :: 0 <= i < matrix.Length1 && i != j ==> Column(matrix, i) == old(Column(matrix, i))
  {
    matrix[0, j], matrix[1, j], matrix[2, j] := p.layer, p.row, p.column;
  }

  /** Writes cell `p` into column `i` of a matrix whose first `i` columns hold `found`. */
  method AppendColumn(matrix: array2<int>, i: int, p: Coord, ghost found: seq<Coord>)
    requires matrix.Length0 == 3 && 0 <= i < matrix.Length1 && |found| == i
    requires forall j :: 0 <= j < i ==> Column(matrix, j) == found[j]
    modifies matrix
    ensures forall j :: 0 <= j <= i ==> Column(matrix, j) == (found + [p])[j]
  {
    SetColumn(matrix, i, p);
  }

  ghost predicate RowRead(matrix: array2<int>, layer: int, start: int, groupSize: int, block: seq<int>)
    reads matrix
    requires matrix.Length0 == 3 && 0 <= layer < 3 && |block| == 3 * groupSize
    requires 0 <= start && start + groupSize <= matrix.Length1
  {
    forall j :: start <= j < start + groupSize ==> matrix[layer, j] == block[layer * groupSize + (j - start)]
  }

  /**
    * The innermost loop of the decoder's matrix: `groupSize` bytes are
    * dequeued from `bytes[head..]` into row `layer`, from column `start` on.
    */
  method ReadRow(matrix: array2<int>, layer: int, start: int, groupSize: nat, bytes: seq<int>, head: nat)
    requires matrix.Length0 == 3 && 0 <= layer < 3 && 0 <= start && start + groupSize <= matrix.Length1
    requires head + groupSize <= |bytes|
    modifies matrix
    ensures forall j :: start <= j < start + groupSize ==> matrix[layer, j] == bytes[head + (j - start)]
    ensures forall k, j :: 0 <= k < 3 && 0 <= j < matrix.Length1 && (k != layer || j < start || start + groupSize <= j) ==>
      matrix[k, j] == old(matrix[k, j])
  {
    var i := 0;
    while i < groupSize
      invariant 0 <= i <= groupSize
      invariant forall j :: start <= j < start + i ==> matrix[layer, j] == bytes[head + (j - start)]
      invariant forall k, j :: 0 <= k < 3 && 0 <= j < matrix.Length1 && (k != layer || j < start || start + i <= j) ==>
        matrix[k, j] == old(matrix[k, j])
    {
      matrix[layer, start + i] := bytes[head + i];
      i := i + 1;
    }
  }

  /**
    * One group of the decoder's matrix: the `3 * groupSize` bytes from
    * `head` on fill its layer row, its row row and its column row in turn.
    */
  method ReadGroup(matrix: array2<int>, start: int, groupSize: nat, bytes: seq<int>, head: nat)
    requires matrix.Length0 == 3 && 0 <= start && start + groupSize <= matrix.Length1
    requires head + 3 * groupSize <= |bytes|
    modifies matrix
    ensures forall j :: start <= j < start + groupSize ==>
      Column(matrix, j) == Unblock(bytes[head..head + 3 * groupSize], groupSize)[j - start]
    ensures forall j :: 0 <= j < matrix.Length1 && (j < start || start + groupSize <= j) ==>
      Column(matrix, j) == old(Column(matrix, j))
  {
    ghost var block := bytes[head..head + 3 * groupSize];
    var next := head;
    var layer := 0;
    while layer < 3
      invariant 0 <= layer <= 3 && next == head + layer * groupSize
      invariant forall j :: 0 <= j < matrix.Length1 && (j < start || start + groupSize <= j) ==>
        Column(matrix, j) == old(Column(matrix, j))
      invariant forall k :: 0 <= k < layer ==> RowRead(matrix, k, start, groupSize, block)
    {
      MulMonotone(layer + 1, 3, groupSize);
      MulSucc(layer, groupSize);
      label before:
      ReadRow(matrix, layer, start, groupSize, bytes, next);
      forall k | 0 <= k < layer
        ensures RowRead(matrix, k, start, groupSize, block)
      {
        assert old@before(RowRead(matrix, k, start, groupSize, block));
      }
      assert RowRead(matrix, layer, start, groupSize, block);
      next := next + groupSize;
      layer := layer + 1;
    }
    assert RowRead(matrix, 0, start, groupSize, block) && RowRead(matrix, 1, start, groupSize, block) &&
      RowRead(matrix, 2, start, groupSize, block);
  }

  /** One row of one group of the matrix, as `Encode` enqueues it. */
  method ReadLayer(matrix: array2<int>, layer: int, start: int, groupSize: nat, ghost block: seq<Coord>)
    returns (row: seq<int>)
    requires matrix.Length0 == 3 && 0 <= layer < 3 && 0 <= start && start + groupSize <= matrix.Length1
    requires |block| == groupSize && forall i :: 0 <= i < groupSize ==> Column(matrix, start + i) == block[i]
    ensures row == LayerRow(block, layer)
  {
    row := [];
    var i := 0;
    while i < groupSize
      invariant 0 <= i <= groupSize
      invariant row == LayerRow(block, layer)[..i]
    {
      assert Column(matrix, start + i) == block[i];
      assert LayerRow(block, layer)[..i + 1] == LayerRow(block, layer)[..i] + [matrix[layer, start + i]];
      row := row + [matrix[layer, start + i]];
      i := i + 1;
    }
    assert LayerRow(block, layer)[..i] == LayerRow(block, layer);
  }

  /** The three rows of one group of the matrix: its layers, its rows, its columns. */
  method ReadBlock(matrix: array2<int>, start: int, groupSize: nat, ghost coords: seq<Coord>)
    returns (rows: seq<int>)
    requires matrix.Length0 == 3 && Columns(matrix) == coords && 0 <= start && start + groupSize <= |coords|
    ensures rows == Rows(coords[start..start + groupSize], 3)
  {
    ghost var block := coords[start..start + groupSize];
    assert forall i :: 0 <= i < groupSize ==> Column(matrix, start + i) == block[i];
    rows := [];
    var layer := 0;
    while layer < 3
      invariant 0 <= layer <= 3
      invariant rows == Rows(block, layer)
    {
      var row := ReadLayer(matrix, layer, start, groupSize, block);
      rows := rows + row;
      layer := layer + 1;
    }
  }

  /** Columns matching `done` followed by columns matching `next` match `done + next`. */
  lemma ExtendColumns(matrix: array2<int>, done: seq<Coord>, next: seq<Coord>)
    requires matrix.Length0 == 3 && |done| + |next| <= matrix.Length1
    requires forall j :: 0 <= j < |done| ==> Column(matrix, j) == done[j]
    requires forall j :: |done| <= j < |done| + |next| ==> Column(matrix, j) == next[j - |done|]
    ensures forall j :: 0 <= j < |done + next| ==> Column(matrix, j) == (done + next)[j]
  {
  }

  /** One pass of the group loop of `GetDecodeByteMatrix`: group `group` extends the columns read so far. */
  method RegroupGroup(matrix: array2<int>, bytes: seq<int>, groupSize: nat, groups: nat, group: nat)
    requires group < groups
    requires matrix.Length0 == 3 && groups * groupSize <= matrix.Length1
    requires groups * (3 * groupSize) <= |bytes|
    requires forall j :: 0 <= j < group * groupSize ==>
      Column(matrix, j) == Unfractionated(bytes[..group * (3 * groupSize)], groupSize, group)[j]
    modifies matrix
    ensures forall j :: 0 <= j < (group + 1) * groupSize ==>
      Column(matrix, j) == Unfractionated(bytes[..(group + 1) * (3 * groupSize)], groupSize, group + 1)[j]
  {
    MulMonotone(group + 1, groups, groupSize);
    MulMonotone(group + 1, groups, 3 * groupSize);
    MulSucc(group, groupSize);
    UnfractionatedStep(bytes, groupSize, group);
    var start := group * groupSize;
    var head := group * (3 * groupSize);
    ghost var done := Unfractionated(bytes[..head], groupSize, group);
    ghost var next := Unblock(bytes[head..head + 3 * groupSize], groupSize);
    ReadGroup(matrix, start, groupSize, bytes, head);
    ExtendColumns(matrix, done, next);
  }

  /**
    * `GetDecodeByteMatrix` once its queue is filled: group by group, the
    * group's `3 * groupSize` bytes become its layer row, its row row and its
    * column row. With a negative group size `length / groupSize` is not
    * positive, so the loop does not run and the zeroed matrix stays as it is.
    */
  method Regroup(bytes: seq<int>, groupSize: int, length: nat) returns (matrix: array2<int>)
    requires groupSize != 0 && LengthCheck(length, groupSize).Ok? && |bytes| == 3 * length
    ensures fresh(matrix) && matrix.Length0 == 3 && Columns(matrix) == Regrouped(bytes, groupSize, length)
  {
    GroupsOfCheck(length, groupSize);
    matrix := new int[3, length]((_, _) => 0);
    var groups := Groups(length, groupSize);
    if groupSize > 0 {
      assert groups * (3 * groupSize) == |bytes|;
      var group := 0;
      while group < groups
        invariant 0 <= group <= groups
        invariant forall j :: 0 <= j < group * groupSize ==>
          Column(matrix, j) == Unfractionated(bytes[..group * (3 * groupSize)], groupSize, group)[j]
      {
        RegroupGroup(matrix, bytes, groupSize, groups, group);
        group := group + 1;
      }
      RegroupedColumns(matrix, bytes, groupSize, length);
    } else {
      assert forall j :: 0 <= j < length ==> Column(matrix, j) == Coord(0, 0, 0);
      assert Columns(matrix) == Regrouped(bytes, groupSize, length);
    }
  }

  /** Once every group has been read, the matrix's columns are the regrouped cells. */
  lemma RegroupedColumns(matrix: array2<int>, bytes: seq<int>, groupSize: int, length: nat)
    requires groupSize > 0 && LengthCheck(length, groupSize).Ok? && |bytes| == 3 * length
    requires matrix.Length0 == 3 && matrix.Length1 == length
    requires Groups(length, groupSize) * (3 * groupSize) <= |bytes|
    requires forall j :: 0 <= j < Groups(length, groupSize) * groupSize ==>
      Column(matrix, j) == Unfractionated(bytes[..Groups(length, groupSize) * (3 * groupSize)], groupSize, Groups(length, groupSize))[j]
    ensures Columns(matrix) == Regrouped(bytes, groupSize, length)
  {
    GroupsOfCheck(length, groupSize);
    var groups := Groups(length, groupSize);
    assert groups * (3 * groupSize) == |bytes|;
    assert bytes[..groups * (3 * groupSize)] == bytes;
    var coords := Unfractionated(bytes, groupSize, groups);
    assert Regrouped(bytes, groupSize, length) == coords;
    assert forall j :: 0 <= j < length ==> Column(matrix, j) == coords[j];
  }

  /**
    * Fills a new cube layer by layer, row by row, column by column. The
    * queue of characters is `alphabet[head..]`: each `Dequeue` yields
    * `alphabet[head]` and advances `head`.
    */
  method FillByLayer(cube: array3<char>, alphabet: seq<char>)
    requires cube.Length1 == cube.Length2 && |alphabet| == cube.Length0 * cube.Length1 * cube.Length1
    modifies cube
    ensures FilledUpTo(cube, alphabet, false, |alphabet|)
  {
    var layers, size := cube.Length0, cube.Length1;
    var head := 0;
    var layer := 0;
    while layer < layers
      invariant 0 <= layer <= layers
      invariant head == layer * size * size
      invariant FilledUpTo(cube, alphabet, false, head)
    {
      var row := 0;
      while row < size
        invariant 0 <= row <= size
        invariant head == (layer * size + row) * size
        invariant FilledUpTo(cube, alphabet, false, head)
      {
        ghost var start := head;
        var column := 0;
        while column < size
          invariant 0 <= column <= size
          invariant head == start + column
          invariant FilledUpTo(cube, alphabet, false, head)
        {
          MixedBound(layer, layers, row, size);
          MixedBound(layer * size + row, layers * size, column, size);
          cube[layer, row, column] := alphabet[head];
          FilledStep(cube, alphabet, false, head, Coord(layer, row, column));
          head := head + 1;
          column := column + 1;
        }
        MulSucc(layer * size + row, size);
        row := row + 1;
      }
      MulSucc(layer * size, size);
      MulSucc(layer, size);
      layer := layer + 1;
    }
    // the constructor's final `chars.Count != 0` check never fires
    assert head == |alphabet|;
  }

  /**
    * Fills a new cube row by row, each row across all layers, dequeuing
    * from `alphabet[head..]`. The column counter is a byte: when
    * `size * layers` exceeds 255 it wraps around before reaching the bound,
    * and the loop only ends when the queue runs dry.
    */
  method FillHorizontally(cube: array3<char>, alphabet: seq<char>) returns (r: Result<()>)
    requires cube.Length1 == cube.Length2 && |alphabet| == cube.Length0 * cube.Length1 * cube.Length1
    modifies cube
    ensures cube.Length1 * cube.Length0 <= 255 ==> r.Ok? && FilledUpTo(cube, alphabet, true, |alphabet|)
    ensures cube.Length1 * cube.Length0 > 255 ==> r == Err(EmptyQueue)
  {
    var layers, size := cube.Length0, cube.Length1;
    var head := 0;
    var row := 0;
    while row < size
      invariant 0 <= row <= size && 0 <= head <= |alphabet|
      invariant size * layers > 255 ==> row == 0
      invariant size * layers <= 255 ==> head == row * (size * layers) && FilledUpTo(cube, alphabet, true, head)
    {
      var column: Byte := 0;
      while column < size * layers
        invariant 0 <= head <= |alphabet|
        invariant size * layers <= 255 ==>
          column <= size * layers && head == row * (size * layers) + column && FilledUpTo(cube, alphabet, true, head)
        decreases |alphabet| - head
      {
        if size * layers <= 255 {
          MixedBound(row, size, column, size * layers);
          assert size * (size * layers) == |alphabet|;
        }
        if head == |alphabet| {
          return Err(EmptyQueue);
        }
        var layerIndex, columnIndex := column / size, column % size;
        ghost var a, c := Split(column, size, layers);
        ModUnique(column, a, c, size);
        cube[layerIndex, row, columnIndex] := alphabet[head];
        if size * layers <= 255 {
          HorizontalPosition(row, a, c, layers, size);
          FilledStep(cube, alphabet, true, head, Coord(layerIndex, row, columnIndex));
        }
        head := head + 1;
        column := (column + 1) % 0x100;
      }
      MulSucc(row, size * layers);
      row := row + 1;
    }
    // the constructor's final `chars.Count != 0` check never fires
    assert size * (size * layers) == |alphabet|;
    assert head == |alphabet|;
    r := Ok(());
  }

  /** `Trifid`: a cube of `layers` grids of `gridSize` by `gridSize` characters. */
  class Trifid {
    const layers: Byte
    const gridSize: Byte
    /** `TrifidCube`, indexed by layer, row and column. */
    const cube: array3<char>

    ghost predicate Valid()
    {
      cube.Length0 == layers && cube.Length1 == gridSize && cube.Length2 == gridSize
    }

    function Cells(): (cells: Cube)
      reads cube
      requires Valid()
      ensures Shaped(cells, layers, gridSize)
    {
      CellsOf(cube)
    }

    constructor Wrap(layers: Byte, gridSize: Byte, cube: array3<char>)
      requires cube.Length0 == layers && cube.Length1 == gridSize && cube.Length2 == gridSize
      ensures this.layers == layers && this.gridSize == gridSize && this.cube == cube && Valid()
    {
      this.layers, this.gridSize, this.cube := layers, gridSize, cube;
    }

    /**
      * The constructor `Trifid(layers, gridSize, alphabet,
      * createLayersHorizontally)`: the alphabet must fill the cube exactly,
      * and the horizontal fill only ends when a row of all layers has at
      * most 255 cells.
      */
    static method Create(layers: Byte, gridSize: Byte, alphabet: seq<char>, horizontal: bool) returns (r: Result<Trifid>)
      ensures |alphabet| != gridSize * gridSize * layers ==> r == Err(AlphabetSizeMismatch)
      ensures |alphabet| == gridSize * gridSize * layers && horizontal && gridSize * layers > 255 ==> r == Err(EmptyQueue)
      ensures r.Ok? <==> |alphabet| == gridSize * gridSize * layers && (!horizontal || gridSize * layers <= 255)
      ensures r.Ok? ==> (fresh(r.value) && fresh(r.value.cube) && r.value.Valid() &&
        r.value.layers == layers && r.value.gridSize == gridSize &&
        r.value.Cells() == Filled(alphabet, layers, gridSize, horizontal))
    {
      if |alphabet| != gridSize * gridSize * layers {
        return Err(AlphabetSizeMismatch);
      }
      var cube := new char[layers, gridSize, gridSize];
      assert |alphabet| == cube.Length0 * cube.Length1 * cube.Length1;
      if horizontal {
        var filled := FillHorizontally(cube, alphabet);
        if filled.Err? {
          return Err(filled.error);
        }
      } else {
        FillByLayer(cube, alphabet);
      }
      FilledArray(cube, alphabet, horizontal);
      var t := new Trifid.Wrap(layers, gridSize, cube);
      r := Ok(t);
    }

    /** `Encode(char)`: the first cell, in layer, row, column order, that holds `ch`. */
    method EncodeChar(ch: char) returns (r: Result<Coord>)
      requires Valid()
      ensures r == Find(Cells(), gridSize, ch)
    {
      ghost var cells := Cells();
      var layer := 0;
      while layer < layers
        invariant 0 <= layer <= layers
        invariant Find(cells, gridSize, ch) == Locate(cells, gridSize, ch, layer, 0, 0)
      {
        var row := 0;
        while row < gridSize
          invariant 0 <= row <= gridSize
          invariant Find(cells, gridSize, ch) == Locate(cells, gridSize, ch, layer, row, 0)
        {
          var column := 0;
          while column < gridSize
            invariant 0 <= column <= gridSize
            invariant Find(cells, gridSize, ch) == Locate(cells, gridSize, ch, layer, row, column)
          {
            if cube[layer, row, column] == ch {
              return Ok(Coord(layer, row, column));
            }
            column := column + 1;
          }
          row := row + 1;
        }
        layer := layer + 1;
      }
      r := Err(NotInAlphabet);
    }

    /** `GetEncodeByteMatrix(string)`: the cells of the message's characters, one per column. */
    method EncodeByteMatrix(s: seq<char>) returns (r: Result<array2<int>>)
      requires Valid() && layers == 3
      ensures r.Ok? <==> FindAll(Cells(), gridSize, s).Ok?
      ensures r.Err? ==> r.error == NotInAlphabet
      ensures r.Ok? ==> fresh(r.value) && r.value.Length0 == 3 && Columns(r.value) == FindAll(Cells(), gridSize, s).value
    {
      ghost var cells := Cells();
      var matrix := new int[3, |s|];
      ghost var found: seq<Coord> := [];
      var i := 0;
      while i < |s|
        invariant 0 <= i <= |s| && |found| == i
        invariant FindAll(cells, gridSize, s[..i]) == Ok(found)
        invariant forall j :: 0 <= j < i ==> Column(matrix, j) == found[j]
      {
        var coords := EncodeChar(s[i]);
        FindAllStep(cells, gridSize, s, i);
        if coords.Err? {
          return Err(NotInAlphabet);
        }
        AppendColumn(matrix, i, coords.value, found);
        found := found + [coords.value];
        i := i + 1;
      }
      assert s[..i] == s;
      assert Columns(matrix) == found;
      r := Ok(matrix);
    }

    /** `GetEncodeByteMatrix(TrigramCollection)`: the digits of each trigram, one trigram per column. */
    static method TrigramByteMatrix(trigrams: seq<Trigram>) returns (matrix: array2<int>)
      ensures fresh(matrix) && matrix.Length0 == 3 && Columns(matrix) == Digits(trigrams)
    {
      matrix := new int[3, |trigrams|];
      var i := 0;
      while i < |trigrams|
        invariant 0 <= i <= |trigrams|
        invariant forall j :: 0 <= j < i ==> Column(matrix, j) == Digits(trigrams)[j]
      {
        matrix[0, i], matrix[1, i], matrix[2, i] := trigrams[i].a, trigrams[i].b, trigrams[i].c;
        i := i + 1;
      }
    }

    /**
      * The queue `Encode` fills from the byte matrix: group by group, the
      * group's layer row, then its row row, then its column row. With a
      * negative group size `length / groupSize` is not positive and the
      * queue stays empty.
      */
    static method Fractionate(matrix: array2<int>, groupSize: int, groups: int, ghost coords: seq<Coord>) returns (encoded: seq<int>)
      requires groupSize != 0 && LengthCheck(|coords|, groupSize).Ok? && groups == Groups(|coords|, groupSize)
      requires matrix.Length0 == 3 && Columns(matrix) == coords
      ensures encoded == Stream(coords, groupSize)
    {
      GroupsOfCheck(|coords|, groupSize);
      encoded := [];
      if groupSize > 0 {
        var group := 0;
        while group < groups
          invariant 0 <= group <= groups
          invariant encoded == Fractionated(coords[..group * groupSize], groupSize, group)
        {
          MulMonotone(group + 1, groups, groupSize);
          FractionatedStep(coords, groupSize, group);
          var rows := ReadBlock(matrix, group * groupSize, groupSize, coords);
          encoded := encoded + rows;
          group := group + 1;
        }
        assert coords[..group * groupSize] == coords;
      }
    }

    /**
      * The output loop of `Encode`: each character dequeues a layer, a row
      * and a column, each checked against the cube before the next one is
      * dequeued.
      */
    method Emit(bytes: seq<int>, count: nat) returns (r: Result<seq<char>>)
      requires Valid()
      ensures r == Output(Cells(), bytes, count)
    {
      ghost var cells := Cells();
      var queue := bytes;
      var builder: seq<char> := [];
      assert Prepend(builder, Output(cells, queue, count)) == Output(cells, bytes, count) by {
        if Output(cells, bytes, count).Ok? {
          assert builder + Output(cells, bytes, count).value == Output(cells, bytes, count).value;
        }
      }
      var i := 0;
      while i < count
        invariant 0 <= i <= count
        invariant Output(cells, bytes, count) == Prepend(builder, Output(cells, queue, count - i))
      {
        if |queue| == 0 {
          return Err(EmptyQueue);
        }
        var layer := queue[0];
        if !(0 <= layer < layers) {
          return Err(IndexOutOfRange);
        }
        if |queue| == 1 {
          return Err(EmptyQueue);
        }
        var row := queue[1];
        if !(0 <= row < gridSize) {
          return Err(IndexOutOfRange);
        }
        if |queue| == 2 {
          return Err(EmptyQueue);
        }
        var column := queue[2];
        if !(0 <= column < gridSize) {
          return Err(IndexOutOfRange);
        }
        var rest := Output(cells, queue[3..], count - i - 1);
        if rest.Ok? {
          assert builder + ([cube[layer, row, column]] + rest.value) == (builder + [cube[layer, row, column]]) + rest.value;
        }
        builder := builder + [cube[layer, row, column]];
        queue := queue[3..];
        i := i + 1;
      }
      assert builder + [] == builder;
      r := Ok(builder);
    }

    /** `Encode(string, groupSize)`. */
    method Encode(s: seq<char>, groupSize: int) returns (r: Result<seq<char>>)
      requires Valid() && layers == 3
      ensures r == Encrypted(Cells(), gridSize, s, groupSize)
    {
      var check := LengthCheck(|s|, groupSize);
      if check.Err? {
        return Err(check.error);
      }
      var matrix := EncodeByteMatrix(s);
      if matrix.Err? {
        return Err(matrix.error);
      }
      ghost var coords := FindAll(Cells(), gridSize, s).value;
      var groups := Groups(|s|, groupSize);
      var encoded := Fractionate(matrix.value, groupSize, groups, coords);
      r := Emit(encoded, |s|);
    }

    /** `Encode(TrigramCollection, groupSize)`. */
    method EncodeTrigrams(trigrams: seq<Trigram>, groupSize: int) returns (r: Result<seq<char>>)
      requires Valid() && layers == 3
      ensures r == EncryptedTrigrams(Cells(), trigrams, groupSize)
    {
      var check := LengthCheck(|trigrams|, groupSize);
      if check.Err? {
        return Err(check.error);
      }
      var matrix := TrigramByteMatrix(trigrams);
      var groups := Groups(|trigrams|, groupSize);
      var encoded := Fractionate(matrix, groupSize, groups, Digits(trigrams));
      r := Emit(encoded, |trigrams|);
    }

    /**
      * `GetDecodeByteMatrix(string, groupSize)`: the cells of the message's
      * characters are queued one after the other and read back group by
      * group as three rows.
      */
    method DecodeByteMatrix(s: seq<char>, groupSize: int) returns (r: Result<array2<int>>)
      requires Valid() && layers == 3 && groupSize != 0 && LengthCheck(|s|, groupSize).Ok?
      ensures r.Ok? <==> FindAll(Cells(), gridSize, s).Ok?
      ensures r.Err? ==> r.error == NotInAlphabet
      ensures r.Ok? ==> (fresh(r.value) && r.value.Length0 == 3 &&
        Columns(r.value) == Regrouped(Flattened(FindAll(Cells(), gridSize, s).value), groupSize, |s|))
    {
      ghost var cells := Cells();
      var bytes: seq<int> := [];
      ghost var found: seq<Coord> := [];
      var i := 0;
      while i < |s|
        invariant 0 <= i <= |s|
        invariant FindAll(cells, gridSize, s[..i]) == Ok(found) && bytes == Flattened(found)
      {
        var coords := EncodeChar(s[i]);
        FindAllStep(cells, gridSize, s, i);
        if coords.Err? {
          return Err(NotInAlphabet);
        }
        var p := coords.value;
        assert (found + [p])[..|found|] == found;
        bytes := bytes + [p.layer, p.row, p.column];
        found := found + [p];
        i := i + 1;
      }
      assert s[..i] == s;
      var matrix := Regroup(bytes, groupSize, |s|);
      r := Ok(matrix);
    }

    /**
      * `GetDecodeByteMatrix(TrigramCollection, groupSize)`: the digits of
      * the trigrams are queued one after the other and read back group by
      * group as three rows.
      */
    static method DecodeTrigramMatrix(trigrams: seq<Trigram>, groupSize: int) returns (matrix: array2<int>)
      requires groupSize != 0 && LengthCheck(|trigrams|, groupSize).Ok?
      ensures fresh(matrix) && matrix.Length0 == 3 &&
        Columns(matrix) == Regrouped(Flattened(Digits(trigrams)), groupSize, |trigrams|)
    {
      var bytes: seq<int> := [];
      var i := 0;
      while i < |trigrams|
        invariant 0 <= i <= |trigrams|
        invariant bytes == Flattened(Digits(trigrams)[..i])
      {
        var t := trigrams[i];
        ghost var queued := Digits(trigrams)[..i + 1];
        assert queued[..i] == Digits(trigrams)[..i];
        bytes := bytes + [t.a, t.b, t.c];
        i := i + 1;
      }
      assert Digits(trigrams)[..i] == Digits(trigrams);
      matrix := Regroup(bytes, groupSize, |trigrams|);
    }

    /** The output loop of `Decode`: each column of the matrix indexes the cube. */
    method Lookup(matrix: array2<int>) returns (r: Result<seq<char>>)
      requires Valid() && matrix.Length0 == 3
      ensures r == Lookups(Cells(), Columns(matrix))
    {
      ghost var cells := Cells();
      ghost var coords := Columns(matrix);
      var builder: seq<char> := [];
      var i := 0;
      while i < matrix.Length1
        invariant 0 <= i <= matrix.Length1
        invariant Lookups(cells, coords[..i]) == Ok(builder)
      {
        var layer, row, column := matrix[0, i], matrix[1, i], matrix[2, i];
        assert coords[..i + 1][..i] == coords[..i];
        if !(0 <= layer < layers && 0 <= row < gridSize && 0 <= column < gridSize) {
          assert !InCube(cells, coords[i]);
          assert Lookups(cells, coords).Err?;
          return Err(IndexOutOfRange);
        }
        builder := builder + [cube[layer, row, column]];
        i := i + 1;
      }
      assert coords[..i] == coords;
      r := Ok(builder);
    }

    /** `Decode(string, groupSize)`. */
    method Decode(s: seq<char>, groupSize: int) returns (r: Result<seq<char>>)
      requires Valid() && layers == 3
      ensures r == Decrypted(Cells(), gridSize, s, groupSize)
    {
      var check := LengthCheck(|s|, groupSize);
      if check.Err? {
        return Err(check.error);
      }
      var matrix := DecodeByteMatrix(s, groupSize);
      if matrix.Err? {
        return Err(matrix.error);
      }
      r := Lookup(matrix.value);
    }

    /** `Decode(TrigramCollection, groupSize)`. */
    method DecodeTrigrams(trigrams: seq<Trigram>, groupSize: int) returns (r: Result<seq<char>>)
      requires Valid() && layers == 3
      ensures r == DecryptedTrigrams(Cells(), trigrams, groupSize)
    {
      var check := LengthCheck(|trigrams|, groupSize);
      if check.Err? {
        return Err(check.error);
      }
      var matrix := DecodeTrigramMatrix(trigrams, groupSize);
      r := Lookup(matrix);
    }
  }
}
