/**
  * The two constant lookup tables of `Statics`: the 7x7 diamond board read by
  * the diamond walk, and the 5x5x5 Polybius cube filled by the static
  * constructor.
  */
module Tables {

  /** `Statics.DiamondMatrix`: 0 marks a cell outside the diamond, the 25 cells inside are numbered 1..25 row by row. */
  const DiamondMatrix: seq<seq<int>> := [
    [ 0,  0,  0,  1,  0,  0,  0],
    [ 0,  0,  2,  3,  4,  0,  0],
    [ 0,  5,  6,  7,  8,  9,  0],
    [10, 11, 12, 13, 14, 15, 16],
    [ 0, 17, 18, 19, 20, 21,  0],
    [ 0,  0, 22, 23, 24,  0,  0],
    [ 0,  0,  0, 25,  0,  0,  0]
  ]

  function Abs(x: int): nat { if x < 0 then -x else x }

  /** Manhattan distance of a board cell from the centre (3, 3). */
  function DistanceFromCentre(x: int, y: int): nat { Abs(x - 3) + Abs(y - 3) }

  /**
    * A cell holds a value exactly when it lies within distance 3 of the centre,
    * and every such value is in 1..25.
    */
  lemma DiamondShape(x: int, y: int)
    requires 0 <= x < 7 && 0 <= y < 7
    ensures |DiamondMatrix| == 7 && |DiamondMatrix[x]| == 7
    ensures DiamondMatrix[x][y] != 0 <==> DistanceFromCentre(x, y) <= 3
    ensures 0 <= DiamondMatrix[x][y] <= 25
  {
    var row := DiamondMatrix[x];
    if x == 0 { assert row == [0, 0, 0, 1, 0, 0, 0]; }
    else if x == 1 { assert row == [0, 0, 2, 3, 4, 0, 0]; }
    else if x == 2 { assert row == [0, 5, 6, 7, 8, 9, 0]; }
    else if x == 3 { assert row == [10, 11, 12, 13, 14, 15, 16]; }
    else if x == 4 { assert row == [0, 17, 18, 19, 20, 21, 0]; }
    else if x == 5 { assert row == [0, 0, 22, 23, 24, 0, 0]; }
    else { assert row == [0, 0, 0, 25, 0, 0, 0]; }
  }

  /** Turning the board half a turn about its centre maps value v to 26 - v. */
  lemma DiamondPointSymmetric(x: int, y: int)
    requires 0 <= x < 7 && 0 <= y < 7 && DistanceFromCentre(x, y) <= 3
    ensures |DiamondMatrix| == 7 && |DiamondMatrix[x]| == 7 && |DiamondMatrix[6 - x]| == 7
    ensures DiamondMatrix[6 - x][6 - y] == 26 - DiamondMatrix[x][y]
  {
    var row, mirror := DiamondMatrix[x], DiamondMatrix[6 - x];
    if x == 0 { assert row[3] == 1 && mirror[3] == 25; }
    else if x == 1 { assert row[2..5] == [2, 3, 4] && mirror[2..5] == [22, 23, 24]; }
    else if x == 2 { assert row[1..6] == [5, 6, 7, 8, 9] && mirror[1..6] == [17, 18, 19, 20, 21]; }
    else if x == 3 { assert row == [10, 11, 12, 13, 14, 15, 16] && mirror == row; }
    else if x == 4 { assert row[1..6] == [17, 18, 19, 20, 21] && mirror[1..6] == [5, 6, 7, 8, 9]; }
    else if x == 5 { assert row[2..5] == [22, 23, 24] && mirror[2..5] == [2, 3, 4]; }
    else { assert row[3] == 25 && mirror[3] == 1; }
  }

  /**
    * `Statics.PolybiusCube[layer][row][column]`: layer 0 numbers its cells
    * 0..24 row by row, and layer i is layer 0 with its rows shifted up by i.
    */
  function PolybiusValue(layer: int, row: int, column: int): int
    requires 0 <= layer < 5 && 0 <= row < 5 && 0 <= column < 5
  {
    var shifted := row + layer;
    5 * (if shifted < 5 then shifted else shifted - 5) + column
  }

  /** Every layer is a bijection of the 25 cells onto 0..24: this is its inverse. */
  lemma PolybiusLayerInverse(layer: int, v: int)
    requires 0 <= layer < 5 && 0 <= v < 25
    ensures 0 <= (v / 5 - layer) % 5 < 5
    ensures PolybiusValue(layer, (v / 5 - layer) % 5, v % 5) == v
  {
    var row := (v / 5 - layer) % 5;
    assert (row + layer) % 5 == v / 5 by {
      var q := v / 5;
      assert 0 <= q < 5;
      if q >= layer {
        assert row == q - layer;
      } else {
        assert row == q - layer + 5;
      }
    }
  }

  lemma PolybiusRange(layer: int, row: int, column: int)
    requires 0 <= layer < 5 && 0 <= row < 5 && 0 <= column < 5
    ensures 0 <= PolybiusValue(layer, row, column) <= 24
  {
  }

  /** Layer i holds in row r what layer 0 holds in row (r + i) mod 5. */
  lemma PolybiusLayerShift(layer: int, row: int, column: int)
    requires 0 <= layer < 5 && 0 <= row < 5 && 0 <= column < 5
    ensures PolybiusValue(layer, row, column) == PolybiusValue(0, (row + layer) % 5, column)
  {
  }

  /** The values asserted by the repository's cube test. */
  lemma PolybiusTestValues()
    ensures PolybiusValue(0, 0, 0) == 0 && PolybiusValue(0, 1, 0) == 5
    ensures PolybiusValue(1, 0, 0) == 5 && PolybiusValue(1, 1, 1) == 11
    ensures PolybiusValue(1, 2, 2) == 17 && PolybiusValue(2, 2, 2) == 22
    ensures PolybiusValue(2, 0, 4) == 14 && PolybiusValue(4, 4, 4) == 19
  {
  }

  /**
    * The static constructor of `Statics`: fills layer 0 with row * 5 + column,
    * then copies each layer i >= 1 from layer 0 with the row shifted by i.
    */
  method BuildPolybiusCube() returns (cube: array3<int>)
    ensures fresh(cube)
    ensures cube.Length0 == 5 && cube.Length1 == 5 && cube.Length2 == 5
    ensures forall i, r, c :: 0 <= i < 5 && 0 <= r < 5 && 0 <= c < 5 ==>
      cube[i, r, c] == PolybiusValue(i, r, c)
  {
    cube := new int[5, 5, 5];
    for i := 0 to 5
      invariant forall r, c :: 0 <= r < i && 0 <= c < 5 ==> cube[0, r, c] == 5 * r + c
    {
      for j := 0 to 5
        invariant forall r, c :: 0 <= r < i && 0 <= c < 5 ==> cube[0, r, c] == 5 * r + c
        invariant forall c :: 0 <= c < j ==> cube[0, i, c] == 5 * i + c
      {
        cube[0, i, j] := i * 5 + j;
      }
    }
    for i := 1 to 5
      invariant forall r, c :: 0 <= r < 5 && 0 <= c < 5 ==> cube[0, r, c] == 5 * r + c
      invariant forall l, r, c :: 0 <= l < i && 0 <= r < 5 && 0 <= c < 5 ==> cube[l, r, c] == PolybiusValue(l, r, c)
    {
      for j := 0 to 5
        invariant forall r, c :: 0 <= r < 5 && 0 <= c < 5 ==> cube[0, r, c] == 5 * r + c
        invariant forall l, r, c :: 0 <= l < i && 0 <= r < 5 && 0 <= c < 5 ==> cube[l, r, c] == PolybiusValue(l, r, c)
        invariant forall r, c :: 0 <= r < j && 0 <= c < 5 ==> cube[i, r, c] == PolybiusValue(i, r, c)
      {
        var source := (j + i) % 5;
        for k := 0 to 5
          invariant forall r, c :: 0 <= r < 5 && 0 <= c < 5 ==> cube[0, r, c] == 5 * r + c
          invariant forall l, r, c :: 0 <= l < i && 0 <= r < 5 && 0 <= c < 5 ==> cube[l, r, c] == PolybiusValue(l, r, c)
          invariant forall r, c :: 0 <= r < j && 0 <= c < 5 ==> cube[i, r, c] == PolybiusValue(i, r, c)
          invariant forall c :: 0 <= c < k ==> cube[i, j, c] == PolybiusValue(i, j, c)
        {
          cube[i, j, k] := cube[0, source, k];
        }
      }
    }
  }
}
