/**
  * `TrigramProvider`: the nine eye messages laid out as a grid of rows of
  * 26 trigrams (the last row of a message may be shorter), and the readings
  * of that grid: row by row, reversed, and column by column with a reading
  * direction chosen per column parity. The messages are given already
  * parsed; reading them from the embedded CSV resource is not modelled.
  */
module TrigramProviders {
  import opened Primitives
  import opened Seqs
  import opened Trigrams
  import opened TrigramLineCollections

  const MessageCount: nat := 9
  const TrigramsPerLine: nat := 26

  // ---------------------------------------------------------------------
  // Row layout
  // ---------------------------------------------------------------------

  /** `lineCount`: the full rows, plus one for a non-empty remainder. */
  function RowCount(length: nat): nat
  {
    length / TrigramsPerLine + (if length % TrigramsPerLine != 0 then 1 else 0)
  }

  /** The width of row `j`: the remainder for the last row when there is one, else 26. */
  function RowWidth(length: nat, j: nat): nat
  {
    if j + 1 == RowCount(length) && length % TrigramsPerLine != 0 then length % TrigramsPerLine else TrigramsPerLine
  }

  /** Row `j` starts at `26 * j` and ends inside the message; the last row ends exactly at its end. */
  lemma RowBounds(length: nat, j: nat)
    requires j < RowCount(length)
    ensures 26 * j + RowWidth(length, j) <= length
    ensures j + 1 == RowCount(length) ==> 26 * j + RowWidth(length, j) == length
  {
    assert length == 26 * (length / 26) + length % 26;
  }

  /** The rows `LoadTrigrams` copies a message into. */
  function Chunk<T>(message: seq<T>): (rows: seq<seq<T>>)
    ensures |rows| == RowCount(|message|)
  {
    seq(RowCount(|message|), j requires 0 <= j < RowCount(|message|) =>
      RowBounds(|message|, j);
      message[26 * j .. 26 * j + RowWidth(|message|, j)])
  }

  /**
    * A message of length L has ceil(L / 26) rows; every row but the last
    * holds 26 trigrams and the last holds L % 26 of them, or 26 when that
    * is 0.
    */
  lemma ChunkShape<T>(message: seq<T>)
    ensures |Chunk(message)| == (|message| + 25) / 26
    ensures forall j :: 0 <= j < |Chunk(message)| - 1 ==> |Chunk(message)[j]| == 26
    ensures |Chunk(message)| > 0 ==>
      |Chunk(message)[|Chunk(message)| - 1]| == if |message| % 26 != 0 then |message| % 26 else 26
    ensures forall j :: 0 <= j < |Chunk(message)| ==> 0 < |Chunk(message)[j]| <= 26
  {
    var n := |message|;
    assert n == 26 * (n / 26) + n % 26;
  }

  /** The full rows before row `j` hold the first `26 * j` trigrams. */
  lemma {:induction false} ChunkPrefix<T>(message: seq<T>, j: nat)
    requires j < RowCount(|message|)
    ensures Flatten(Chunk(message)[..j]) == message[..26 * j]
  {
    if j > 0 {
      var rows := Chunk(message);
      ChunkPrefix(message, j - 1);
      assert rows[..j][..j - 1] == rows[..j - 1];
      RowBounds(|message|, j - 1);
      assert message[..26 * j] == message[..26 * (j - 1)] + rows[j - 1];
    }
  }

  /** Reading the rows one after the other gives the message back. */
  lemma ChunkFlatten<T>(message: seq<T>)
    ensures Flatten(Chunk(message)) == message
  {
    var rows := Chunk(message);
    var n := |rows|;
    if n > 0 {
      ChunkPrefix(message, n - 1);
      RowBounds(|message|, n - 1);
      assert rows[..n - 1] == rows[..|rows| - 1];
      assert message == message[..26 * (n - 1)] + rows[n - 1];
    }
  }

  /** The copy loops of `LoadTrigrams` for one message, with the running `index`. */
  method ChunkRows(message: seq<Trigram>) returns (rows: seq<seq<Trigram>>)
    ensures rows == Chunk(message)
  {
    var lineCount := |message| / TrigramsPerLine;
    var remainder := |message| % TrigramsPerLine;
    var index := 0;
    if remainder != 0 {
      lineCount := lineCount + 1;
    }
    var raw := new seq<Trigram>[lineCount];
    assert lineCount == RowCount(|message|);
    for j := 0 to lineCount
      invariant index == if 26 * j <= |message| then 26 * j else |message|
      invariant forall k :: 0 <= k < j ==> raw[k] == Chunk(message)[k]
    {
      var width := if j + 1 == lineCount && remainder != 0 then remainder else TrigramsPerLine;
      RowBounds(|message|, j);
      assert width == RowWidth(|message|, j);
      var row := new Trigram[width];
      for k := 0 to width
        modifies row
        invariant index == 26 * j + k
        invariant forall l :: 0 <= l < k ==> row[l] == message[26 * j + l]
      {
        row[k] := message[index];
        index := index + 1;
      }
      assert row[..] == Chunk(message)[j];
      raw[j] := row[..];
    }
    rows := raw[..];
  }

  // ---------------------------------------------------------------------
  // Column readings
  // ---------------------------------------------------------------------

  /** Cell `j` of every row that has one, top to bottom. */
  function Cells<T>(rows: seq<seq<T>>, j: int): seq<T>
  {
    if rows == [] then []
    else
      var last := rows[|rows| - 1];
      Cells(rows[..|rows| - 1], j) + (if 0 <= j < |last| then [last[j]] else [])
  }

  /** Column `j` read downwards, or upwards (`GetVerticalLineBottomToTop`). */
  function Oriented<T>(rows: seq<seq<T>>, j: int, down: bool): seq<T>
  {
    if down then Cells(rows, j) else Reversed(Cells(rows, j))
  }

  /**
    * The first `m` columns of a reading whose k-th column is `order(k)`:
    * even columns in the `oddDown` direction, odd ones in the `evenDown`
    * direction.
    */
  function ReadColumns<T>(rows: seq<seq<T>>, order: int -> int, m: nat, oddDown: bool, evenDown: bool): seq<T>
  {
    if m == 0 then []
    else
      var j := order(m - 1);
      ReadColumns(rows, order, m - 1, oddDown, evenDown) + Oriented(rows, j, if j % 2 == 0 then oddDown else evenDown)
  }

  /** Left to right the k-th column read is column k ... */
  function LeftToRightColumn(k: int): int
  {
    k
  }

  /** ... and right to left it is column 25 - k. */
  function RightToLeftColumn(k: int): int
  {
    TrigramsPerLine - 1 - k
  }

  /** The reading `GetVerticalLeftToRight` makes of one message's rows. */
  function LeftToRight<T>(rows: seq<seq<T>>, oddDown: bool, evenDown: bool): seq<T>
  {
    ReadColumns(rows, LeftToRightColumn, TrigramsPerLine, oddDown, evenDown)
  }

  /** The reading `GetVerticalRightToLeft` makes of one message's rows. */
  function RightToLeft<T>(rows: seq<seq<T>>, oddDown: bool, evenDown: bool): seq<T>
  {
    ReadColumns(rows, RightToLeftColumn, TrigramsPerLine, oddDown, evenDown)
  }

  // ---------------------------------------------------------------------
  // The provider
  // ---------------------------------------------------------------------

  class TrigramProvider {
    /** `RawTrigramData`: message, row, position. */
    const rawTrigramData: seq<seq<seq<Trigram>>>
    /** The parsed messages the grid was built from. */
    ghost const messages: seq<seq<Trigram>>

    ghost predicate Valid()
    {
      |messages| == MessageCount && |rawTrigramData| == MessageCount &&
      forall i :: 0 <= i < MessageCount ==> rawTrigramData[i] == Chunk(messages[i])
    }

    /**
      * Holds the given grid and messages. It is a valid provider when the
      * grid is the nine messages' row layouts, as `LoadTrigrams` builds it.
      */
    constructor (raw: seq<seq<seq<Trigram>>>, ghost parsed: seq<seq<Trigram>>)
      ensures rawTrigramData == raw && messages == parsed
      ensures (|parsed| == |raw| == MessageCount && forall i :: 0 <= i < MessageCount ==> raw[i] == Chunk(parsed[i])) ==> Valid()
    {
      rawTrigramData := raw;
      messages := parsed;
    }

    /** `GetMessageStandard(index)`: the rows of a message one after the other. */
    method GetMessageStandard(index: nat) returns (trigrams: seq<Trigram>)
      requires Valid() && index < MessageCount
      ensures trigrams == messages[index]
    {
      var rows := rawTrigramData[index];
      trigrams := [];
      for j := 0 to |rows|
        invariant trigrams == Flatten(rows[..j])
      {
        assert rows[..j + 1][..j] == rows[..j];
        for k := 0 to |rows[j]|
          invariant trigrams == Flatten(rows[..j]) + rows[j][..k]
        {
          assert rows[j][..k + 1] == rows[j][..k] + [rows[j][k]];
          trigrams := trigrams + [rows[j][k]];
        }
        assert rows[j][..|rows[j]|] == rows[j];
      }
      assert rows[..|rows|] == rows;
      ChunkFlatten(messages[index]);
    }

    /** `GetStandard()`: every message in its original order. */
    method GetStandard() returns (r: TrigramLineCollection)
      requires Valid()
      ensures fresh(r) && fresh(r.lines)
      ensures r.lines[..] == messages
    {
      var tcs := new seq<Trigram>[MessageCount];
      for i := 0 to tcs.Length
        invariant forall k :: 0 <= k < i ==> tcs[k] == messages[k]
      {
        tcs[i] := GetMessageStandard(i);
      }
      r := new TrigramLineCollection(tcs);
    }

    /** `GetReversed()`: every message back to front. */
    method GetReversed() returns (r: TrigramLineCollection)
      requires Valid()
      ensures fresh(r) && fresh(r.lines) && r.lines.Length == MessageCount
      ensures forall i :: 0 <= i < MessageCount ==> r.lines[i] == Reversed(messages[i])
    {
      var tcs := new seq<Trigram>[MessageCount];
      for i := 0 to tcs.Length
        invariant forall k :: 0 <= k < i ==> tcs[k] == Reversed(messages[k])
      {
        var trigrams := GetMessageStandard(i);
        tcs[i] := Reversed(trigrams);
      }
      r := new TrigramLineCollection(tcs);
    }

    /**
      * `GetVerticalLineTopToBottom(msgIndex, lineIndex)`: cell `lineIndex`
      * of each row; the last row contributes only when it is long enough.
      */
    method GetVerticalLineTopToBottom(msgIndex: nat, lineIndex: nat) returns (r: Result<seq<Trigram>>)
      requires Valid() && msgIndex < MessageCount
      ensures lineIndex >= TrigramsPerLine ==> r == Err(InvalidColumn)
      ensures lineIndex < TrigramsPerLine ==> r == Ok(Cells(rawTrigramData[msgIndex], lineIndex))
    {
      if lineIndex >= TrigramsPerLine {
        return Err(InvalidColumn);
      }
      var rows := rawTrigramData[msgIndex];
      ChunkShape(messages[msgIndex]);
      var result: seq<Trigram> := [];
      for i := 0 to |rows|
        invariant result == Cells(rows[..i], lineIndex)
      {
        assert rows[..i + 1][..i] == rows[..i];
        if i + 1 != |rows| || |rows[i]| > lineIndex {
          result := result + [rows[i][lineIndex]];
        }
      }
      assert rows[..|rows|] == rows;
      r := Ok(result);
    }

    /** `GetVerticalLineBottomToTop(msgIndex, lineIndex)`: the same column, read upwards. */
    method GetVerticalLineBottomToTop(msgIndex: nat, lineIndex: nat) returns (r: Result<seq<Trigram>>)
      requires Valid() && msgIndex < MessageCount
      ensures lineIndex >= TrigramsPerLine ==> r == Err(InvalidColumn)
      ensures lineIndex < TrigramsPerLine ==> r == Ok(Reversed(Cells(rawTrigramData[msgIndex], lineIndex)))
    {
      var trigrams := GetVerticalLineTopToBottom(msgIndex, lineIndex);
      if trigrams.Err? {
        return trigrams;
      }
      r := Ok(Reversed(trigrams.value));
    }

    /** Column `j` of message `i` in the direction its parity selects. */
    method ReadColumn(i: nat, j: nat, readOddDown: bool, readEvenDown: bool) returns (column: seq<Trigram>)
      requires Valid() && i < MessageCount && j < TrigramsPerLine
      ensures column == Oriented(rawTrigramData[i], j, if j % 2 == 0 then readOddDown else readEvenDown)
    {
      var down := if j % 2 == 0 then readOddDown else readEvenDown;
      var line: Result<seq<Trigram>>;
      if down {
        line := GetVerticalLineTopToBottom(i, j);
      } else {
        line := GetVerticalLineBottomToTop(i, j);
      }
      column := line.value;
    }

    /** The inner loop of `GetVerticalLeftToRight`: columns 0 to 25 of message `i`. */
    method ReadLeftToRight(i: nat, readOddDown: bool, readEvenDown: bool) returns (trigrams: seq<Trigram>)
      requires Valid() && i < MessageCount
      ensures trigrams == LeftToRight(rawTrigramData[i], readOddDown, readEvenDown)
    {
      trigrams := [];
      for j := 0 to TrigramsPerLine
        invariant trigrams == ReadColumns(rawTrigramData[i], LeftToRightColumn, j, readOddDown, readEvenDown)
      {
        var column := ReadColumn(i, j, readOddDown, readEvenDown);
        trigrams := trigrams + column;
      }
    }

    /** The inner loop of `GetVerticalRightToLeft`: columns 25 down to 0 of message `i`. */
    method ReadRightToLeft(i: nat, readOddDown: bool, readEvenDown: bool) returns (trigrams: seq<Trigram>)
      requires Valid() && i < MessageCount
      ensures trigrams == RightToLeft(rawTrigramData[i], readOddDown, readEvenDown)
    {
      trigrams := [];
      var j := TrigramsPerLine - 1;
      ghost var read: nat := 0;
      while j >= 0
        invariant -1 <= j < TrigramsPerLine && read == TrigramsPerLine - 1 - j
        invariant trigrams == ReadColumns(rawTrigramData[i], RightToLeftColumn, read, readOddDown, readEvenDown)
        decreases j
      {
        assert RightToLeftColumn(read) == j;
        var column := ReadColumn(i, j, readOddDown, readEvenDown);
        trigrams := trigrams + column;
        j := j - 1;
        read := read + 1;
      }
    }

    /** `GetVerticalLeftToRight(readOddDown, readEvenDown)`: every message read column by column, 0 to 25. */
    method GetVerticalLeftToRight(readOddDown: bool, readEvenDown: bool) returns (r: TrigramLineCollection)
      requires Valid()
      ensures fresh(r) && fresh(r.lines) && r.lines.Length == MessageCount
      ensures forall i :: 0 <= i < MessageCount ==> r.lines[i] == LeftToRight(rawTrigramData[i], readOddDown, readEvenDown)
    {
      ghost var expected := seq(MessageCount, k requires 0 <= k < MessageCount => LeftToRight(rawTrigramData[k], readOddDown, readEvenDown));
      var tcs := new seq<Trigram>[MessageCount];
      for i := 0 to tcs.Length
        invariant tcs[..i] == expected[..i]
      {
        tcs[i] := ReadLeftToRight(i, readOddDown, readEvenDown);
      }
      assert tcs[..] == expected;
      r := new TrigramLineCollection(tcs);
    }

    /** `GetVerticalRightToLeft(readOddDown, readEvenDown)`: every message read column by column, 25 down to 0. */
    method GetVerticalRightToLeft(readOddDown: bool, readEvenDown: bool) returns (r: TrigramLineCollection)
      requires Valid()
      ensures fresh(r) && fresh(r.lines) && r.lines.Length == MessageCount
      ensures forall i :: 0 <= i < MessageCount ==> r.lines[i] == RightToLeft(rawTrigramData[i], readOddDown, readEvenDown)
    {
      ghost var expected := seq(MessageCount, k requires 0 <= k < MessageCount => RightToLeft(rawTrigramData[k], readOddDown, readEvenDown));
      var tcs := new seq<Trigram>[MessageCount];
      for i := 0 to tcs.Length
        invariant tcs[..i] == expected[..i]
      {
        tcs[i] := ReadRightToLeft(i, readOddDown, readEvenDown);
      }
      assert tcs[..] == expected;
      r := new TrigramLineCollection(tcs);
    }
  }

  /** `LoadTrigrams`: exactly nine messages are required; each is copied into its rows. */
  method LoadTrigrams(messages: seq<seq<Trigram>>) returns (r: Result<TrigramProvider>)
    ensures |messages| != MessageCount ==> r == Err(InvalidMessageCount)
    ensures |messages| == MessageCount ==> r.Ok? && fresh(r.value) && r.value.Valid() && r.value.messages == messages
  {
    if |messages| != MessageCount {
      return Err(InvalidMessageCount);
    }
    var raw: seq<seq<seq<Trigram>>> := [];
    for i := 0 to |messages|
      invariant |raw| == i
      invariant forall k :: 0 <= k < i ==> raw[k] == Chunk(messages[k])
    {
      var rows := ChunkRows(messages[i]);
      raw := raw + [rows];
    }
    var provider := new TrigramProvider(raw, messages);
    r := Ok(provider);
  }

  // ---------------------------------------------------------------------
  // Every vertical reading is a permutation of the message
  // ---------------------------------------------------------------------

  /** The multiset union of the first `m` columns of a reading order. */
  function ColumnsMultiset<T>(rows: seq<seq<T>>, order: int -> int, m: nat): multiset<T>
  {
    if m == 0 then multiset{} else ColumnsMultiset(rows, order, m - 1) + multiset(Cells(rows, order(m - 1)))
  }

  /** Cell `j` of a row, when the row has one. */
  function CellOf<T>(row: seq<T>, j: int): multiset<T>
  {
    if 0 <= j < |row| then multiset{row[j]} else multiset{}
  }

  /** The cells of one row that the first `m` columns of a reading order pick. */
  function Picks<T>(row: seq<T>, order: int -> int, m: nat): multiset<T>
  {
    if m == 0 then multiset{} else Picks(row, order, m - 1) + CellOf(row, order(m - 1))
  }

  /** Whichever direction each column is read in, a reading holds the cells of its columns. */
  lemma {:induction false} ReadColumnsMultiset<T>(rows: seq<seq<T>>, order: int -> int, m: nat, oddDown: bool, evenDown: bool)
    ensures multiset(ReadColumns(rows, order, m, oddDown, evenDown)) == ColumnsMultiset(rows, order, m)
  {
    if m > 0 {
      ReadColumnsMultiset(rows, order, m - 1, oddDown, evenDown);
      ReversedMultiset(Cells(rows, order(m - 1)));
    }
  }

  /** A further row adds to column `j` its own cell `j`, when it has one. */
  lemma CellsSnoc<T>(rows: seq<seq<T>>, row: seq<T>, j: int)
    ensures multiset(Cells(rows + [row], j)) == multiset(Cells(rows, j)) + CellOf(row, j)
  {
    assert (rows + [row])[..|rows + [row]| - 1] == rows;
  }

  lemma Regroup<T>(a: multiset<T>, b: multiset<T>, c: multiset<T>, d: multiset<T>)
    ensures (a + b) + (c + d) == (a + c) + (b + d)
  {
  }

  /** No columns: nothing is picked from the further row. */
  lemma ColumnsMultisetSnocNone<T>(rows: seq<seq<T>>, row: seq<T>, order: int -> int)
    ensures ColumnsMultiset(rows + [row], order, 0) == ColumnsMultiset(rows, order, 0) + Picks(row, order, 0)
  {
    var none: multiset<T> := multiset{};
    assert none + none == none;
  }

  /** One more column: the further row adds its cell in that column. */
  lemma ColumnsMultisetSnocStep<T>(rows: seq<seq<T>>, row: seq<T>, order: int -> int, m: nat)
    requires m > 0
    requires ColumnsMultiset(rows + [row], order, m - 1) == ColumnsMultiset(rows, order, m - 1) + Picks(row, order, m - 1)
    ensures ColumnsMultiset(rows + [row], order, m) == ColumnsMultiset(rows, order, m) + Picks(row, order, m)
  {
    var j := order(m - 1);
    CellsSnoc(rows, row, j);
    Regroup(ColumnsMultiset(rows, order, m - 1), Picks(row, order, m - 1), multiset(Cells(rows, j)), CellOf(row, j));
  }

  lemma {:induction false} ColumnsMultisetSnocPositive<T>(rows: seq<seq<T>>, row: seq<T>, order: int -> int, m: nat)
    requires m > 0
    ensures ColumnsMultiset(rows + [row], order, m) == ColumnsMultiset(rows, order, m) + Picks(row, order, m)
  {
    if m > 1 {
      ColumnsMultisetSnocPositive(rows, row, order, m - 1);
    } else {
      ColumnsMultisetSnocNone(rows, row, order);
    }
    ColumnsMultisetSnocStep(rows, row, order, m);
  }

  /** A further row adds to the columns exactly the cells it has in them. */
  lemma ColumnsMultisetSnoc<T>(rows: seq<seq<T>>, row: seq<T>, order: int -> int, m: nat)
    ensures ColumnsMultiset(rows + [row], order, m) == ColumnsMultiset(rows, order, m) + Picks(row, order, m)
  {
    if m == 0 {
      ColumnsMultisetSnocNone(rows, row, order);
    } else {
      ColumnsMultisetSnocPositive(rows, row, order, m);
    }
  }

  /** An empty grid has empty columns. */
  lemma {:induction false} ColumnsEmpty<T>(rows: seq<seq<T>>, order: int -> int, m: nat)
    requires rows == []
    ensures ColumnsMultiset(rows, order, m) == multiset{}
  {
    if m > 0 {
      ColumnsEmpty(rows, order, m - 1);
    }
  }

  function Min(a: int, b: int): int
  {
    if a <= b then a else b
  }

  /** Columns 0..m-1 pick the cells of the row before position m. */
  lemma {:induction false} PicksLeftToRight<T>(row: seq<T>, m: nat)
    ensures Picks(row, LeftToRightColumn, m) == multiset(row[..Min(m, |row|)])
  {
    if m == 0 {
      assert row[..0] == [];
    } else {
      PicksLeftToRight(row, m - 1);
      if m <= |row| {
        assert row[..m] == row[..m - 1] + [row[m - 1]];
      } else {
        assert Min(m, |row|) == Min(m - 1, |row|);
      }
    }
  }

  /** Columns 25 down to 26-m pick the cells of the row from position 26-m on. */
  lemma {:induction false} PicksRightToLeft<T>(row: seq<T>, m: nat)
    requires m <= 26 && |row| <= 26
    ensures Picks(row, RightToLeftColumn, m) == multiset(row[Min(26 - m, |row|)..])
  {
    if m == 0 {
      assert row[|row|..] == [];
    } else {
      PicksRightToLeft(row, m - 1);
      var j := 26 - m;
      if j < |row| {
        assert row[j..] == [row[j]] + row[j + 1..];
      } else {
        assert Min(j, |row|) == Min(j + 1, |row|);
      }
    }
  }

  /** Reading columns 0..25 in either order picks every cell of a row of at most 26. */
  lemma PicksWholeRow<T>(row: seq<T>, width: nat)
    requires width == TrigramsPerLine && |row| <= width
    ensures Picks(row, LeftToRightColumn, width) == multiset(row)
    ensures Picks(row, RightToLeftColumn, width) == multiset(row)
  {
    PicksLeftToRight(row, width);
    PicksRightToLeft(row, width);
    assert row[..|row|] == row && row[0..] == row;
  }

  /** Over rows of at most 26 cells, all 26 columns together hold every cell of the grid exactly once. */
  lemma {:induction false} ColumnsCoverGrid<T>(rows: seq<seq<T>>, order: int -> int, m: nat)
    requires forall k :: 0 <= k < |rows| ==> Picks(rows[k], order, m) == multiset(rows[k])
    ensures ColumnsMultiset(rows, order, m) == multiset(Flatten(rows))
    decreases |rows|
  {
    if rows == [] {
      ColumnsEmpty(rows, order, m);
    } else {
      var init, last := rows[..|rows| - 1], rows[|rows| - 1];
      assert rows == init + [last];
      ColumnsCoverGrid(init, order, m);
      ColumnsCoverStep(init, last, order, m);
    }
  }

  /** A further row, all of whose cells the columns pick, adds its cells to the grid's columns. */
  lemma ColumnsCoverStep<T>(rows: seq<seq<T>>, row: seq<T>, order: int -> int, m: nat)
    requires Picks(row, order, m) == multiset(row)
    requires ColumnsMultiset(rows, order, m) == multiset(Flatten(rows))
    ensures ColumnsMultiset(rows + [row], order, m) == multiset(Flatten(rows + [row]))
  {
    ColumnsMultisetSnoc(rows, row, order, m);
    assert (rows + [row])[..|rows|] == rows;
  }

  /**
    * Every vertical reading of a message, left to right or right to left and
    * in any combination of directions, is a permutation of the message: each
    * cell is read exactly once.
    */
  lemma VerticalReadingIsPermutation<T>(message: seq<T>, oddDown: bool, evenDown: bool)
    ensures multiset(LeftToRight(Chunk(message), oddDown, evenDown)) == multiset(message)
    ensures multiset(RightToLeft(Chunk(message), oddDown, evenDown)) == multiset(message)
    ensures |LeftToRight(Chunk(message), oddDown, evenDown)| == |RightToLeft(Chunk(message), oddDown, evenDown)| == |message|
  {
    var rows := Chunk(message);
    ChunkShape(message);
    forall k | 0 <= k < |rows|
      ensures Picks(rows[k], LeftToRightColumn, TrigramsPerLine) == multiset(rows[k])
      ensures Picks(rows[k], RightToLeftColumn, TrigramsPerLine) == multiset(rows[k])
    {
      PicksWholeRow(rows[k], TrigramsPerLine);
    }
    ReadColumnsMultiset(rows, LeftToRightColumn, TrigramsPerLine, oddDown, evenDown);
    ReadColumnsMultiset(rows, RightToLeftColumn, TrigramsPerLine, oddDown, evenDown);
    ColumnsCoverGrid(rows, LeftToRightColumn, TrigramsPerLine);
    ColumnsCoverGrid(rows, RightToLeftColumn, TrigramsPerLine);
    ChunkFlatten(message);
    var left, right := LeftToRight(rows, oddDown, evenDown), RightToLeft(rows, oddDown, evenDown);
    assert |left| == |multiset(left)| == |multiset(message)| == |message|;
    assert |right| == |multiset(right)| == |multiset(message)|;
  }

  /** The bottom-to-top column is the reverse of the top-to-bottom one, and undoing it restores that column. */
  lemma BottomToTopReverses<T>(rows: seq<seq<T>>, j: int)
    ensures Oriented(rows, j, false) == Reversed(Oriented(rows, j, true))
    ensures Reversed(Oriented(rows, j, false)) == Oriented(rows, j, true)
  {
    ReversedInvolution(Cells(rows, j));
  }
}
