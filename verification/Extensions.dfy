/**
  * `ExtractTrigrams`, the parser that turns one CSV record of the glyph data
  * into a message: the first two fields are labels, blank fields are gaps in
  * the eye layout, and the remaining values are consumed three at a time as
  * the digits of consecutive trigrams. The record is taken as already split
  * into fields, each either blank or a parsed byte.
  */
module Extensions {
  import opened Primitives
  import opened Trigrams

  /** One field of a CSV record after `Split(',')`. */
  datatype Field = Blank | Value(n: Byte)

  /** `.Where(s => !string.IsNullOrWhiteSpace(s)).Select(byte.Parse)`: the values of the non-blank fields, in order. */
  function NonBlank(fields: seq<Field>): (values: seq<Byte>)
    ensures |values| <= |fields|
  {
    if fields == [] then []
    else
      var rest := NonBlank(fields[1..]);
      if fields[0].Blank? then rest else [fields[0].n] + rest
  }

  /** Filtering distributes over concatenation, so the values keep the order of their fields. */
  lemma {:induction false} NonBlankAppend(a: seq<Field>, b: seq<Field>)
    ensures NonBlank(a + b) == NonBlank(a) + NonBlank(b)
  {
    if a != [] {
      assert (a + b)[1..] == a[1..] + b;
      NonBlankAppend(a[1..], b);
    } else {
      assert a + b == b;
    }
  }

  /** A value is kept exactly when some field holds it; blank fields contribute nothing. */
  lemma {:induction false} NonBlankElements(fields: seq<Field>, v: Byte)
    ensures v in NonBlank(fields) <==> Value(v) in fields
  {
    if fields != [] {
      NonBlankElements(fields[1..], v);
      assert fields == [fields[0]] + fields[1..];
    }
  }

  /** The values the queue is filled with: the two label fields are skipped first. */
  function QueuedValues(fields: seq<Field>): seq<Byte>
  {
    NonBlank(if |fields| <= 2 then [] else fields[2..])
  }

  /**
    * The `while (values.Any())` loop: each round dequeues three values and
    * builds a trigram from them. The three `Dequeue` calls are evaluated
    * before the constructor checks any digit, so a short tail fails on the
    * empty queue even when it holds a value above 4.
    */
  function TrigramsOf(values: seq<Byte>): Result<seq<Trigram>>
    decreases |values|
  {
    if |values| == 0 then Ok([])
    else if |values| < 3 then Err(EmptyQueue)
    else
      match Trigram.FromDigits(values[0], values[1], values[2])
      case Err(e) => Err(e)
      case Ok(t) =>
        match TrigramsOf(values[3..])
        case Err(e) => Err(e)
        case Ok(ts) => Ok([t] + ts)
  }

  /** `ExtractTrigrams(csvLine)` of `TrigramProvider` and of `Extensions`. */
  method ExtractTrigrams(fields: seq<Field>) returns (r: Result<seq<Trigram>>)
    ensures r == TrigramsOf(QueuedValues(fields))
  {
    var values := QueuedValues(fields);
    var trigrams: seq<Trigram> := [];
    assert Prepend([], TrigramsOf(values)) == TrigramsOf(values) by {
      if TrigramsOf(values).Ok? {
        assert [] + TrigramsOf(values).value == TrigramsOf(values).value;
      }
    }
    while |values| > 0
      invariant TrigramsOf(QueuedValues(fields)) == Prepend(trigrams, TrigramsOf(values))
      decreases |values|
    {
      var queue := values;
      var x := values[0];
      values := values[1..];
      if |values| == 0 {
        return Err(EmptyQueue);
      }
      var y := values[0];
      values := values[1..];
      if |values| == 0 {
        return Err(EmptyQueue);
      }
      var z := values[0];
      values := values[1..];
      assert values == queue[3..];
      var t := Trigram.FromDigits(x, y, z);
      if t.Err? {
        return Err(t.error);
      }
      if TrigramsOf(values).Ok? {
        var later := TrigramsOf(values).value;
        assert trigrams + ([t.value] + later) == (trigrams + [t.value]) + later;
      }
      trigrams := trigrams + [t.value];
    }
    assert trigrams + [] == trigrams;
    r := Ok(trigrams);
  }

  /** The digits of the trigrams, three per trigram: the input a parse of `ts` must have consumed. */
  function FlattenDigits(ts: seq<Trigram>): (values: seq<Byte>)
    ensures |values| == 3 * |ts|
  {
    if ts == [] then [] else [ts[0].a as Byte, ts[0].b as Byte, ts[0].c as Byte] + FlattenDigits(ts[1..])
  }

  /** Parsing the flattened digits of any message gives the message back. */
  lemma {:induction false} ExtractFlattenRoundTrip(ts: seq<Trigram>)
    ensures TrigramsOf(FlattenDigits(ts)) == Ok(ts)
  {
    if ts != [] {
      var values := FlattenDigits(ts);
      assert values[3..] == FlattenDigits(ts[1..]);
      ExtractFlattenRoundTrip(ts[1..]);
      assert ts == [ts[0]] + ts[1..];
    }
  }

  /**
    * The parse succeeds exactly when the number of values is a multiple of
    * three and every value is a digit; it then yields one trigram per triple,
    * in order.
    */
  lemma {:induction false} ExtractSucceeds(values: seq<Byte>)
    ensures TrigramsOf(values).Ok? <==> |values| % 3 == 0 && forall i :: 0 <= i < |values| ==> values[i] <= 4
    ensures TrigramsOf(values).Ok? ==>
      |TrigramsOf(values).value| == |values| / 3 &&
      forall k :: 0 <= k < |values| / 3 ==>
        TrigramsOf(values).value[k] == Trigram(values[3 * k], values[3 * k + 1], values[3 * k + 2])
    decreases |values|
  {
    if |values| >= 3 {
      var rest := values[3..];
      ExtractSucceeds(rest);
      if TrigramsOf(values).Ok? {
        var ts := TrigramsOf(values).value;
        forall k | 0 <= k < |values| / 3
          ensures ts[k] == Trigram(values[3 * k], values[3 * k + 1], values[3 * k + 2])
        {
          if k > 0 {
            assert ts[k] == TrigramsOf(rest).value[k - 1];
            assert rest[3 * (k - 1)] == values[3 * k];
          }
        }
      }
      if |values| % 3 == 0 && forall i :: 0 <= i < |values| ==> values[i] <= 4 {
        assert forall i :: 0 <= i < |rest| ==> rest[i] == values[i + 3];
      }
      if TrigramsOf(values).Ok? {
        forall i | 0 <= i < |values|
          ensures values[i] <= 4
        {
          if i >= 3 {
            assert values[i] == rest[i - 3];
          }
        }
      }
    }
  }

  /**
    * Which exception a failed parse raises: a count that is not a multiple of
    * three ends on the empty queue when every value is a digit, and a value
    * above 4 trips the digit check when the count is right.
    */
  lemma {:induction false} ExtractFailures(values: seq<Byte>)
    ensures (forall i :: 0 <= i < |values| ==> values[i] <= 4) && |values| % 3 != 0 ==>
      TrigramsOf(values) == Err(EmptyQueue)
    ensures |values| % 3 == 0 && (exists i :: 0 <= i < |values| && values[i] > 4) ==>
      TrigramsOf(values) == Err(DigitOverflow)
    decreases |values|
  {
    if |values| >= 3 {
      var rest := values[3..];
      ExtractFailures(rest);
      if exists i :: 0 <= i < |values| && values[i] > 4 {
        var i :| 0 <= i < |values| && values[i] > 4;
        if i >= 3 {
          assert rest[i - 3] > 4;
        }
      }
    }
  }
}
