/**
 * `CartoDBInputFormat.CartoDBRecordReader`: on construction it runs the
 * split's query once and keeps the whole CSV answer as its newline-separated
 * pieces (header line and empty pieces included); `next` then hands the
 * pieces out in order, each keyed by its first comma-separated field.
 *
 * The CartoDB client is the parameter `execute`: the answer to a query
 * text, or `None` when the client throws.
 */
module CartoReader {
  import opened Outcome
  import opened JavaNumbers
  import opened TextSplit
  import opened CartoSplit

  /** The reader: its split, the lines not yet handed out, and `pos`, which nothing ever assigns. */
  datatype Reader = Reader(split: DBInputSplit, remaining: seq<string>, pos: int64)

  /** A `CartoDBException` from the query, rethrown by `getRecordReader` as an IOException. */
  datatype ReaderError = QueryFailed

  /** What one `next(key, value)` call returns, and the key and value texts it leaves behind. */
  datatype Step = Step(more: bool, reader: Reader, key: string, value: string)

  /** `getSql`: `Joiner.on(" ").join(sql, "LIMIT", limit, "OFFSET", offset)`. */
  function GetSql(split: DBInputSplit): (q: string)
    ensures q == split.sql + " LIMIT " + ToDecimal(split.limit) + " OFFSET " + ToDecimal(split.offset)
  {
    var limit, offset := ToDecimal(split.limit), ToDecimal(split.offset);
    JoinCons("OFFSET", [offset], ' ');
    JoinCons(limit, ["OFFSET", offset], ' ');
    JoinCons("LIMIT", [limit, "OFFSET", offset], ' ');
    JoinCons(split.sql, ["LIMIT", limit, "OFFSET", offset], ' ');
    Join([split.sql, "LIMIT", limit, "OFFSET", offset], ' ')
  }

  /** The constructor: one query for the split, the answer cut at every newline. */
  function Open(split: DBInputSplit, execute: string -> Option<string>): (r: Result<Reader, ReaderError>)
    ensures execute(GetSql(split)).None? <==> r.Err?
    ensures r.Ok? ==> r.value.split == split && r.value.pos == 0
    ensures r.Ok? ==> Join(r.value.remaining, '\n') == execute(GetSql(split)).value
  {
    match execute(GetSql(split))
    case None => Err(QueryFailed)
    case Some(response) =>
      JoinSplit(response, '\n');
      Ok(Reader(split, Split(response, '\n'), 0))
  }

  /** `next(key, value)`: the next line, keyed by `Splitter.on(",")`'s first piece of it. */
  function Next(r: Reader, key: string, value: string): (s: Step)
    ensures s.more <==> |r.remaining| > 0
    ensures s.more ==> r.remaining == [s.value] + s.reader.remaining
    ensures s.more ==> s.key == FirstField(s.value, ',')
    ensures !s.more ==> s == Step(false, r, key, value)
    ensures s.reader.split == r.split && s.reader.pos == r.pos
  {
    if |r.remaining| == 0 then Step(false, r, key, value)
    else
      var record := r.remaining[0];
      FirstPieceIsFirstField(record, ',');
      Step(true, r.(remaining := r.remaining[1..]), Split(record, ',')[0], record)
  }

  /** `getPos`. */
  function GetPos(r: Reader): int64
  {
    r.pos
  }

  /** The (key, value) pairs `next` yields until it first returns false. */
  function Drain(r: Reader, key: string, value: string): seq<(string, string)>
    decreases |r.remaining|
  {
    var s := Next(r, key, value);
    if !s.more then [] else [(s.key, s.value)] + Drain(s.reader, s.key, s.value)
  }

  // ---------------------------------------------------------------------
  // Lemmas
  // ---------------------------------------------------------------------

  /** Draining yields every remaining line, in order, keyed by its first comma field. */
  lemma {:induction false} DrainYieldsLines(r: Reader, key: string, value: string)
    ensures var out := Drain(r, key, value);
      && |out| == |r.remaining|
      && forall i | 0 <= i < |out| :: out[i] == (FirstField(r.remaining[i], ','), r.remaining[i])
    decreases |r.remaining|
  {
    var s := Next(r, key, value);
    if s.more {
      DrainYieldsLines(s.reader, s.key, s.value);
    }
  }

  /**
   * A freshly opened reader yields one record per newline-separated piece
   * of the answer, header and empty pieces included: one more than the
   * number of newlines. Joined back with newlines, the values are the answer.
   */
  lemma DrainOpened(split: DBInputSplit, execute: string -> Option<string>, key: string, value: string)
    requires Open(split, execute).Ok?
    ensures var response := execute(GetSql(split)).value;
      var out := Drain(Open(split, execute).value, key, value);
      && |out| == multiset(response)['\n'] + 1
      && (forall i | 0 <= i < |out| :: out[i].0 == FirstField(out[i].1, ','))
      && Join(seq(|out|, i requires 0 <= i < |out| => out[i].1), '\n') == response
  {
    var response := execute(GetSql(split)).value;
    var r := Open(split, execute).value;
    DrainYieldsLines(r, key, value);
    var out := Drain(r, key, value);
    assert seq(|out|, i requires 0 <= i < |out| => out[i].1) == r.remaining;
  }

  /** Once `next` has returned false it returns false on every later call and touches neither text. */
  lemma {:induction false} ExhaustedStaysExhausted(r: Reader, key: string, value: string, calls: nat)
    requires !Next(r, key, value).more
    ensures var after := Iterate(r, key, value, calls);
      !after.more && after.reader == r && after.key == key && after.value == value
    decreases calls
  {
    if calls > 0 {
      ExhaustedStaysExhausted(r, key, value, calls - 1);
    }
  }

  /** `calls + 1` successive `next` calls, each given the texts the previous one left. */
  function Iterate(r: Reader, key: string, value: string, calls: nat): Step
    decreases calls
  {
    var s := Next(r, key, value);
    if calls == 0 then s else Iterate(s.reader, s.key, s.value, calls - 1)
  }

  /** `getPos` is 0 after any number of `next` calls on an opened reader. */
  lemma {:induction false} PosStaysZero(r: Reader, key: string, value: string, calls: nat)
    requires GetPos(r) == 0
    ensures GetPos(Iterate(r, key, value, calls).reader) == 0
    decreases calls
  {
    if calls > 0 {
      var s := Next(r, key, value);
      PosStaysZero(s.reader, s.key, s.value, calls - 1);
    }
  }

  /** The query text ends in the split's limit and offset, which parse back to the same numbers. */
  lemma GetSqlRecoversSplit(split: DBInputSplit)
    ensures var words := Split(GetSql(split), ' ');
      && |words| >= 5
      && words[|words| - 4] == "LIMIT" && words[|words| - 2] == "OFFSET"
      && ParseLong(words[|words| - 3]) == Some(split.limit as int)
      && ParseLong(words[|words| - 1]) == Some(split.offset as int)
      && Join(words[..|words| - 4], ' ') == split.sql
  {
    var tail := ["LIMIT", ToDecimal(split.limit), "OFFSET", ToDecimal(split.offset)];
    JoinCons(split.sql, tail, ' ');
    assert [split.sql] + tail == [split.sql, "LIMIT", ToDecimal(split.limit), "OFFSET", ToDecimal(split.offset)];
    assert GetSql(split) == split.sql + [' '] + Join(tail, ' ');
    assert forall i | 0 <= i < |tail| :: ' ' !in tail[i];
    SplitJoin(tail, ' ');
    SplitAround(split.sql, ' ', Join(tail, ' '));
    var words := Split(GetSql(split), ' ');
    assert words == Split(split.sql, ' ') + tail;
    assert words[..|words| - 4] == Split(split.sql, ' ');
    JoinSplit(split.sql, ' ');
    LongDecimalRoundTrip(split.limit);
    LongDecimalRoundTrip(split.offset);
  }
}
