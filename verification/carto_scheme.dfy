/**
 * `CartoDBScheme`: the Cascading source side of the CartoDB tap.
 * `sourcePrepare` makes one key/value pair from the record reader, and
 * every `source` call reuses it: it asks the reader for the next line and,
 * when there is one, sets the incoming entry's tuple to the line's
 * comma-separated pieces (no CSV quoting, empty pieces kept).
 */
module CartoScheme {
  import opened Outcome
  import opened TextSplit
  import opened CartoReader

  /** The source-call context: the reader's key and value texts. */
  datatype Context = Context(key: string, value: string)

  /** What one `source` call returns and what it leaves in the source call. */
  datatype Sourced = Sourced(result: bool, reader: Reader, context: Context, tuple: Option<seq<string>>)

  /** `sourcePrepare`: `createKey()` and `createValue()` both make an empty `Text`. */
  function SourcePrepare(): Context
  {
    Context("", "")
  }

  /** The tuple built from one line: `Splitter.on(",")` over the value text. */
  function Adapt(line: string): (fields: seq<string>)
    ensures |fields| == multiset(line)[','] + 1
    ensures forall i | 0 <= i < |fields| :: ',' !in fields[i]
    ensures Join(fields, ',') == line
  {
    JoinSplit(line, ',');
    Split(line, ',')
  }

  /**
   * `source`: one `next` on the reader with the context's texts; on false
   * nothing else happens, otherwise the incoming tuple becomes the adapted value.
   */
  function Source(context: Context, reader: Reader, tuple: Option<seq<string>>): (s: Sourced)
    ensures s.result == Next(reader, context.key, context.value).more
    ensures !s.result ==> s.tuple == tuple && s.context == context && s.reader == reader
    ensures s.result ==> s.tuple.Some? && Join(s.tuple.value, ',') == s.context.value
    ensures s.result ==> [s.context.value] + s.reader.remaining == reader.remaining
  {
    var step := Next(reader, context.key, context.value);
    if !step.more then Sourced(false, step.reader, context, tuple)
    else Sourced(true, step.reader, Context(step.key, step.value), Some(Adapt(step.value)))
  }

  /** The tuples `source` sets, call after call, until it returns false. */
  function SourceAll(context: Context, reader: Reader, tuple: Option<seq<string>>): seq<seq<string>>
    decreases |reader.remaining|
  {
    var s := Source(context, reader, tuple);
    if !s.result then [] else [s.tuple.value] + SourceAll(s.context, s.reader, s.tuple)
  }

  // ---------------------------------------------------------------------
  // Lemmas
  // ---------------------------------------------------------------------

  /** The source emits one tuple per remaining line, each the line's comma-separated pieces. */
  lemma {:induction false} SourceAllAdaptsLines(context: Context, reader: Reader, tuple: Option<seq<string>>)
    ensures var out := SourceAll(context, reader, tuple);
      && |out| == |reader.remaining|
      && forall i | 0 <= i < |out| :: out[i] == Split(reader.remaining[i], ',')
    decreases |reader.remaining|
  {
    var s := Source(context, reader, tuple);
    if s.result {
      SourceAllAdaptsLines(s.context, s.reader, s.tuple);
    }
  }

  /**
   * Sourcing from the context `sourcePrepare` made, reused across calls,
   * emits the adapted tuple of every remaining line, in order.
   */
  lemma PreparedSourceAdaptsLines(reader: Reader, tuple: Option<seq<string>>)
    ensures SourceAll(SourcePrepare(), reader, tuple) ==
      seq(|reader.remaining|, i requires 0 <= i < |reader.remaining| => Adapt(reader.remaining[i]))
  {
    SourceAllAdaptsLines(SourcePrepare(), reader, tuple);
  }

  /** The examples of the tuple shape: arity follows the commas, and an empty line is one empty field. */
  lemma AdaptExamples()
    ensures Adapt("a,b,c") == ["a", "b", "c"]
    ensures Adapt("a") == ["a"]
    ensures Adapt("") == [""]
  {
    SplitJoin(["a", "b", "c"], ',');
    assert Join(["a", "b", "c"], ',') == "a,b,c";
    SplitWithoutSeparator("a", ',');
  }

  /** A line made by joining comma-free fields adapts back to exactly those fields. */
  lemma AdaptJoined(fields: seq<string>)
    requires |fields| >= 1
    requires forall i | 0 <= i < |fields| :: ',' !in fields[i]
    ensures Adapt(Join(fields, ',')) == fields
  {
    SplitJoin(fields, ',');
  }
}
