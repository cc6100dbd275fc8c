/**
 * `CartoDBInputFormat.DBInputSplit`: one `LIMIT`/`OFFSET` slice of the
 * CartoDB query, and the `write`/`readFields` pair Hadoop uses to ship it
 * to a worker.
 *
 * The serialised form is a stream of units: the query text is one
 * abstract `TextRecord` unit (the byte layout of `Text.writeString` is not
 * modelled), and each `long` is the eight big-endian two's-complement
 * bytes `DataOutput.writeLong` emits.
 */
module CartoSplit {
  import opened Outcome
  import opened JavaNumbers

  /** Constructor order is (sql, limit, offset); the stream order is sql, offset, limit. */
  datatype DBInputSplit = DBInputSplit(sql: string, limit: int64, offset: int64)

  /** `getLength`: the number of rows the split asks for. */
  function GetLength(split: DBInputSplit): int64
  {
    split.limit
  }

  /** `getLocations`: a CartoDB split has no preferred host. */
  function GetLocations(split: DBInputSplit): seq<string>
  {
    []
  }

  type byte = x: int | 0 <= x < 256

  /** One element of a serialised stream. */
  datatype Unit = TextRecord(text: string) | Byte(b: byte)

  /** `EOFException` when the stream ends early; `Malformed` when a unit of the wrong kind is found. */
  datatype ReadError = EndOfStream | Malformed

  const TWO_TO_64: int := 0x1_0000_0000_0000_0000

  function Pow256(n: nat): nat
  {
    if n == 0 then 1 else 256 * Pow256(n - 1)
  }

  /** The `n` low-order base-256 digits of `u`, most significant first. */
  function BigEndian(u: nat, n: nat): (bs: seq<byte>)
    ensures |bs| == n
  {
    if n == 0 then [] else BigEndian(u / 256, n - 1) + [u % 256]
  }

  function BigEndianValue(bs: seq<byte>): nat
  {
    if |bs| == 0 then 0 else BigEndianValue(bs[..|bs| - 1]) * 256 + bs[|bs| - 1]
  }

  predicate AllBytes(units: seq<Unit>)
  {
    forall i | 0 <= i < |units| :: units[i].Byte?
  }

  function ByteValues(units: seq<Unit>): (bs: seq<byte>)
    requires AllBytes(units)
    ensures |bs| == |units|
  {
    seq(|units|, i requires 0 <= i < |units| => units[i].b)
  }

  /** `DataOutput.writeLong`: eight bytes, high byte first, two's complement. */
  function WriteLong(v: int64): (out: seq<Unit>)
    ensures |out| == 8 && AllBytes(out)
  {
    var u := if v < 0 then v + TWO_TO_64 else v;
    var bs := BigEndian(u, 8);
    seq(8, i requires 0 <= i < 8 => Byte(bs[i]))
  }

  /** `DataInput.readLong`: the inverse of `WriteLong` on the first eight units. */
  function ReadLong(input: seq<Unit>): (r: Result<(int64, seq<Unit>), ReadError>)
    ensures r.Ok? ==> |input| >= 8 && r.value.1 == input[8..]
    ensures |input| < 8 <==> r == Err(EndOfStream)
  {
    if |input| < 8 then Err(EndOfStream)
    else if !AllBytes(input[..8]) then Err(Malformed)
    else
      var u := BigEndianValue(ByteValues(input[..8]));
      BigEndianBound(ByteValues(input[..8]));
      Ok((if u >= TWO_TO_64 / 2 then u - TWO_TO_64 else u, input[8..]))
  }

  /** `Text.writeString`, abstracted to one unit holding the text. */
  function WriteString(s: string): seq<Unit>
  {
    [TextRecord(s)]
  }

  /** `Text.readString`. */
  function ReadString(input: seq<Unit>): (r: Result<(string, seq<Unit>), ReadError>)
    ensures r.Ok? ==> |input| >= 1 && r.value.1 == input[1..]
    ensures |input| == 0 <==> r == Err(EndOfStream)
  {
    if |input| == 0 then Err(EndOfStream)
    else if input[0].Byte? then Err(Malformed)
    else Ok((input[0].text, input[1..]))
  }

  /**
   * `DBInputSplit.write`: sql, then offset, then limit. The text is the
   * first unit, and the `long` read right after it is the offset, with the
   * limit's eight bytes behind it.
   */
  function Write(split: DBInputSplit): (out: seq<Unit>)
    ensures |out| == 17
    ensures out[0] == TextRecord(split.sql)
    ensures ReadLong(out[1..]) == Ok((split.offset, WriteLong(split.limit)))
  {
    var w := WriteString(split.sql) + WriteLong(split.offset) + WriteLong(split.limit);
    assert w[1..] == WriteLong(split.offset) + WriteLong(split.limit);
    LongRoundTrip(split.offset, WriteLong(split.limit));
    w
  }

  /**
   * `DBInputSplit.readFields`: reads sql, then offset, then limit, and
   * returns what is left. A successful read consumes exactly seventeen
   * units, takes the sql from the first and the offset from the next eight.
   */
  function ReadFields(input: seq<Unit>): (r: Result<(DBInputSplit, seq<Unit>), ReadError>)
    ensures r.Ok? ==> |input| >= 17 && r.value.1 == input[17..]
    ensures r.Ok? ==> input[0] == TextRecord(r.value.0.sql)
    ensures r.Ok? ==> ReadLong(input[1..]) == Ok((r.value.0.offset, input[9..]))
    ensures r.Ok? ==> ReadLong(input[9..]) == Ok((r.value.0.limit, input[17..]))
  {
    match ReadString(input)
    case Err(e) => Err(e)
    case Ok((sql, afterSql)) =>
      match ReadLong(afterSql)
      case Err(e) => Err(e)
      case Ok((offset, afterOffset)) =>
        match ReadLong(afterOffset)
        case Err(e) => Err(e)
        case Ok((limit, rest)) => Ok((DBInputSplit(sql, limit, offset), rest))
  }

  // ---------------------------------------------------------------------
  // Lemmas
  // ---------------------------------------------------------------------

  lemma {:induction false} BigEndianBound(bs: seq<byte>)
    ensures BigEndianValue(bs) < Pow256(|bs|)
    decreases |bs|
  {
    if |bs| > 0 {
      BigEndianBound(bs[..|bs| - 1]);
    }
  }

  lemma {:induction false} BigEndianRoundTrip(u: nat, n: nat)
    requires u < Pow256(n)
    ensures BigEndianValue(BigEndian(u, n)) == u
    decreases n
  {
    if n > 0 {
      BigEndianRoundTrip(u / 256, n - 1);
      var bs := BigEndian(u, n);
      assert bs[..n - 1] == BigEndian(u / 256, n - 1);
    }
  }

  /** `readLong` recovers what `writeLong` wrote, whatever follows it. */
  lemma LongRoundTrip(v: int64, rest: seq<Unit>)
    ensures ReadLong(WriteLong(v) + rest) == Ok((v, rest))
  {
    var input := WriteLong(v) + rest;
    var u := if v < 0 then v + TWO_TO_64 else v;
    assert Pow256(8) == TWO_TO_64;
    BigEndianRoundTrip(u, 8);
    assert input[..8] == WriteLong(v);
    assert ByteValues(input[..8]) == BigEndian(u, 8);
    assert input[8..] == rest;
  }

  /** `readFields` after `write` restores sql, offset and limit, and leaves the rest of the stream. */
  lemma WriteReadRoundTrip(split: DBInputSplit, rest: seq<Unit>)
    ensures ReadFields(Write(split) + rest) == Ok((split, rest))
  {
    var offsetAndMore := WriteLong(split.offset) + WriteLong(split.limit) + rest;
    assert Write(split) + rest == [TextRecord(split.sql)] + offsetAndMore;
    assert ([TextRecord(split.sql)] + offsetAndMore)[1..] == offsetAndMore;
    LongRoundTrip(split.offset, WriteLong(split.limit) + rest);
    assert offsetAndMore == WriteLong(split.offset) + (WriteLong(split.limit) + rest);
    LongRoundTrip(split.limit, rest);
  }

  /** Any stream cut short of a full split makes `readFields` hit the end of the stream. */
  lemma TruncatedStreamFails(split: DBInputSplit, n: nat)
    requires n < |Write(split)|
    ensures ReadFields(Write(split)[..n]) == Err(EndOfStream)
  {
    var w := Write(split);
    var cut := w[..n];
    if n >= 1 {
      assert cut[0] == TextRecord(split.sql);
      var afterSql := cut[1..];
      if n >= 9 {
        var longs := WriteLong(split.offset) + WriteLong(split.limit);
        assert w == [TextRecord(split.sql)] + longs;
        assert afterSql == longs[..n - 1];
        assert afterSql[..8] == longs[..8] == WriteLong(split.offset);
        assert ReadLong(afterSql) == Ok((split.offset, afterSql[8..])) by {
          LongRoundTrip(split.offset, afterSql[8..]);
          assert afterSql == WriteLong(split.offset) + afterSql[8..];
        }
      }
    }
  }
}
