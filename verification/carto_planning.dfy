/**
 * `CartoDBInputFormat.getSplits`: read the row count from the CSV answer
 * to the count query, then cut the base query into `LIMIT`/`OFFSET`
 * slices of `count / splitCount` rows.
 *
 * The array holding the slices is allocated with `count / splitCount`
 * entries although `splitCount` entries are written, so the method fails
 * or pads with nulls depending on the inputs. `GetSplits` keeps that
 * behaviour; `GetSplitsIntended` sizes the array by `splitCount`.
 */
module CartoPlanning {
  import opened Outcome
  import opened JavaNumbers
  import opened TextSplit
  import opened CartoSplit

  /** The exceptions `getSplits` can end in. */
  datatype PlanError =
    | CountUnavailable              // IOException: no count response, or its second line is not an int
    | DivisionByZero                // ArithmeticException from count / splitCount
    | NegativeArraySize(size: int)  // NegativeArraySizeException from the array allocation
    | IndexOutOfBounds(index: int)  // ArrayIndexOutOfBoundsException from the filling loop

  /**
   * The row count: `Integer.parseInt(response.split("\n")[1])`. `None`
   * stands for a count query that threw; every failure becomes an IOException.
   */
  function ParseCount(response: Option<string>): (r: Result<int32, PlanError>)
    ensures r.Err? ==> r.error == CountUnavailable
    ensures response.None? ==> r.Err?
  {
    match response
    case None => Err(CountUnavailable)
    case Some(text) =>
      var lines := JavaSplit(text, '\n');
      if |lines| < 2 then Err(CountUnavailable)
      else
        match ParseInt(lines[1])
        case None => Err(CountUnavailable)
        case Some(n) => Ok(n)
  }

  /** One slice: `new DBInputSplit(sql, splitSize, i * splitSize)`. */
  function Slice(sql: string, splitSize: int32, i: int32): DBInputSplit
  {
    MulBounds(i, splitSize, 0x8000_0000);
    DBInputSplit(sql, splitSize, i * splitSize)
  }

  /** `getSplits` as written. */
  function GetSplits(countResponse: Option<string>, sql: string, splitCount: int32)
    : Result<seq<Option<DBInputSplit>>, PlanError>
  {
    match ParseCount(countResponse)
    case Err(e) => Err(e)
    case Ok(count) => PlanFromCount(count, sql, splitCount)
  }

  /**
   * The part of `getSplits` after the count is known: the array has
   * `count / splitCount` entries, which is also every slice's size; the
   * first `splitCount` entries are filled and the rest stay null.
   */
  function PlanFromCount(count: int32, sql: string, splitCount: int32)
    : (r: Result<seq<Option<DBInputSplit>>, PlanError>)
    ensures r == Err(DivisionByZero) <==> splitCount == 0
    ensures r.Ok? ==> splitCount <= |r.value|
    ensures r.Ok? ==> forall i | 0 <= i < |r.value| :: r.value[i].Some? <==> i < splitCount
    ensures r.Ok? ==> forall i | 0 <= i < |r.value| && i < splitCount ::
      && r.value[i].Some? && r.value[i].value.sql == sql
      && r.value[i].value.limit == |r.value| && r.value[i].value.offset == i * |r.value|
  {
    if splitCount == 0 then Err(DivisionByZero)
    else
      var splitSize := IntQuot(count, splitCount);
      if splitSize < 0 then Err(NegativeArraySize(splitSize))
      else if splitCount > splitSize then Err(IndexOutOfBounds(splitSize))
      else
        Ok(seq(splitSize, i requires 0 <= i < splitSize =>
               if i < splitCount then Some(Slice(sql, splitSize, i)) else None))
  }

  /** `getSplits` with the array sized by `splitCount`, as the loop that fills it expects. */
  function GetSplitsIntended(countResponse: Option<string>, sql: string, splitCount: int32)
    : Result<seq<DBInputSplit>, PlanError>
  {
    match ParseCount(countResponse)
    case Err(e) => Err(e)
    case Ok(count) => PlanFromCountIntended(count, sql, splitCount)
  }

  /** The intended plan: `splitCount` slices of `count / splitCount` rows, slice `i` at row `i` times that. */
  function PlanFromCountIntended(count: int32, sql: string, splitCount: int32)
    : (r: Result<seq<DBInputSplit>, PlanError>)
    ensures r.Ok? <==> splitCount > 0
    ensures r.Ok? ==> |r.value| == splitCount
    ensures r.Ok? ==> forall i | 0 <= i < |r.value| ::
      && r.value[i].sql == sql
      && r.value[i].limit == IntQuot(count, splitCount)
      && r.value[i].offset == i * IntQuot(count, splitCount)
  {
    if splitCount == 0 then Err(DivisionByZero)
    else if splitCount < 0 then Err(NegativeArraySize(splitCount))
    else
      var splitSize := IntQuot(count, splitCount);
      Ok(seq(splitCount, i requires 0 <= i < splitCount => Slice(sql, splitSize, i)))
  }

  /** Row `x` falls inside one of the slices. */
  ghost predicate Covered(splits: seq<DBInputSplit>, x: int)
  {
    exists k | 0 <= k < |splits| :: splits[k].offset <= x < splits[k].offset + splits[k].limit
  }

  // ---------------------------------------------------------------------
  // Lemmas
  // ---------------------------------------------------------------------

  /**
   * The count is the integer on the second line of the response: Java's
   * `split` drops trailing empty lines, but an empty line never parses,
   * so this is exactly "piece 1 of the newline split is an int".
   */
  lemma CountIsSecondLine(text: string)
    ensures var lines := Split(text, '\n');
      ParseCount(Some(text)).Ok? <==> |lines| >= 2 && ParseInt(lines[1]).Some?
    ensures var lines := Split(text, '\n');
      ParseCount(Some(text)).Ok? ==> ParseInt(lines[1]) == Some(ParseCount(Some(text)).value as int)
  {
    var lines := Split(text, '\n');
    if |lines| >= 2 {
      JavaSplitAgrees(text, '\n', 1);
    } else {
      assert '\n' !in text;
    }
  }

  /** With a positive split count, planning succeeds exactly when the count is at least splitCount². */
  lemma SucceedsIff(count: int32, sql: string, splitCount: int32)
    requires splitCount > 0
    ensures PlanFromCount(count, sql, splitCount).Ok? <==> 0 <= count && splitCount <= count / splitCount
  {
    if count >= 0 {
      QuotRemNonNegative(count, splitCount);
    } else {
      QuotOfNegative(count, splitCount);
    }
  }

  /** Whenever the code as written succeeds, its non-null entries are exactly the intended slices. */
  lemma AsWrittenAgreesWithIntended(count: int32, sql: string, splitCount: int32)
    requires PlanFromCount(count, sql, splitCount).Ok? && splitCount > 0
    ensures PlanFromCountIntended(count, sql, splitCount).Ok?
    ensures var written := PlanFromCount(count, sql, splitCount).value;
      var intended := PlanFromCountIntended(count, sql, splitCount).value;
      && |written| == count / splitCount
      && |intended| <= |written|
      && (forall i | 0 <= i < |intended| :: written[i] == Some(intended[i]))
      && (forall i | |intended| <= i < |written| :: written[i].None?)
  {
    if count >= 0 {
      QuotRemNonNegative(count, splitCount);
    } else {
      QuotOfNegative(count, splitCount);
    }
  }

  /**
   * The slices planned from a non-negative count with a positive split
   * count are back to back from row 0, all of `count / splitCount` rows,
   * and together cover exactly the first `count - count % splitCount` rows:
   * the last `count % splitCount` rows belong to no slice.
   */
  lemma IntendedSlicesTile(count: int32, sql: string, splitCount: int32)
    requires count >= 0 && splitCount > 0
    ensures PlanFromCountIntended(count, sql, splitCount).Ok?
    ensures var splits := PlanFromCountIntended(count, sql, splitCount).value;
      var n := count / splitCount;
      var covered := count - count % splitCount;
      && |splits| == splitCount
      && splits[0].offset == 0
      && (forall i | 0 <= i < |splits| ::
            splits[i].sql == sql && GetLength(splits[i]) == n && GetLocations(splits[i]) == [])
      && (forall i | 0 <= i < |splits| - 1 :: splits[i + 1].offset == splits[i].offset + splits[i].limit)
      && (forall x :: Covered(splits, x) <==> 0 <= x < covered)
  {
    IntendedShape(count, sql, splitCount);
    var splits := PlanFromCountIntended(count, sql, splitCount).value;
    var n := IntQuot(count, splitCount);
    TileContiguous(splits, n);
    TileCoverage(splits, n);
    CoveredPrefix(count, splitCount);
  }

  /** The intended plan is `splitCount` slices of the base SQL, slice `i` at offset `i * n`. */
  lemma IntendedShape(count: int32, sql: string, splitCount: int32)
    requires count >= 0 && splitCount > 0
    ensures PlanFromCountIntended(count, sql, splitCount).Ok?
    ensures var splits := PlanFromCountIntended(count, sql, splitCount).value;
      var n := IntQuot(count, splitCount);
      && n >= 0
      && |splits| == splitCount
      && forall i | 0 <= i < |splits| :: splits[i].offset == i * n && splits[i].limit == n && splits[i].sql == sql
  {
    QuotRemNonNegative(count, splitCount);
  }

  /** The rows the slices cover: all but the remainder of the division. */
  lemma CoveredPrefix(count: int32, splitCount: int32)
    requires count >= 0 && splitCount > 0
    ensures IntQuot(count, splitCount) == count / splitCount
    ensures count - count % splitCount == splitCount * IntQuot(count, splitCount)
  {
    QuotRemNonNegative(count, splitCount);
  }

  /** Slices of `n` rows at offsets `i * n` start at row 0 and each begins where the previous ends. */
  lemma TileContiguous(splits: seq<DBInputSplit>, n: int)
    requires forall i | 0 <= i < |splits| :: splits[i].offset == i * n && splits[i].limit == n
    ensures |splits| > 0 ==> splits[0].offset == 0
    ensures forall i | 0 <= i < |splits| - 1 :: splits[i + 1].offset == splits[i].offset + splits[i].limit
  {
    forall i | 0 <= i < |splits| - 1
      ensures splits[i + 1].offset == splits[i].offset + splits[i].limit
    {
      assert (i + 1) * n == i * n + n;
    }
  }

  /** Back-to-back slices of `n` rows from row 0 cover exactly rows `0 .. |splits| * n`. */
  lemma TileCoverage(splits: seq<DBInputSplit>, n: int)
    requires n >= 0
    requires forall i | 0 <= i < |splits| :: splits[i].offset == i * n && splits[i].limit == n
    ensures forall x :: Covered(splits, x) <==> 0 <= x < |splits| * n
  {
    forall x
      ensures Covered(splits, x) <==> 0 <= x < |splits| * n
    {
      if Covered(splits, x) {
        var k :| 0 <= k < |splits| && splits[k].offset <= x < splits[k].offset + splits[k].limit;
        TileInside(|splits|, n, k, x);
      }
      if 0 <= x < |splits| * n {
        var k := TileOf(|splits|, n, x);
        assert splits[k].offset <= x < splits[k].offset + splits[k].limit;
      }
    }
  }

  // ---------------------------------------------------------------------
  // The array-size defect, on concrete inputs
  // ---------------------------------------------------------------------

  lemma CountResponsePieces(header: string, number: string)
    requires '\n' !in header && '\n' !in number
    ensures Split(header + ['\n'] + number + ['\n'], '\n') == [header, number, ""]
  {
    var tail := number + ['\n'];
    LastPieceEmpty(number);
    SplitAround(header, '\n', tail);
    SplitWithoutSeparator(header, '\n');
    assert header + ['\n'] + number + ['\n'] == header + ['\n'] + tail;
  }

  /** A separator-free text followed by a newline splits into the text and an empty piece. */
  lemma LastPieceEmpty(number: string)
    requires '\n' !in number
    ensures Split(number + ['\n'], '\n') == [number, ""]
  {
    assert number + ['\n'] == number + ['\n'] + "";
    SplitAround(number, '\n', "");
    SplitWithoutSeparator(number, '\n');
  }

  /** A count response of a header line, the number, and a final newline: Java keeps two lines. */
  lemma CountResponseLines(header: string, number: string)
    requires '\n' !in header && '\n' !in number && number != ""
    ensures JavaSplit(header + ['\n'] + number + ['\n'], '\n') == [header, number]
  {
    var text := header + ['\n'] + number + ['\n'];
    CountResponsePieces(header, number);
    assert '\n' in text by {
      assert text[|header|] == '\n';
    }
    assert [header, number, ""][..2] == [header, number];
    assert DropTrailingEmpty([header, number, ""]) == DropTrailingEmpty([header, number]);
  }

  /** A header line, then the decimal count, then a newline: the count parses. */
  lemma CountParsed(header: string, count: int32)
    requires '\n' !in header
    ensures ParseCount(Some(header + ['\n'] + ToDecimal(count) + ['\n'])) == Ok(count)
  {
    var number := ToDecimal(count);
    CountResponseLines(header, number);
    DecimalRoundTrip(count, INT_MIN, INT_MAX);
  }

  /** 10 rows in 4 splits: the array has 10 / 4 = 2 entries and the loop writes index 2. */
  lemma ShortArrayOverflows(sql: string)
    ensures GetSplits(Some("count" + ['\n'] + ToDecimal(10) + ['\n']), sql, 4) == Err(IndexOutOfBounds(2))
  {
    CountParsed("count", 10);
    assert IntQuot(10, 4) == 2;
  }

  /** 9 rows in 2 splits: the array has 9 / 2 = 4 entries and the last two stay null. */
  lemma LongArrayHasNulls(sql: string)
    ensures GetSplits(Some("count" + ['\n'] + ToDecimal(9) + ['\n']), sql, 2).Ok?
    ensures var splits := GetSplits(Some("count" + ['\n'] + ToDecimal(9) + ['\n']), sql, 2).value;
      |splits| == 4 && splits[2].None? && splits[3].None?
  {
    CountParsed("count", 9);
    assert IntQuot(9, 2) == 4;
  }
}
