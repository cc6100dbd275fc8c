# cascalog-contrib input formats in Dafny

This project models the read side of two Hadoop input formats from
cascalog-contrib and proves properties of the model.

- **Elasticsearch** (`ElasticSearchInputFormat`). `initiate_search` counts the hits of a query. It lowers the configured split count to the hit count and derives a stride. `getSplits` then emits one `(query, from, size)` window per split, plus a trailing window for the remainder. The record reader sends one search for its window and hands out the hits as `(id, source)` pairs.
- **CartoDB** (`CartoDBInputFormat`, `CartoDBScheme`). `getSplits` parses the row count from the CSV answer to a count query. It cuts the base SQL into `LIMIT`/`OFFSET` slices of `count / splitCount` rows. `DBInputSplit` ships a slice as a text plus two `long`s. The record reader runs the slice's query once and hands out the answer's newline-separated lines, each keyed by its first comma field. The Cascading scheme turns every line into a tuple of its comma-separated fields.

Java semantics are written out where they matter:

- `/` and `%` truncate toward zero, and `int` division wraps at `MIN_VALUE / -1` (`JavaNumbers`).
- `Integer.parseInt` and `Long.parseLong` read an optional sign and ASCII digits, with a range check (`JavaNumbers`).
- `String.split` drops trailing empty strings, but Guava's `Splitter` keeps them (`TextSplit`).
- `DataOutput.writeLong` writes eight big-endian two's-complement bytes (`CartoSplit`).

Calls to remote services are parameters:

- The CartoDB client is a function from query text to `Option<string>`, where `None` stands for a thrown exception. The answer to the count query over HTTP is a given `Option<string>` in the same sense.
- The Elasticsearch search is a function from a request to its hits. The reader records the requests it sends.

Modules:

| file | module | models |
|---|---|---|
| outcome.dfy | `Outcome` | `Option`, `Result` |
| java_numbers.dfy | `JavaNumbers` | Java integer ranges, truncating division, decimal text, `parseInt`/`parseLong` |
| text_split.dfy | `TextSplit` | one-character `Splitter`/`Joiner`, `String.split` |
| carto_split.dfy | `CartoSplit` | `DBInputSplit`, `write`, `readFields` |
| carto_planning.dfy | `CartoPlanning` | CartoDB `getSplits` as written and as intended |
| carto_reader.dfy | `CartoReader` | `CartoDBRecordReader` |
| carto_scheme.dfy | `CartoScheme` | `CartoDBScheme.sourcePrepare`, `source` |
| es_planning.dfy | `EsPlanning` | `initiate_search`, Elasticsearch `getSplits` as written and as intended |
| es_reader.dfy | `EsReader` | `ElasticSearchRecordReader` |

A reader of these formats might expect a stripped CSV header, paged fetches, and one remainder policy shared by both planners. The code does otherwise, and the model follows the code:

- The CartoDB reader keeps the CSV header line and every empty piece of the answer, including the one after a final newline. It does not strip the header.
- The Elasticsearch reader sends one search of `size` hits and never pages. There is no follow-up fetch from `from + recordsRead`.
- The two planners handle the remainder differently:
  - the CartoDB planner leaves the last `count % splitCount` rows out;
  - the Elasticsearch planner adds a trailing window, but that window is always one hit short, and the regular windows are one hit short whenever the stride exceeds 1 (see Findings).

## Model

| member | source | states |
|---|---|---|
| JavaNumbers.Quot | cascalog.elasticsearch/src/jvm/backtype/hadoop/ElasticSearchInputFormat.java:126 | `long` division rounds toward zero: the quotient's magnitude is the floor of `|a| / |b|`, bracketed by `|q| * |b| <= |a| < (|q| + 1) * |b|`, and it is negative only when the signs differ |
| JavaNumbers.IntQuot | cascalog.cartodb/src/jvm/cartodb/CartoDBInputFormat.java:70 | `int` division truncates toward zero and stays in range; it differs from exact truncating division only at `MIN_VALUE / -1` |
| JavaNumbers.Rem | cascalog.elasticsearch/src/jvm/backtype/hadoop/ElasticSearchInputFormat.java:72 | the remainder of `%` is smaller in magnitude than the divisor, and a non-zero remainder has the sign of the dividend |
| JavaNumbers.QuotRem | cascalog.elasticsearch/src/jvm/backtype/hadoop/ElasticSearchInputFormat.java:72 | Java's division identity `(a / b) * b + a % b == a` holds for every `a` and non-zero `b`. With the rounding that `Quot` states and the remainder sign that `Rem` states, this fixes both operators as truncating division |
| JavaNumbers.ToDecimal | cascalog.cartodb/src/jvm/cartodb/CartoDBInputFormat.java:143-144 | `Long.toString`: digits only, with a leading minus exactly for a negative number; `ToDecimalCanonical` states that no leading zero is printed |
| JavaNumbers.ToDecimalCanonical | cascalog.cartodb/src/jvm/cartodb/CartoDBInputFormat.java:143-144 | the printed number has no leading zero: more than one digit starts with a non-zero digit, and a negative number's first digit after the minus is not zero |
| JavaNumbers.ParseInteger | cascalog.cartodb/src/jvm/cartodb/CartoDBInputFormat.java:65 | an accepted text is an optional sign followed by at least one digit, and its value lies in the bounds. A negative value has a leading minus, and an empty text or a lone sign is rejected |
| JavaNumbers.ParseInt | cascalog.cartodb/src/jvm/cartodb/CartoDBInputFormat.java:65 | `Integer.parseInt` accepts only values in the `int` range; `DecimalRoundTrip` states that it reads back every such value |
| JavaNumbers.DecimalRoundTrip | cascalog.cartodb/src/jvm/cartodb/CartoDBInputFormat.java:65 | `parseInt` reads any in-range integer back from its decimal text |
| JavaNumbers.LongDecimalRoundTrip | cascalog.cartodb/src/jvm/cartodb/CartoDBInputFormat.java:143-144 | every `long` the query text prints parses back to the same `long` |
| TextSplit.Split | cascalog.cartodb/src/jvm/cartodb/CartoDBInputFormat.java:138 | the splitter yields one more piece than there are separators, and no piece holds a separator |
| TextSplit.JoinSplit | cascalog.cartodb/src/jvm/cartodb/CartoDBInputFormat.java:138 | joining the pieces with the separator gives back the text, so no character is lost |
| TextSplit.Join | cascalog.cartodb/src/jvm/cartodb/CartoDBInputFormat.java:143-144 | Guava's `Joiner`. It has no contract of its own; `JoinSeparators`, `JoinSplit` and `SplitJoin` state what it means |
| TextSplit.JoinSeparators | cascalog.cartodb/src/jvm/cartodb/CartoDBInputFormat.java:143-144 | a join starts with its first part, followed by the separator when more parts come. When no part holds the separator, the text has exactly one separator fewer than there are parts |
| TextSplit.SplitJoin | cascalog.cartodb/src/jvm/cartodb/CartoDBScheme.java:48 | splitting a join of separator-free parts gives back exactly those parts |
| TextSplit.FirstField | cascalog.cartodb/src/jvm/cartodb/CartoDBInputFormat.java:178 | the key is a separator-free prefix of the record, either the whole record or followed by a comma |
| TextSplit.JavaSplit | cascalog.cartodb/src/jvm/cartodb/CartoDBInputFormat.java:65 | `String.split` keeps a prefix of the splitter's pieces, and every piece it drops is empty. When the text holds the separator, the last kept piece is non-empty; otherwise the result is the text itself |
| TextSplit.JavaSplitAgrees | cascalog.cartodb/src/jvm/cartodb/CartoDBInputFormat.java:65 | each piece `String.split` keeps is the splitter's piece at the same position, and every non-empty piece of the splitter is kept |
| CartoSplit.GetLength | cascalog.cartodb/src/jvm/cartodb/CartoDBInputFormat.java:101-104 | `getLength` is the slice's row count; `CartoPlanning.IntendedSlicesTile` states that every intended slice has `count / splitCount` rows |
| CartoSplit.GetLocations | cascalog.cartodb/src/jvm/cartodb/CartoDBInputFormat.java:106-109 | `getLocations` is empty; `CartoPlanning.IntendedSlicesTile` states this of every intended slice |
| CartoSplit.WriteLong | cascalog.cartodb/src/jvm/cartodb/CartoDBInputFormat.java:121-122 | a `long` is written as exactly eight bytes |
| CartoSplit.ReadLong | cascalog.cartodb/src/jvm/cartodb/CartoDBInputFormat.java:114-115 | `readLong` consumes exactly eight units and fails with end of stream exactly when fewer remain |
| CartoSplit.Write | cascalog.cartodb/src/jvm/cartodb/CartoDBInputFormat.java:118-123 | a split is written as seventeen units. The first is the sql text, and the `long` read right after it is the offset, followed by the limit's eight bytes |
| CartoSplit.ReadFields | cascalog.cartodb/src/jvm/cartodb/CartoDBInputFormat.java:111-116 | a successful read consumes exactly seventeen units. It takes the sql from the first unit, the offset from the next eight and the limit from the eight after those |
| CartoSplit.LongRoundTrip | cascalog.cartodb/src/jvm/cartodb/CartoDBInputFormat.java:114-122 | `readLong` recovers what `writeLong` wrote, whatever follows |
| CartoSplit.WriteReadRoundTrip | cascalog.cartodb/src/jvm/cartodb/CartoDBInputFormat.java:111-123 | `readFields` after `write` restores sql, offset and limit, in the stream order offset then limit, and leaves the rest of the stream |
| CartoSplit.TruncatedStreamFails | cascalog.cartodb/src/jvm/cartodb/CartoDBInputFormat.java:111-116 | a stream cut anywhere inside a written split makes `readFields` fail with end of stream |
| CartoPlanning.ParseCount | cascalog.cartodb/src/jvm/cartodb/CartoDBInputFormat.java:60-68 | every failure to fetch or parse the count is the one IOException, and a failed fetch always fails |
| CartoPlanning.GetSplits | cascalog.cartodb/src/jvm/cartodb/CartoDBInputFormat.java:57-76 | `getSplits` as written: `ParseCount` and then `PlanFromCount`. `ShortArrayOverflows` and `LongArrayHasNulls` exhibit its two array-size quirks |
| CartoPlanning.PlanFromCount | cascalog.cartodb/src/jvm/cartodb/CartoDBInputFormat.java:69-75 | a zero split count is the division error. On success the array has at least `splitCount` entries, and exactly the first `splitCount` are filled. Slice `i` has the base SQL, the array length as its limit, and `i` times that as its offset |
| CartoPlanning.GetSplitsIntended | cascalog.cartodb/src/jvm/cartodb/CartoDBInputFormat.java:57-76 | `getSplits` with the array sized by `splitCount`: `ParseCount` and then `PlanFromCountIntended` |
| CartoPlanning.PlanFromCountIntended | cascalog.cartodb/src/jvm/cartodb/CartoDBInputFormat.java:69-75 | succeeds exactly for a positive split count, with `splitCount` slices; slice `i` has the base SQL, `count / splitCount` rows and offset `i` times that |
| CartoPlanning.CountIsSecondLine | cascalog.cartodb/src/jvm/cartodb/CartoDBInputFormat.java:65 | the count parses exactly when the second newline-separated piece is an `int`, and then it is that `int` |
| CartoPlanning.CountParsed | cascalog.cartodb/src/jvm/cartodb/CartoDBInputFormat.java:61-68 | an answer of a header line, the decimal count and a newline yields that count |
| CartoPlanning.SucceedsIff | cascalog.cartodb/src/jvm/cartodb/CartoDBInputFormat.java:69-75 | with a positive split count, planning as written succeeds exactly when `0 <= count` and `splitCount <= count / splitCount` |
| CartoPlanning.AsWrittenAgreesWithIntended | cascalog.cartodb/src/jvm/cartodb/CartoDBInputFormat.java:69-75 | whenever the code as written succeeds, its array has exactly `count / splitCount` entries. They are the intended slices followed only by nulls |
| CartoPlanning.ShortArrayOverflows | cascalog.cartodb/src/jvm/cartodb/CartoDBInputFormat.java:70-73 | 10 rows in 4 splits: a 2-entry array, and the loop writes index 2 |
| CartoPlanning.LongArrayHasNulls | cascalog.cartodb/src/jvm/cartodb/CartoDBInputFormat.java:70-75 | 9 rows in 2 splits: a 4-entry array whose last two entries stay null |
| CartoPlanning.IntendedSlicesTile | cascalog.cartodb/src/jvm/cartodb/CartoDBInputFormat.java:69-75 | the intended plan has `splitCount` slices of `count / splitCount` rows, back to back from row 0. They cover exactly the first `count - count % splitCount` rows, and each has the base SQL and no preferred location |
| CartoReader.GetSql | cascalog.cartodb/src/jvm/cartodb/CartoDBInputFormat.java:142-145 | the query is the base SQL, ` LIMIT `, the limit, ` OFFSET `, the offset |
| CartoReader.GetSqlRecoversSplit | cascalog.cartodb/src/jvm/cartodb/CartoDBInputFormat.java:142-145 | the last four words of the query are `LIMIT`, the limit, `OFFSET`, the offset; the numbers parse back and the words before them join back to the base SQL |
| CartoReader.Open | cascalog.cartodb/src/jvm/cartodb/CartoDBInputFormat.java:133-140 | opening fails exactly when the query throws; otherwise the buffered lines join back to the whole answer and the position is 0 |
| CartoReader.Next | cascalog.cartodb/src/jvm/cartodb/CartoDBInputFormat.java:172-181 | `next` yields exactly while lines remain, hands out the first remaining line keyed by its first comma field, and returns false with the texts untouched |
| CartoReader.GetPos | cascalog.cartodb/src/jvm/cartodb/CartoDBInputFormat.java:147-150 | `getPos` returns the `pos` field; `PosStaysZero` states that it stays 0 |
| CartoReader.DrainYieldsLines | cascalog.cartodb/src/jvm/cartodb/CartoDBInputFormat.java:172-181 | repeated `next` yields every remaining line in order, each keyed by its first field |
| CartoReader.DrainOpened | cascalog.cartodb/src/jvm/cartodb/CartoDBInputFormat.java:133-181 | an opened reader yields one record per newline of the answer plus one, header included, and the values join back to the answer |
| CartoReader.ExhaustedStaysExhausted | cascalog.cartodb/src/jvm/cartodb/CartoDBInputFormat.java:174-176 | after the first false, every later `next` returns false and changes nothing |
| CartoReader.PosStaysZero | cascalog.cartodb/src/jvm/cartodb/CartoDBInputFormat.java:147-150 | `getPos` stays 0 however many records are read |
| CartoScheme.Adapt | cascalog.cartodb/src/jvm/cartodb/CartoDBScheme.java:47-50 | the tuple has one field more than the line has commas, no field holds a comma, and the fields join back to the line |
| CartoScheme.Source | cascalog.cartodb/src/jvm/cartodb/CartoDBScheme.java:38-53 | `source` returns what `next` returns. On false the tuple, context and reader are untouched; on true the new tuple joins back to the line just read, and that line leaves the reader |
| CartoScheme.SourceAllAdaptsLines | cascalog.cartodb/src/jvm/cartodb/CartoDBScheme.java:38-53 | the source emits one tuple per remaining line, in order, each the line's comma-separated fields |
| CartoScheme.PreparedSourceAdaptsLines | cascalog.cartodb/src/jvm/cartodb/CartoDBScheme.java:38-69 | sourcing with the one key/value pair `sourcePrepare` made, reused on every call, emits the adapted tuple of every remaining line, in order |
| CartoScheme.AdaptExamples | cascalog.cartodb/src/jvm/cartodb/CartoDBScheme.java:48-50 | `a,b,c` gives three fields, `a` one, and an empty line one empty field |
| CartoScheme.AdaptJoined | cascalog.cartodb/src/jvm/cartodb/CartoDBScheme.java:48-50 | a line made of comma-free fields adapts back to exactly those fields |
| EsPlanning.InitiateSearch | cascalog.elasticsearch/src/jvm/backtype/hadoop/ElasticSearchInputFormat.java:117-127 | the division fails exactly when the split count is 0, or positive with no hits. With a positive count the split count is lowered to at most the hits, and the stride is the floor of hits per split |
| EsPlanning.StrideBounds | cascalog.elasticsearch/src/jvm/backtype/hadoop/ElasticSearchInputFormat.java:126 | `stride * numSplits <= numHits < (stride + 1) * numSplits` |
| EsPlanning.GetSplits | cascalog.elasticsearch/src/jvm/backtype/hadoop/ElasticSearchInputFormat.java:62-79 | `getSplits` as written. It has no contract of its own; `SplitsShape`, `SplitsWithinHitsAndDisjoint`, `StrideEndUncovered` and `LastHitUncovered` state what it computes |
| EsPlanning.GetSplitsIntended | cascalog.elasticsearch/src/jvm/backtype/hadoop/ElasticSearchInputFormat.java:62-79 | `getSplits` with window sizes `stride` and `remainder`. It has no contract of its own; `IntendedSplitsTile` states what it computes |
| EsPlanning.SplitsShape | cascalog.elasticsearch/src/jvm/backtype/hadoop/ElasticSearchInputFormat.java:62-79 | planning succeeds exactly with at least one hit and one split, and a negative split count fails at the list capacity. On success there are `numSplits` windows at `i * stride` of size `stride - 1` (1 when the stride is 1), plus a trailing window of size `numHits % numSplits - 1` exactly when the remainder is positive |
| EsPlanning.SplitsWithinHitsAndDisjoint | cascalog.elasticsearch/src/jvm/backtype/hadoop/ElasticSearchInputFormat.java:66-75 | every planned window lies within the hits, and the windows are ordered and pairwise disjoint |
| EsPlanning.StrideEndUncovered | cascalog.elasticsearch/src/jvm/backtype/hadoop/ElasticSearchInputFormat.java:68-71 | with a stride above 1, the last hit of every stride is read by no split |
| EsPlanning.LastHitUncovered | cascalog.elasticsearch/src/jvm/backtype/hadoop/ElasticSearchInputFormat.java:72-75 | when the hits do not divide evenly, the last hit is read by no split |
| EsPlanning.FourHitsTwoSplits | cascalog.elasticsearch/src/jvm/backtype/hadoop/ElasticSearchInputFormat.java:62-79 | 4 hits in 2 splits give windows (0, 1) and (2, 1), so hits 1 and 3 are never read |
| EsPlanning.IntendedSplitsTile | cascalog.elasticsearch/src/jvm/backtype/hadoop/ElasticSearchInputFormat.java:62-79 | with sizes `stride` and `remainder`, the windows lie within the hits, are disjoint, and cover every hit |
| EsReader.InitializeReachable | cascalog.elasticsearch/src/jvm/backtype/hadoop/ElasticSearchInputFormat.java:172-179 | a reader after `initialize` is in the reachable state: no request sent, nothing read, no iterator. It owes the split's size, or nothing when the size is not positive, and the one request it may send is the split's own `(query, from, size)` |
| EsReader.Next | cascalog.elasticsearch/src/jvm/backtype/hadoop/ElasticSearchInputFormat.java:197-223 | a record comes only while fewer than `size` are read, and it counts one more. A request, always the split's window, is sent only when no iterator is held and records are owed. The record is the next hit of the held or fetched answer; on false the texts are untouched |
| EsReader.GetPos | cascalog.elasticsearch/src/jvm/backtype/hadoop/ElasticSearchInputFormat.java:233-235 | `getPos` returns 0. It has no contract, since a constant has nothing further to state |
| EsReader.NextReachable | cascalog.elasticsearch/src/jvm/backtype/hadoop/ElasticSearchInputFormat.java:197-223 | `next` keeps the reader in a state where at most the one window request was sent, and the iterator holds exactly the unread hits of its answer |
| EsReader.DrainReachable | cascalog.elasticsearch/src/jvm/backtype/hadoop/ElasticSearchInputFormat.java:197-223 | from any reachable state the reader yields the answer's hits from `recordsRead` up to the smaller of `size` and the answer's length |
| EsReader.DrainSplit | cascalog.elasticsearch/src/jvm/backtype/hadoop/ElasticSearchInputFormat.java:151-223 | a fresh reader yields the first `min(size, n)` hits, where `n` is the answer's length, of its window's answer, in order, as (id, source), and nothing when the size is not positive |
| EsReader.FirstCallRequest | cascalog.elasticsearch/src/jvm/backtype/hadoop/ElasticSearchInputFormat.java:189-212 | the first `next` sends the window's search exactly when the size is positive |
| EsReader.IterateReachable | cascalog.elasticsearch/src/jvm/backtype/hadoop/ElasticSearchInputFormat.java:197-223 | any number of `next` calls keeps the window fixed and sends no request other than the one window request; a reader owing nothing sends nothing and reads nothing |
| EsReader.SplitLifetime | cascalog.elasticsearch/src/jvm/backtype/hadoop/ElasticSearchInputFormat.java:172-223 | over a reader's lifetime `recordsRead` starts at 0 and never exceeds a positive size. At most the split's own `(query, from, size)` is requested, and a split of size 0 requests nothing |
| EsReader.FalseIsFinal | cascalog.elasticsearch/src/jvm/backtype/hadoop/ElasticSearchInputFormat.java:197-223 | after the first false the reader is in a state where `next` returns false and changes nothing |
| EsReader.ExhaustedStaysExhausted | cascalog.elasticsearch/src/jvm/backtype/hadoop/ElasticSearchInputFormat.java:197-223 | from such a state any number of further calls returns false with the reader and texts unchanged |
| EsReader.FalseForever | cascalog.elasticsearch/src/jvm/backtype/hadoop/ElasticSearchInputFormat.java:207-222 | after `next` first returns false, every later call returns false with the reader, key and value unchanged |

## Left out

- Network and client set-up are left out: `configure`, `start_embedded_client`, `setConf`'s system properties, `ElasticUtil`'s distributed-cache fetches and both `close` methods. Remote answers are parameters.
- The HTTP count query (`query`) is left out: URL encoding, credentials and the endpoint are replaced by the parameter answer.
- `requestSize` is parsed but has no effect on the splits or on the reader's request size, so it is not modelled.
- `getProgress` is left out because it is floating point.
- `getRecordReader`, `createKey`, `createValue` and `sourceConfInit` are wiring. The scheme's empty key and value are modelled by `CartoScheme.SourcePrepare`.
- The Elasticsearch `getRecordReader` (ElasticSearchInputFormat.java:57-59) returns a new reader and never calls `initialize`. As wired, `recordsRead` and `recsToRead` stay null, and the first `next` throws a `NullPointerException` when it unboxes them at line 211. The `EsReader` model assumes `initialize` has run, starting every reader from `EsReader.Initialize`; it does not model the reader as the program actually wires it.
- `CartoDBTap`, `Main` and the sink side of the scheme are not part of this model.
- CartoSplit.ReadString: `Text.writeString`/`readString` are abstracted to one text unit. Their vint length prefix and UTF-8 bytes are not modelled, and the `Malformed` read error exists only because of this abstraction.
- JavaNumbers.ParseInteger: only ASCII digits are accepted. Java also accepts other Unicode decimal digits, which this model leaves out.
- EsPlanning.GetSplits: `numSplits.intValue()` as the list capacity, and `i * numSplitRecords`, are unbounded integers. Truncation of a split count above `Integer.MAX_VALUE` and `long` overflow are not modelled.
- EsReader.Next: a failing search is not modelled. The count search (ElasticSearchInputFormat.java:118-121) and the window search (:190-193) are given as answers that cannot throw. In the Java, a throwing fetch at :212 leaves `hitsItr` null and `recordsRead` unchanged, so a `next` called again afterwards sends the window search a second time. The at-most-one-search property of `EsReader.SplitLifetime` and `EsReader.IterateReachable` holds only for searches that succeed.
- EsReader.Next: `from.intValue()` and `recsToRead.intValue()` are taken as exact, so truncation of windows beyond the `int` range is not modelled.
- CartoPlanning.Slice: `i * splitSize` is computed exactly, without modelling `int` overflow. The bound `abs(i * splitSize) <= 2^62` shows it always fits the `long` field.
- Parsing of the Elasticsearch configuration text in `setConf` (`Integer.parseInt` of the request size, `Long.parseLong` of the split count) is not modelled. The split count is a given number, and the CartoDB count parse shows the same parsing.
- The CartoDB reader's `close` does nothing, so the model has no operation for it.
- Null strings from a missing configuration key are not modelled.
- Concurrency is not modelled: the readers are used by one task at a time.

## Findings

| source | as written | input that shows it | evidently intended | confidence | as-written member | corrected member |
|---|---|---|---|---|---|---|
| cascalog.elasticsearch/src/jvm/backtype/hadoop/ElasticSearchInputFormat.java:69-74 | regular windows are `stride - 1` hits long (1 when the stride is 1), and the trailing window is `numHits % numSplits - 1` long | 4 hits, 2 splits: windows (0, 1) and (2, 1), so hits 1 and 3 are never read | windows of `stride` hits and a trailing window of `numHits % numSplits` hits, covering every hit exactly once | not executed; high | EsPlanning.FourHitsTwoSplits | EsPlanning.IntendedSplitsTile |
| cascalog.cartodb/src/jvm/cartodb/CartoDBInputFormat.java:70-73 | the split array has `count / splitCount` entries, but the loop writes `splitCount` of them | count 10, 4 splits: the array has 2 entries and the loop writes index 2 | an array of `splitCount` entries | not executed; high | CartoPlanning.ShortArrayOverflows | CartoPlanning.IntendedSlicesTile |
