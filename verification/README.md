# duckdb-salesforce: a verified model of the split between DuckDB and Salesforce

The extension answers a DuckDB query by sending part of it to Salesforce and doing the rest
locally. This project models the code that makes that split and proves that it never changes the
answer: the filter translation and its text, the repeated filter hook, primary-key chunking and the
parallel Bulk scan, lazy REST paging, the aggregate rewrite, the relationship walks, and the CSV,
JSON and base64 codecs underneath.

The end of the chain is `ScanAnswer.BulkScanAnswersQuery`: for every filter list, every sequence of
hook calls, every chunk count, every number of worker threads and every interleaving, the rows
emitted and then filtered locally are the rows of the object on which all original filters are TRUE,
each as often as the object holds it. The statement goes through the text: the server is modelled
as reading the SELECT statement and the WHERE clause that were emitted. `BulkText.BulkTextAnswersQuery`
carries it down to the CSV text of the result pages and the decoded columns.

`dafny verify dfyconfig.toml` checks everything.

## How the outside world appears

Salesforce and DuckDB are records of functions; what is assumed of them has a name.

- `SoqlMeaning.Faithful`: swapping the operands of DuckDB's order swaps its sign; a SOQL comparison
  with a literal selects the rows for which DuckDB finds the comparison with the constant TRUE that the
  literal's text stands for (`Denotes`; this includes `!=` on nulls and string collation); `= null` and `!= null` are the null tests; IN and LIKE select at least the equal,
  respectively the case-insensitively matching, rows.
- `SoqlMeaning.NullOrderingSelectsNothing`, where it is asked for: an ordering comparison with null
  selects no row.
- `ScanAnswer.IdsOrderedLexically`, `ProbeHolds`, `ProbeAttained`, `Serves`, `ServesPages`: Ids are
  ordered as byte strings; MIN(Id)/MAX(Id) bound the selected rows, and the maximum is the Id of one of
  them; a job's, respectively a query path's, pages read to the end hold the rows its statement selects.
- `BulkText.Prints`: a job's responses are those pages as CSV text, in any legal quoting, under one
  header that has every selected path.
- `AggregatePushdown.ServerAggregates`: the server aggregates as DuckDB does on plain fields of the
  object, MIN and MAX on sortable ones that are not text (`Trusted`).
- `DeleteSync.Honest`: a reply holds every deletion of its window up to its own covered date.

`ScanAnswer.AssumptionsAreConsistent` gives an engine and a server that meet the assumptions on
filters and Ids together; `ServedRunExists` gives, for any WHERE, chunk count and number of threads,
jobs that serve it and a run to its end. Server replies are functions of the request; times are integers; a text is the bytes it is sent
as.

## Where the code falls short of its own description

Each case keeps the code as it is, gives the exact condition, and gives an input that fails it.

- A comparison with a NULL constant is emitted as a null test and dropped from the local filters.
  `SoqlMeaning.ComparisonPushedSoundIff`: pushing a comparison is sound on every row if and only if the
  constant is not NULL or the operator is an ordering one (`NullEqualityExample` fails). The soundness
  theorems ask of the dropped filters that they hold no equality test against NULL, and allow ordering
  comparisons with NULL on a server that selects nothing for them (`DroppedAreNullSafe`).
- With MIN and MAX Ids of different length the largest Id can fall into no range.
  `IdRanges.PartitionIff`: the ranges partition the interval if and only if there is one chunk or the
  maximum is not the minimum's first ten characters followed by zeros; equal lengths always do
  (`LostMaximumExample` fails). `ScanAnswer.ScanEmitsSelectionIff` says the same of whole scans
  (`ChunksPartition`), and the theorems about the Bulk answer require it by that name.
- The nested COUNT(DISTINCT) rewrite does not look at the outer COUNT's argument.
  `AggregatePushdown.CountStarRewriteIff`: for COUNT(*) it keeps the rows if and only if no scanned row
  is NULL in the grouped column (`CountStarExample` fails); for COUNT of the grouped column it always
  does.
- The user's own predicate, `salesforce_scan(..., filter := ...)`, reaches the REST row scan but
  neither the Bulk chunks nor the aggregate query.
  - `ScanAnswer.BulkPredicateIff`: the Bulk answer is the rows satisfying filters and predicate if and
    only if the predicate rejects no row that the pushed WHERE selects and the residual filters keep
    (`BulkPredicateExample` is a whole run that fails).
  - `AggregatePushdown.RawWhereRewriteIff`: a COUNT rewrite keeps the rows if and only if the scan would
    have gone over Bulk, which drops the predicate as well, or the predicate rejects no selected row
    that has a value (`RawWhereExample` fails).
  - On REST it is joined without parentheses. `UserPredicate.JoinReadableIff`: the joined text can be
    read, and then means both, if and only if nothing was pushed or the predicate is not an OR at its
    top level; `RestScanAnswersQuery` then gives the answer with the predicate.
- An unterminated last CSV record that is one empty unquoted cell is not seen
  (`Csv.OpenLastLineIff`).
- JSON strings: `JsonText.EscapedIsJsonIff`: an escaped text is fit for a JSON literal if and only if its
  only control characters are line feed, carriage return and tab. `ReadsLiteralIff`: a literal with the
  two-character escapes is read as what it stands for if and only if it has no `\b` and no `\f`.
- The 4000-character guard is applied per hook call, not to the accumulated WHERE.
  `PushdownHook.AccumulatedLength` gives the exact length after any sequence of calls and
  `AccumulatedWithinLimitIff` the condition under which it stays within the limit: the filters are
  presented once, or nothing is pushed again, or the presentations add up to no more
  (`AccumulatedOverLimitExample` fails).
- The header comment of `src/salesforce_soql.cpp` lists OR, IN and LIKE as omitted; the code pushes
  them as superset prefilters, and so does the model.

## Model

| member | source | states |
|---|---|---|
| `LikePatterns.PatternIsSuperset` | src/salesforce_soql.cpp:366-395 | every value DuckDB's prefix, suffix, contains or LIKE accepts matches the emitted pattern case-insensitively, even when the searched text holds % or _ |
| `LikePatterns.FoldWidens` | src/salesforce_soql.cpp:366-371 | case-insensitive matching accepts all that case-sensitive matching does |
| `LikePatterns.SupersetIsProper` | src/salesforce_soql.cpp:369-371 | the emitted pattern can accept more, which is why the filter stays residual |
| `LikePatterns.PatternIsSearch` | src/salesforce_soql.cpp:366-395 | where the searched text holds neither % nor _, the pattern matched with case finds exactly what the search finds |
| `SoqlSyntax.QuotedRoundTrip` | src/salesforce_soql.cpp:32-42 | a quoted constant is read back, for every text with quotes and backslashes, before any following text |
| `SoqlSyntax.LiteralRoundTrip` | src/salesforce_soql.cpp:44-80 | every literal is read back and stops where it ended |
| `SoqlSyntax.LiteralsRoundTrip` | src/salesforce_soql.cpp:348-361 | an IN list is read back item by item |
| `SoqlSyntax.AtomRoundTrip` | src/salesforce_soql.cpp:256-392 | a comparison, IN or LIKE condition is read back with its field, operator and constants |
| `SoqlSyntax.ItemRoundTrip` | src/salesforce_soql.cpp:399-420 | any nesting of parenthesised AND/OR groups is read back as the same tree |
| `SoqlSyntax.WhereRoundTrip` | src/salesforce_soql.cpp:450-456 | unique readability: the joined WHERE reads back as the conjunction that was printed |
| `SoqlSyntax.PrintInjective` | src/salesforce_soql.cpp:450-456 | two predicate trees that print alike are equal |
| `SoqlSyntax.JoinedReads` | src/salesforce_scan.cpp:327-330 | a printed AND-list with any text joined to it by AND reads as its own items first and then as what that text adds |
| `SoqlStatement.BuildSelectSoql` | src/salesforce_soql.cpp:483-501 | the statement is SELECT list, FROM object, WHERE only when there is one, and LIMIT only when there is one |
| `SoqlStatement.StatementRoundTrip` | src/salesforce_soql.cpp:483-501 | the field list, the object and the WHERE text are recovered from the statement |
| `SoqlStatement.DecimalRoundTrip` | src/salesforce_soql.cpp:498-500 | a limit is spelled in digits only, and they spell it |
| `SoqlPushdown.SoqlString` | src/salesforce_soql.cpp:32-42 | the character loop builds the quoted, escaped text |
| `SoqlPushdown.TimestampLiteral` | src/salesforce_soql.cpp:67-75 | a timestamp becomes one valid ISO-8601 token |
| `SoqlPushdown.TextIsTree` | src/salesforce_soql.cpp:212-431 | the text the recursive translator builds is the printed predicate tree of the expression |
| `SoqlPushdown.EmittedIdsAreValid` | src/salesforce_soql.cpp:168-207 | no emitted equality or IN condition compares an Id field with a constant, of whatever type, that does not read as an Id |
| `SoqlPushdown.MalformedComparisonIff` | src/salesforce_soql.cpp:168-207 | a comparison is rejected exactly when it tests an Id field against a constant that is not NULL and not fifteen or eighteen letters and digits |
| `SoqlPushdown.MalformedListIff` | src/salesforce_soql.cpp:335-364 | an IN list is rejected exactly when it tests an Id field and some constant in it is no Id |
| `SoqlPushdown.TranslatedIff` | src/salesforce_soql.cpp:209-431 | a filter is translated if and only if it is a comparison, BETWEEN, null test, IN of up to 200, text search or AND/OR of these over filterable columns and supported constants, and tagged exact if and only if no IN, search or OR is in it |
| `SoqlPushdown.TranslateFilters` | src/salesforce_soql.cpp:438-449 | the first pass finds every clause in order, or the malformed Id |
| `SoqlPushdown.JoinClauses` | src/salesforce_soql.cpp:450-456 | one AND between neighbouring clauses |
| `SoqlPushdown.DropExact` | src/salesforce_soql.cpp:471-480 | only exactly translated filters are dropped, the others keep their order |
| `SoqlPushdown.PushdownToSoql` | src/salesforce_soql.cpp:433-481 | the three passes with the over-long guard: WHERE, remaining filters and per-filter flags |
| `SoqlPushdown.PushedWithinLimit` | src/salesforce_soql.cpp:457-464 | the WHERE of a call is the joined clauses up to 4000 characters; beyond that nothing is pushed and every filter stays |
| `SoqlMeaning.FlipKeepsTruth` | src/salesforce_soql.cpp:112-135 | reading a comparison from its other side keeps its three-valued truth |
| `SoqlMeaning.LiteralDenotes` | src/salesforce_soql.cpp:44-80 | every emitted literal stands for the constant it was made from, timestamps with T and Z, times with Z |
| `SoqlMeaning.FoundIsFinds` | src/salesforce_soql.cpp:366-395 | the translator knows the four text searches by the names DuckDB has for them |
| `SoqlMeaning.ComparisonAgrees` | src/salesforce_soql.cpp:228-258 | with a non-NULL constant both engines accept the same rows, from either operand order |
| `SoqlMeaning.BetweenAgrees` | src/salesforce_soql.cpp:260-318 | accepted exactly where BETWEEN is TRUE: the cell is not NULL, above the lower bound or on it when inclusive, below the upper bound or on it when inclusive |
| `SoqlMeaning.InIsSuperset` | src/salesforce_soql.cpp:335-364 | a row where IN is TRUE is accepted |
| `SoqlMeaning.SearchIsSuperset` | src/salesforce_soql.cpp:366-395 | a row where a text search is TRUE is accepted |
| `SoqlMeaning.TreeIsValid` | src/salesforce_soql.cpp:212-431 | a translated expression always prints as readable text |
| `SoqlMeaning.TranslationIsSuperset` | src/salesforce_soql.cpp:212-431 | through any AND/OR nesting, whatever is translated is accepted on every row where it is TRUE |
| `SoqlMeaning.ExactIsSound` | src/salesforce_soql.cpp:209-420 | an exact translation without equality tests against NULL is accepted only where it is TRUE |
| `SoqlMeaning.WhereMeansClauses` | src/salesforce_soql.cpp:449-470 | the server, reading the emitted text, applies exactly the translated predicates |
| `SoqlMeaning.SplitKeepsTruth` | src/salesforce_soql.cpp:471-480 | clauses accepted and remaining filters TRUE, together, is all filters TRUE |
| `SoqlMeaning.PushdownSound` | src/salesforce_soql.cpp:433-481 | on every row the emitted WHERE plus the remaining filters keep it exactly when every original filter is TRUE |
| `SoqlMeaning.ComparisonPushedSoundIff` | src/salesforce_soql.cpp:248-258 | the exact condition under which a pushed comparison changes no answer |
| `SoqlMeaning.NullEqualityExample` | src/salesforce_soql.cpp:248-258 | `Name = NULL`: the pushed query returns a row on which the filter is not TRUE |
| `PushdownHook.ScanBindData.PushdownComplexFilter` | src/salesforce_scan.cpp:960-1015 | one hook call: accumulated WHERE, counts and explain flags written once; nothing changes on an exception |
| `PushdownHook.ResidualIsStable` | src/salesforce_scan.cpp:969-976 | presenting a residual again leaves it as it is and raises nothing new |
| `PushdownHook.AccumulatedMeaning` | src/salesforce_scan.cpp:992-996 | AND-ing the new part on intersects what the two texts select |
| `PushdownHook.CallKeepsEquivalence` | src/salesforce_scan.cpp:960-1015 | a call on the pending filters keeps WHERE plus pending equivalent to the original filters |
| `PushdownHook.CallAccounts` | src/salesforce_scan.cpp:997-1014 | pushed plus residual count is the number of filters, and nothing is counted twice |
| `PushdownHook.CallsKeepTheFilters` | src/salesforce_scan.cpp:960-1015 | the same over any sequence of empty and repeated calls |
| `PushdownHook.HookKeepsMeaning` | src/salesforce_scan.cpp:960-1015 | from fresh bind data, whatever is presented, the split says what the filters said |
| `PushdownHook.HookIsSafe` | src/salesforce_scan.cpp:960-1015 | once presented: equivalence, counts and explain flags all hold; it throws exactly on a malformed Id |
| `PushdownHook.AccumulatedLength` | src/salesforce_scan.cpp:992-996 | the exact length of the accumulated WHERE after any sequence of calls: the first presentation, then the same amount for each further one |
| `PushdownHook.AccumulatedWithinLimitIff` | src/salesforce_scan.cpp:992-996 | the accumulated WHERE stays within 4000 characters if and only if the filters are presented at most once, nothing is pushed again, or the presentations add up to no more |
| `PushdownHook.AccumulatedOverLimitExample` | src/salesforce_soql.cpp:457-464 | one `contains` filter of more than 2000 characters, presented twice, exceeds the limit |
| `PushdownHook.ExplainMatchesResidual` | src/salesforce_scan.cpp:997-1010 | the filters left to DuckDB are those flagged residual, in order |
| `PushdownHook.ExplainSays` | src/salesforce_scan.cpp:997-1010 | each filter is reported as sent if and only if it is pushable, and as residual unless it also selects exactly; all residual when the WHERE is too long |
| `UserPredicate.JoinNeverWidens` | src/salesforce_scan.cpp:327-331 | whatever the user wrote, the joined text selects no row that the pushed WHERE does not |
| `UserPredicate.ConjunctionJoins` | src/salesforce_scan.cpp:327-331 | a predicate that is an AND at its top level is joined as meant |
| `UserPredicate.DisjunctionIsUnreadable` | src/salesforce_scan.cpp:327-331 | an OR joined to pushed clauses without parentheses is no WHERE clause |
| `UserPredicate.JoinReadableIff` | src/salesforce_scan.cpp:327-331 | the joined text can be read, and then means both, if and only if nothing was pushed or the predicate is no OR |
| `QueryUrl.UrlEncodeComponent` | src/include/salesforce_url.hpp:12-26 | the byte loop builds the percent-encoded text |
| `QueryUrl.EncodeRoundTrip` | src/include/salesforce_url.hpp:12-26 | every byte string survives percent-encoding |
| `QueryUrl.EncodedIsPlain` | src/include/salesforce_url.hpp:12-26 | the encoded text holds unreserved characters and % only |
| `QueryUrl.PathRoundTrip` | src/salesforce_session.cpp:526-531 | the statement is recovered from the request path, and the path tells the two read modes apart |
| `IdCodec.Base62Val` | src/salesforce_scan.cpp:147-155 | a digit value is below 62 |
| `IdCodec.Base62Char` | src/salesforce_scan.cpp:156-162 | the character of a digit value is alphanumeric and has that value |
| `IdCodec.IdToNum` | src/salesforce_scan.cpp:169-175 | the 64-bit loop computes the base-62 number of the first ten characters without wrapping |
| `IdCodec.NumToId` | src/salesforce_scan.cpp:178-189 | the digit loop spells the number and cuts or pads to the length asked for |
| `IdCodec.TenDigitsFit` | src/salesforce_scan.cpp:163-168 | eight times 62^10 is below 2^64 |
| `IdCodec.SpellNumber` | src/salesforce_scan.cpp:169-189 | spelling an Id's number gives its first k characters, zero-padded |
| `IdCodec.NumberSpelling` | src/salesforce_scan.cpp:169-189 | numbering a spelled number gives it back |
| `IdCodec.IdRoundTrip` | src/salesforce_scan.cpp:169-189 | NumToId of IdToNum is the first ten characters, cut or zero-padded to exactly the length |
| `IdCodec.DigitsMonotone` | src/salesforce_scan.cpp:178-189 | larger numbers spell lexically larger texts |
| `IdCodec.NumberMonotone` | src/salesforce_scan.cpp:143-146 | lexically larger Ids have numbers at least as large |
| `IdCodec.GeneratedLeq` | src/salesforce_scan.cpp:176-189 | the Id generated from an Id's own number never passes it |
| `IdCodec.GeneratedLess` | src/salesforce_scan.cpp:176-189 | an Id generated from a smaller number is smaller, at any length that fits |
| `IdCodec.GeneratedMonotone` | src/salesforce_scan.cpp:176-189 | generated Ids of one length follow their numbers |
| `IdRanges.BuildBoundaries` | src/salesforce_scan.cpp:199-210 | the boundary list: minimum, interpolated Ids, maximum |
| `IdRanges.BuildIdRangeWheres` | src/salesforce_scan.cpp:195-226 | one WHERE per kept range, combined with the pushed WHERE; collapsed ranges skipped |
| `IdRanges.NoWrap` | src/salesforce_scan.cpp:205-208 | the 64-bit interpolation equals exact arithmetic |
| `IdRanges.InterpolateIs` | src/salesforce_scan.cpp:205-208 | for at most eight chunks the product never wraps and the result stays between the two numbers, below the upper one when they differ |
| `IdRanges.InterpolateMonotone` | src/salesforce_scan.cpp:205-208 | interpolated numbers never decrease |
| `IdRanges.LastBoundaryBelow` | src/salesforce_scan.cpp:199-215 | the last interior boundary is below the maximum outside the failing family |
| `IdRanges.BoundariesCollapse` | src/salesforce_scan.cpp:199-215 | inside the failing family every interior boundary is the maximum |
| `IdRanges.CountAll` | src/salesforce_scan.cpp:211-225 | ascending boundaries below the maximum put every Id of the interval into exactly one kept range |
| `IdRanges.PartitionIff` | src/salesforce_scan.cpp:195-226 | the ranges partition the interval if and only if there is one chunk or the maximum is not the zero-extended minimum |
| `IdRanges.MaximumInNoRange` | src/salesforce_scan.cpp:211-216 | inside the failing family the maximum itself is in no range |
| `IdRanges.EqualLengthPartitions` | src/salesforce_scan.cpp:191-226 | Ids of equal length always partition, for every string between them |
| `IdRanges.MixedLengthsLoseTheMaximum` | src/salesforce_scan.cpp:214-216 | a family of mixed-length inputs whose largest Id is in no range |
| `IdRanges.LostMaximumExample` | src/salesforce_scan.cpp:214-216 | a concrete such input |
| `BulkScan.CompleteChainUnique` | src/salesforce_scan.cpp:698-735 | a job has one complete page chain, so the rows of a chunk are well defined |
| `BulkScan.ClaimInv` | src/salesforce_scan.cpp:833-838 | the atomic claim keeps the invariant: indices are handed out once, in order |
| `BulkScan.StartInv` | src/salesforce_scan.cpp:839-847 | starting a job keeps the invariant |
| `BulkScan.FetchInv` | src/salesforce_scan.cpp:698-735 | fetching a page keeps the invariant: the page is the next of its chunk and becomes the thread's page |
| `BulkScan.ReleaseInv` | src/salesforce_scan.cpp:848-853 | giving a drained chunk back keeps the invariant |
| `BulkScan.EmitInv` | src/salesforce_scan.cpp:867-890 | emitting at most a vector of rows keeps the invariant |
| `BulkScan.StepInv` | src/salesforce_scan.cpp:819-891 | every step of every thread keeps the invariant unless it fails |
| `BulkScan.RunInv` | src/salesforce_scan.cpp:819-891 | the invariant holds after every schedule without a failure |
| `BulkScan.ParallelScanComplete` | src/salesforce_scan.cpp:698-891 | for every number of threads and every interleaving: once all report zero rows, each chunk was claimed by exactly one thread and read to its end, and the emitted multiset is the rows of all chunks |
| `BulkScan.NeverTooMany` | src/salesforce_scan.cpp:819-891 | at any moment nothing has been emitted that was not fetched, and nothing twice |
| `BulkProgress.HealthyScansDoNotFail` | src/salesforce_scan.cpp:698-735 | if every job starts and the chunks have up to a million pages together, ending without a repeated locator, no interleaving of any number of threads fails |
| `BulkProgress.HealthyScansCanFinish` | src/salesforce_scan.cpp:819-891 | however such a scan has gone so far, it can go on until every thread has reported zero rows |
| `BulkProgress.HealthyScansDeliver` | src/salesforce_scan.cpp:819-891 | and at its end it has emitted the rows of all pages, each once |
| `BulkProgress.FailuresHaveCauses` | src/salesforce_scan.cpp:698-735 | a failed thread implies a refused start, an HTTP error along some chunk, a locator given twice or a million pages |
| `BulkProgress.StepProgress` | src/salesforce_scan.cpp:829-890 | every step of an unfinished thread brings it nearer to its end |
| `BulkProgress.StepIsBounded` | src/salesforce_scan.cpp:867-890 | a call hands out at most 2048 rows |
| `ScanAnswer.ClampChunks` | src/salesforce_scan.cpp:619-631 | the count from one to eight that is nearest to the requested one |
| `ScanAnswer.RangeTextIsPrinted` | src/salesforce_scan.cpp:217-222 | the range text is the printed conjunction of its two Id conditions |
| `ScanAnswer.ChunkMeaning` | src/salesforce_scan.cpp:195-226 | a chunk's WHERE selects the rows of the pushed WHERE whose Id is in its range |
| `ScanAnswer.ExactlyOneChunk` | src/salesforce_scan.cpp:632-644 | where the chunks partition, every row the pushed WHERE selects is selected by exactly one chunk, and no other row is |
| `ScanAnswer.MaximumInNoChunk` | src/salesforce_scan.cpp:632-644 | where they do not, a row with the largest Id is selected by no chunk |
| `ScanAnswer.ScanEmitsSelection` | src/salesforce_scan.cpp:611-891 | the parallel scan emits the rows the pushed WHERE selects, each as often as the object holds it |
| `ScanAnswer.ScanEmitsSelectionIff` | src/salesforce_scan.cpp:611-891 | any finished scan emitted exactly the selected rows if and only if there is one chunk or the maximum is not the zero-extended minimum |
| `ScanAnswer.BulkScanAnswersQuery` | src/salesforce_scan.cpp:611-1015 | the Bulk answer is the answer of the original filters, for every hook sequence, chunk count, thread count and interleaving |
| `ScanAnswer.BulkPredicateIff` | src/salesforce_scan.cpp:632-644 | with a user predicate the Bulk answer satisfies filters and predicate if and only if the predicate rejects no row that the pushed WHERE and the residual filters keep |
| `ScanAnswer.BulkPredicateExample` | src/salesforce_scan.cpp:632-644 | a whole run whose answer holds a row the user predicate rejects |
| `ScanAnswer.AsksForStatement` | src/salesforce_scan.cpp:648-650 | the path of the first page asks for the statement of the scan |
| `ScanAnswer.RestScanAnswersQuery` | src/salesforce_scan.cpp:648-1015 | the same for the lazy REST path, through the request path and with the user predicate |
| `AggregatePushdown.CollectTerms` | src/salesforce_agg_optimizer.cpp:256-333 | the loop over the aggregate expressions collects every term or gives up |
| `AggregatePushdown.PushedTermAgrees` | src/salesforce_agg_optimizer.cpp:262-332 | through the column-id remapping, the server's aggregate of the resolved field is DuckDB's aggregate of the referenced column |
| `AggregatePushdown.RewriteAggregateKeepsRows` | src/salesforce_agg_optimizer.cpp:214-368 | aggregate over scan and projection over rewritten scan yield the same rows under the same bindings |
| `AggregatePushdown.RewrittenSchema` | src/salesforce_agg_optimizer.cpp:316-366 | the rebuilt scan has one column per term, in order: the function the term names, of the field it refers to, with its name, alias and result type |
| `AggregatePushdown.AggregableIffTrusted` | src/salesforce_agg_optimizer.cpp:301-315 | the gates let through exactly the fields and functions the server is trusted with |
| `AggregatePushdown.RewriteAggregateIff` | src/salesforce_agg_optimizer.cpp:214-333 | an aggregate is rewritten exactly when the pass is on and an ungrouped aggregate of pushable terms stands directly on a scan without residual or table filters |
| `AggregatePushdown.RewriteCountDistinctIff` | src/salesforce_agg_optimizer.cpp:374-479 | the nested form is rewritten exactly under its guards, whatever the outer COUNT counts |
| `AggregatePushdown.RewriteCountDistinctKeepsRows` | src/salesforce_agg_optimizer.cpp:374-479 | counting the grouped column over a one-column GROUP BY equals the server's COUNT_DISTINCT |
| `AggregatePushdown.CountStarRewriteIff` | src/salesforce_agg_optimizer.cpp:376-388 | with COUNT(*) the nested rewrite keeps the rows if and only if the grouped column has no NULL |
| `AggregatePushdown.CountStarExample` | src/salesforce_agg_optimizer.cpp:376-388 | a COUNT(*) over GROUP BY plan and a row on which the rewrite changes the answer |
| `AggregatePushdown.RawWhereRewriteIff` | src/salesforce_scan.cpp:399-410 | with a user predicate a COUNT rewrite keeps the rows if and only if the scan goes over Bulk or the predicate rejects no selected row that has a value |
| `AggregatePushdown.RawWhereExample` | src/salesforce_scan.cpp:399-410 | a user predicate and a row on which the COUNT rewrite changes the answer |
| `AggregatePushdown.WalkKeepsRows` | src/salesforce_agg_optimizer.cpp:482-511 | the pass over any plan tree keeps its rows and column bindings, nested COUNT of the grouped column and COUNT(*) without NULL groups included |
| `AggregatePushdown.DisabledWalk` | src/salesforce_agg_optimizer.cpp:244-250 | switched off, the pass returns every plan as it is |
| `AggregatePushdown.RewriteStaysOff` | src/salesforce_agg_optimizer.cpp:482-511 | walking the children never makes a node rewritable |
| `AggregatePushdown.WalkIdempotent` | src/salesforce_agg_optimizer.cpp:482-511 | a second pass changes nothing |
| `LazyScan.Query` | src/salesforce_session.cpp:556-584 | the eager loop returns all records or raises the first error, within the page limit |
| `LazyScan.DeliversAll` | src/salesforce_session.cpp:556-584 | up to a million pages with different cursors, the last one done or without a cursor, deliver all their records in order |
| `LazyScan.DeliversUntilError` | src/salesforce_session.cpp:556-584 | otherwise the error met: a failed request, a cursor that came before, or the million-page limit |
| `LazyScan.ScanState.AdvancePage` | src/salesforce_scan.cpp:658-692 | fetches until a page has rows, skipping empty ones, with the loop and page guards |
| `LazyScan.ScanState.ScanFunction` | src/salesforce_scan.cpp:897-922 | one call: a page only when the held rows are used up, then at most a vector of rows |
| `LazyScan.TakesAVector` | src/salesforce_scan.cpp:904-920 | a call hands out the next 2048 rows of its page, or what is left |
| `LazyScan.AdvanceKeepsPending` | src/salesforce_scan.cpp:658-692 | fetching ahead of an exhausted page delivers nothing and loses nothing |
| `LazyScan.CallRefines` | src/salesforce_scan.cpp:897-922 | a call hands out the next records due, none only at the end, an error only when nothing else is left |
| `LazyScan.ScanRefines` | src/salesforce_scan.cpp:897-922 | the same over any number of calls |
| `LazyScan.LazyRefinesEager` | src/salesforce_session.cpp:556-584 | the lazy scan emits exactly the eager query's records or ends in its error, and does end |
| `LazyScan.CallDrained` | src/salesforce_scan.cpp:897-902 | the next page is requested only once every record of the earlier pages has been handed out |
| `LazyScan.ScanFetchesLazily` | src/salesforce_scan.cpp:897-922 | what was fetched is what was emitted plus what is left of the last page |
| `RelationshipGraph.GraphWalk.VisitField` | src/salesforce_metadata_engine.cpp:724-802 | one field: its row by the first guard that holds, then push, recurse, pop |
| `RelationshipGraph.GraphWalk.RelGraphWalk` | src/salesforce_metadata_engine.cpp:715-803 | the walk appends its rows and restores the visited stack |
| `RelationshipGraph.GraphWalk.VisitChild` | src/salesforce_metadata_engine.cpp:819-886 | one child relationship: its row by the first guard that holds, then push, recurse, pop |
| `RelationshipGraph.GraphWalk.RelGraphChildWalk` | src/salesforce_metadata_engine.cpp:810-887 | the child walk appends its rows and restores the visited stack |
| `RelationshipGraph.ResolvedIff` | src/salesforce_metadata_engine.cpp:832-881 | in either direction, whatever the order of the guards, an edge is resolved exactly when it is a named edge to one new, queryable and where needed describable object |
| `RelationshipGraph.TrailsAreContinuations` | src/salesforce_metadata_engine.cpp:715-887 | the walks behind the resolved rows are exactly the valid continuations |
| `RelationshipGraph.TrailsAreDistinct` | src/salesforce_metadata_engine.cpp:715-887 | each walk is listed once |
| `RelationshipGraph.RowsAreTrails` | src/salesforce_metadata_engine.cpp:729-801 | the resolved rows, in order, are the rows of the walks, with path and depth level |
| `RelationshipGraph.GraphIsSoundAndComplete` | src/salesforce_metadata_engine.cpp:715-887 | in either direction the resolved rows are one-to-one, in order, with the simple walks of length at most max_depth |
| `RelationshipGraph.SimpleWalksDoNotRepeat` | src/salesforce_metadata_engine.cpp:746-766 | no object repeats along a walk, whatever the case of its name |
| `RelationshipGraph.RelGraphBind` | src/salesforce_metadata_engine.cpp:889-950 | depth check and cap, describable root, parent rows and then child rows |
| `RelationshipGraph.DirectionsWanted` | src/salesforce_metadata_engine.cpp:933-950 | for each choice of directions the resolved rows are the simple walks up if wanted, then the simple walks down if wanted, to a depth of at most four, and every row has a wanted direction |
| `RelationshipGraph.DepthIsCapped` | src/salesforce_metadata_engine.cpp:896-912 | depths beyond four answer as four does; a depth below one and an unknown root are errors |
| `RelationshipGraph.EveryEdgeHasItsRow` | src/salesforce_metadata_engine.cpp:715-887 | all rows, resolved or not, in order: one for each edge met |
| `RelationshipGraph.AllEdgesVisited` | src/salesforce_metadata_engine.cpp:715-887 | the edges met are those of every object reached, fields without a relationship name left out |
| `RelationshipGraph.EdgesVisitedOnce` | src/salesforce_metadata_engine.cpp:715-887 | each edge of each walk is met once |
| `RelationshipGraph.ParentRowSays` | src/salesforce_metadata_engine.cpp:724-801 | what a reference field's row holds, its status decided by the first guard that applies |
| `RelationshipGraph.ChildRowSays` | src/salesforce_metadata_engine.cpp:819-886 | what a child relationship's row holds, its status decided by the first guard that applies |
| `RelationshipGraph.EdgesAre` | src/salesforce_metadata_engine.cpp:724-832 | the edges are the describe's fields with their targets, or its child relationships with their objects |
| `Csv.Parse` | src/include/salesforce_csv.hpp:13-81 | the index loop computes the state machine's rows |
| `Csv.ReadQuoted` | src/include/salesforce_csv.hpp:32-46 | a quoted cell is read back, doubled quotes and all |
| `Csv.ReadCells` | src/include/salesforce_csv.hpp:47-75 | the cells of a line are read back in order |
| `Csv.RoundTrip` | src/include/salesforce_csv.hpp:13-81 | every table printed with any legal quoting and any mix of LF and CRLF is read back |
| `Csv.OpenLastLineIff` | src/include/salesforce_csv.hpp:77-80 | an unterminated last record is read back if and only if it is not one empty unquoted cell |
| `JsonText.ReadStringAt` | src/include/salesforce_json.hpp:40-77 | the loop computes the unescaped contents |
| `JsonText.JsonEscape` | src/salesforce_session.cpp:358-382 | the loop builds the escaped text |
| `JsonText.EscapeRoundTrip` | src/salesforce_session.cpp:358-382 | reading back an escaped string returns it, whatever follows |
| `JsonText.EscapedIsJsonIff` | src/salesforce_session.cpp:358-382 | the escaped text is fit for a JSON literal if and only if the text has no control character but LF, CR and tab |
| `JsonText.ReadsLiteralIff` | src/include/salesforce_json.hpp:40-77 | a literal is read as what it stands for if and only if it has no \b and no \f |
| `JsonText.ScanChar` | src/include/salesforce_json.hpp:277-304 | one character of the string-aware scan |
| `JsonText.ScanObjects` | src/include/salesforce_json.hpp:231-264 | the loop shared by both splitters computes the objects found |
| `JsonText.PassValue` | src/include/salesforce_json.hpp:277-304 | any JSON value inside an object is passed over and becomes part of the object's text |
| `JsonText.SplitArrayObjects` | src/include/salesforce_json.hpp:267-306 | finds the bracket and splits from there |
| `JsonText.SplitRoundTrip` | src/include/salesforce_json.hpp:267-306 | splitting a printed array of objects returns exactly their texts, in order |
| `BulkDecode.EmitRelationshipSoql` | src/salesforce_scan.cpp:231-239 | appends the dotted paths of every leaf, depth first |
| `BulkDecode.BuildSelectList` | src/salesforce_scan.cpp:273-289 | the SELECT list holds the paths of every projected column, or the first field when there are none |
| `BulkDecode.SelectPathsAreJoined` | src/salesforce_scan.cpp:231-239 | the selected paths are the names from the relationship down to each leaf, joined by dots, depth first |
| `BulkDecode.JoinedInjective` | src/salesforce_scan.cpp:231-239 | names without dots are recovered from their joined path, up to case |
| `BulkDecode.LeafPathsDiffer` | src/salesforce_scan.cpp:231-239 | a tree whose siblings have different names without dots has different leaf paths, whatever the case |
| `BulkDecode.LeafPathsAreOwn` | src/salesforce_scan.cpp:231-239 | no leaf path is the name of a field of the object itself or a path under another relationship |
| `BulkDecode.LocateColumn` | src/salesforce_scan.cpp:757-764 | the first header that matches, whatever its case |
| `BulkDecode.StructAgrees` | src/salesforce_scan.cpp:741-776 | at every level decoding equals the value assembled from the record by the chain of names, and a STRUCT is NULL exactly when every leaf beneath is empty |
| `BulkDecode.SelectAndDecodeAgree` | src/salesforce_scan.cpp:869-884 | what was selected is what the decoder finds, for every header order and letter case |
| `BulkDecode.LeavesReadOwnColumns` | src/salesforce_scan.cpp:757-764 | leaves with different paths never read the same column |
| `BulkDecode.HeaderOrderIrrelevant` | src/salesforce_scan.cpp:855-884 | two headers over the same record decode alike |
| `BulkText.BulkFetchResultPage` | src/salesforce_session.cpp:476-495 | row 0 is the header, the others the rows; the locator "null" means no next page |
| `BulkText.PageDecodes` | src/salesforce_scan.cpp:867-888 | from the CSV text of a page to its decoded columns: the tuples of the records it prints |
| `BulkText.ChainDecodes` | src/salesforce_scan.cpp:698-735 | every chain of decoded pages comes from a chain of pages of rows |
| `BulkText.TextScanEmitsSelection` | src/salesforce_scan.cpp:611-891 | over page texts, each tuple is emitted as often as the pushed WHERE selects a row that has it |
| `BulkText.BulkTextAnswersQuery` | src/salesforce_scan.cpp:611-1015 | each tuple the residual filters keep is emitted as often as the object has such a row on which all original filters are TRUE, and no other is kept |
| `ParentExpansion.Expander.ExpandOne` | src/salesforce_storage.cpp:335-417 | one field: a skip decision, or insert, recurse, erase and the STRUCT |
| `ParentExpansion.Expander.BuildRelationshipFields` | src/salesforce_storage.cpp:329-419 | the recursion returns its fields, appends its decisions and leaves the visited set unchanged |
| `ParentExpansion.ExpandIsNested` | src/salesforce_storage.cpp:329-419 | every expanded STRUCT nests within the depth and meets only new objects |
| `ParentExpansion.ChainsAreSimple` | src/salesforce_storage.cpp:349-360 | any chain of nested STRUCTs is short and its objects are all different |
| `ParentExpansion.ExpansionIsWellFounded` | src/salesforce_storage.cpp:316-419 | for every describe graph, cyclic ones included: bounded nesting, no object twice on a chain, never the root again |
| `ParentExpansion.OneDecisionPerReference` | src/salesforce_storage.cpp:335-417 | each reference field examined has exactly one decision at its level, in field order |
| `ParentExpansion.ExpandedIff` | src/salesforce_storage.cpp:335-417 | a field yields a STRUCT if and only if it leads to one new, describable parent under a free name that has something to show; the STRUCT's children are the parent's fields and then its nested relationships |
| `ParentExpansion.ScalarsAre` | src/salesforce_storage.cpp:381-389 | the scalar children are the parent's fields that are not compound, in order |
| `ParentExpansion.AddNestedIs` | src/salesforce_storage.cpp:395-408 | nested relationships follow in order, those whose name is taken left out |
| `ParentExpansion.ReasonIs` | src/salesforce_storage.cpp:341-373 | the recorded reason is the first that applies |
| `DeleteSync.CollectSlice` | src/salesforce_delete_sync.cpp:258-267 | the record loop with boundary dedup |
| `DeleteSync.LoadViaGetDeleted` | src/salesforce_delete_sync.cpp:250-287 | the resume loop and its three ways to stop |
| `DeleteSync.CollectAdds` | src/salesforce_delete_sync.cpp:258-267 | collecting adds exactly the slice's ids and keeps ids distinct |
| `DeleteSync.AbsorbCovers` | src/salesforce_delete_sync.cpp:258-285 | a slice extends the covered part of the window, and resuming at a whole second leaves no gap |
| `DeleteSync.DeleteSyncCovers` | src/salesforce_delete_sync.cpp:250-287 | every deletion from the window's start to the reported frontier is in the rows, no id twice |
| `DeleteSync.FrontierIsMaximum` | src/salesforce_delete_sync.cpp:273-278 | the reported frontier is the greatest covered date over the slices |
| `DeleteSync.StopsOnlyWhen` | src/salesforce_delete_sync.cpp:250-287 | the loop ends only when the window is used up, no date or no later date is covered, the rest of the window is covered, or ten thousand slices were read |
| `DeleteSync.CollectIsReal` | src/salesforce_delete_sync.cpp:258-267 | every row came from a slice, its date cut to the second |
| `Base64.Base64Url` | src/salesforce_auth.cpp:112-137 | the triple loop and its one or two trailing bytes |
| `Base64.FillTable` | src/salesforce_value.cpp:26-34 | the table holds each letter's digit and -1 elsewhere |
| `Base64.DecodeBase64` | src/salesforce_value.cpp:25-53 | the loop with its wrapping 32-bit accumulator |
| `Base64.WrapIsInvisible` | src/salesforce_value.cpp:45-48 | wrapping never touches the bits an output byte is cut from |
| `Base64.GroupRoundTrip` | src/salesforce_auth.cpp:117-123 | four letters give their three bytes back, whatever the accumulator held |
| `Base64.RoundTrip` | src/salesforce_value.cpp:25-53 | Base64Url, the alphabet exchange and DecodeBase64 return every byte string |
| `Base64.PaddingIsIgnored` | src/salesforce_value.cpp:38-41 | padding, spaces and line breaks, wherever they stand, do not change the decoded bytes |
| `Base64.PaddedAtTheEnd` | src/salesforce_value.cpp:25-53 | the padded form of section 4 of RFC 4648 decodes to the same bytes |

## Left out

- HTTP transport, authentication, retries, the quota governor and job polling: replies are functions of the request; a failed request or job start is an error outcome.
- DuckDB's vectors and casts: cells are texts, and decoding a cell into its type is not modelled.
- Field lookup by key in JSON (`FindValue` and what rests on it): it takes the first textual match, so only scanning from a known position is modelled.
- The two DuckDB versions' accessors: one expression and one plan shape stand for both.
- Plans are values: Walk replaces nodes in place in the source; the model returns the new tree, so sharing and aliasing of plan nodes are not captured.
- Null slots in the filter list: the source skips them; the model's lists have none.
- The field name shown per filter by the explain diagnostics, and all other diagnostics.
- A thread keeps the header of its first result page for all its chunks; every chunk selects the same fields, and `BulkText.Prints` assumes that all pages come under that one header.
- COUNT() estimation and the choice between REST and Bulk: the transport a scan ends up on is a parameter.
- The metadata cache: describes are a fixed map, so a refresh between two lookups is not captured.
- The queryAll sweep of deleted ids: a single query whose rows are taken over as they come.
- The Report Bridge: JSON field plumbing around another API.
- The resumable Bulk download: it follows locators by another path form and without a loop guard, so it does not refine the scan.
- The type tables: lookups.
