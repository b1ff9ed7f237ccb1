# Verified models of go_es

go_es is a small Elasticsearch-compatible server with a Go client. This project states what its stateful components and
algorithms do, as Dafny functions, classes and methods, and proves properties of them. `dafny verify dfyconfig.toml`
checks everything.

| module | component |
|---|---|
| `RoundRobin`, `Pool` | the client pool: smooth weighted round robin, plain rotation |
| `SqlLexer`, `SqlParser`, `SqlRender`, `SqlSelect` | the SQL front end: tokens, grammar, statements |
| `SqlWritten`, `SqlSpelling`, `SqlGrammar` | which texts the front end reads, and as what |
| `SqlDsl`, `SqlLexText`, `SqlQueryText`, `SqlQueryMeaning` | compilation to the query DSL; the text printed for any query, and when it says what the query selects |
| `SqlRoundTrip`, `SqlMeaning`, `SqlStatement` | conditions and whole statements, compiled, printed and read back |
| `EditDistance`, `TermSuggest` | bounded Levenshtein distance and the term suggester |
| `Tokenizer`, `InvertedIndex`, `IndexRuns`, `Engine`, `SortedIndex` | the in-memory index: inverted map, postings, field lengths, sorted entries |
| `QueryString`, `QueryStringMeaning` | the query_string language |
| `Reindex`, `ReindexClients` | the cancellable reindex job, alone and beside clients that write to its destination |
| `PostingsSnapshot` | versioned snapshots of the inverted map |
| `Segments`, `SegmentRuns`, `SegmentManager`, `Bloom` | segments: flush, merge, filtered search |
| `LruCache`, `CacheKey`, `SearchCache`, `ReindexCache` | the search result cache and its invalidation, under interleaved searches, writes and reindex jobs |
| `Breaker` | the client's circuit breaker |
| `Highlight`, `TermsAggregation` | highlighting and the terms aggregation |
| `Common`, `Collections`, `Text` | shared definitions |

Conventions. A component is given twice: by functions on values, which say what an operation computes, and by methods and
classes in the shape of the Go code, whose contracts tie every new state to those functions. The properties are lemmas
about the functions, over all inputs, all runs or all interleavings of the named steps. A `char` stands for one byte.
Loops over a Go map take the keys in an arbitrary order and are proved for every order. Documents carry field values as
the index sees them: text, a number or boolean as one term with a sort key, or anything else as one term.

Where the code and what is said about it differ, the code is modelled and the difference is stated as a theorem:

- Rolling a cancelled reindex back is said to leave the destination's own documents alone
  (internal/server/extras.go:393-397). It does if and only if no id is shared with the source
  (`Reindex.CancelRestoresExactlyWhen`). The status can also go from completed to cancelled
  (`Reindex.CompletedStaysExactlyWhen`), and what a cancelled job does to the cached searches is never invalidated
  (`ReindexCache.CancelledHitFreshExactlyWhen`). The rollback also takes what clients have
  written since the job did (`ReindexClients.WriteSurvivesCancelExactlyWhen`).
- A write between the computing and the storing of a search, and a deletion by the lifecycle policy, leave stale answers
  in the search cache (`SearchCache.NextStepFreshExactlyWhen`, `SearchCache.OvertakenFreshExactlyWhen`,
  `SearchCache.LifecycleDeleteFreshExactlyWhen`).
- Index names with a separator in them share cache keys with others (`CacheKey.CollidesExactlyWhen`).
- Indexing over an existing id leaves the old words behind (`IndexRuns.OverwriteExactlyWhen`,
  `IndexRuns.StaleHitsAfterDelete`); what else it leaves wrong is `IndexRuns.OverwriteKeepsExactlyWhen`.
- The version of a postings snapshot is read after the locks are dropped, with a comment that this does not matter
  (internal/search/postings_snapshot.go:169). It does, and `PostingsSnapshot.LoadsCurrentExactlyWhen` says when. An
  index that is deleted during a flush comes back with it (`PostingsSnapshot.WipedDuringFlushComesBack`), and its fields
  can outlive later flushes (`PostingsSnapshot.LeftoverOutlivesFlush`).
- Rebuilding the inverted map is said to equal the index (internal/search/persistence.go:424-426); terms of numbers and
  booleans are lost (`PostingsSnapshot.RebuildExactExactlyWhen`), and a reloaded snapshot gives them postings they never
  had (`PostingsSnapshot.ReloadedPostingsExactlyWhen`). The sorted entries are not part of a snapshot and are lost with it
  (`PostingsSnapshot.LoadedExactlyWhen`).
- The probes of a Bloom filter are said to be different positions (internal/server/segment.go:354); when they are is
  `Bloom.ProbesDifferExactlyWhen`. A reloaded filter can deny a term it was given (`Bloom.ReloadKeepsAnswersExactlyWhen`,
  `Bloom.ReloadedDeniesExactlyWhen`).
- The merge limit is called an upper bound and a limit of one is said to switch merging off
  (internal/server/segment.go:545). One merges everything, and the bound is exceeded as soon as two fields are merged
  (`Segments.LimitKeptExactlyWhen`).
- The printed SQL is not always read back (`SqlQueryText.QueryReadsExactlyWhen`, `SqlRoundTrip.TextReadsExactlyWhen`,
  `SqlStatement.BodyTextReads`), or not as it was meant (`SqlQueryMeaning.QueryTextExactlyWhen`,
  `SqlMeaning.RoundTripExactlyWhenOnDocs`).
- In a query_string, a minus sign in a chain of alternatives does not do what it says
  (`QueryStringMeaning.ReadsAsWrittenExactlyWhen`), and the phrase "OR" is taken for the keyword
  (`QueryStringMeaning.LoneMarkerJoins`, `QueryStringMeaning.LeadingMarkerDrops`).
- The size of a terms aggregation is ignored when the request decoder delivers it as a JSON number, which the search
  handler's decoder does (`TermsAggregation.SizeAsAskedExactlyWhen`; internal/server/search.go:60-61,
  internal/search/aggregator.go:152-158).
- Answers to earlier requests count for a half-open circuit breaker as if they answered its probes
  (`Breaker.LateAnswersClose`, `Breaker.ClosingNeedsProbes`, `Breaker.ClosingWithFewestProbes`).

Two more differences play no part in the model. The cache key is called 32 hexadecimal digits long (pkg/cache/lru.go:82),
and a SHA-1 digest has 40; the model takes any hash. A response with status 429 counts as a failure although the comment
speaks of statuses from 500 (pkg/client/breaker.go:235-240); the model takes the outcome as given.

## Model

| member | source | states |
|---|---|---|
| RoundRobin.ArgMaxIsMax | pkg/pool/pool.go:161-168 | the loop's pick is the first of the largest current weights |
| RoundRobin.AfterConservesSum | pkg/pool/pool.go:143-179 | the sum of the current weights never changes, over any number of selections |
| RoundRobin.CurrentWeightFormula | pkg/pool/pool.go:143-179 | after n selections a current weight is its start plus n times the weight minus the total for each time it was picked |
| RoundRobin.PicksAddUp | pkg/pool/pool.go:143-179 | n selections pick n nodes in all |
| RoundRobin.ChosenOfferIsPositive | pkg/pool/pool.go:143-179 | the picked node's raised weight is positive |
| RoundRobin.SaturatedNotChosen | pkg/pool/pool.go:143-179 | from the initial weights, a node that already has its share is not picked again within the first period |
| RoundRobin.PicksWithinWeight | pkg/pool/pool.go:143-179 | within the first period no node is picked more often than its weight |
| RoundRobin.FullPeriodPicks | pkg/pool/pool.go:101-106 | a full period of total-weight selections picks each node exactly weight times |
| RoundRobin.FullPeriod | pkg/pool/pool.go:143-179 | after a full period every current weight is back at its start |
| RoundRobin.AnyWindowIsFair | pkg/pool/pool.go:143-179 | any window of total-weight consecutive selections, wherever it begins, picks each node exactly weight times |
| RoundRobin.LongRunFairness | pkg/pool/pool.go:143-179 | after q periods and r more selections each count lies between q and q + 1 times the weight |
| Pool.RotationIsFair | pkg/pool/pool.go:230-244 | plain rotation serves the healthy nodes in order, one each, and then repeats |
| Pool.PoolNode.constructor | pkg/pool/pool.go:77-107 | weights of 0 or less count as 1, the current weight starts at the weight, no client means not healthy |
| Pool.ClientPool.GetHealthyNodes | pkg/pool/pool.go:220-228 | the healthy nodes with a client, in list order, each once |
| Pool.ClientPool.SelectWeightedRoundRobin | pkg/pool/pool.go:143-179 | picks among the usable candidates and advances their current weights by one step of the scheduler, leaving other nodes alone; with none usable the first candidate answers and nothing changes |
| Pool.ClientPool.MoveFirstToEnd | pkg/pool/pool.go:230-244 | keeps the nodes and rotates the healthy ones by one |
| Pool.ClientPool.Get | pkg/pool/pool.go:118-139 | fails without changing anything when no node is healthy; otherwise serves and advances by the configured balancer |
| EditDistance.DistIsLeastEdits | internal/search/suggest.go:347-396 | the recursive distance is the least number of single insertions, deletions and substitutions between two strings |
| EditDistance.DistSymmetric | internal/search/suggest.go:361-365 | swapping the arguments does not change the distance |
| EditDistance.DistAtLeastLengthGap | internal/search/suggest.go:352-354 | the distance is at least the difference in length, which justifies the first prune |
| EditDistance.RowStaysAbove | internal/search/suggest.go:386-388 | once a whole row exceeds the limit every later row does, which justifies the early exit |
| EditDistance.FillRow | internal/search/suggest.go:373-385 | one round fills the next row of distances in place and returns its minimum |
| EditDistance.Levenshtein | internal/search/suggest.go:347-396 | the distance if it is at most the limit, -1 otherwise, for all strings and limits |
| TermSuggest.CandidatesExactly | internal/search/suggest.go:187-223 | the candidates are exactly the index words with documents within the edit limit of a query word that shares the prefix, each scored by the nearest such word |
| TermSuggest.CloseExactlyWhen | internal/search/suggest.go:188-206 | a query word reaches an index word if and only if it is long enough, the first characters agree, and so many edits at most lead from the one to the other |
| TermSuggest.FrequencyCountsPairs | internal/search/suggest.go:206-220 | a candidate's frequency counts the pairs of a query word close to it and a document that has it |
| TermSuggest.ScoreIsShare | internal/search/suggest.go:209-213 | a word itself scores its number of documents, one at distance n that number divided by n + 1 |
| TermSuggest.ScoreFallsWithDistance | internal/search/suggest.go:209-213 | a candidate scores higher exactly when it is nearer |
| TermSuggest.CollectCandidates | internal/search/suggest.go:188-223 | the nested loops compute those candidates |
| TermSuggest.BestOptions | internal/search/suggest.go:224-241 | by score and then text, the options returned are the best of the candidates: all or as many as asked for, in rank order, none left out that ranks above one returned |
| TermSuggest.Suggest | internal/search/suggest.go:165-241 | the suggester with its default order returns as many candidates as asked for or as there are, with the highest scores first and by text among equals, and leaves none out that scores higher |
| SqlLexer.ReadString | pkg/sqldsl/sqldsl.go:67-89 | reads a quoted string with doubled quotes undone, or finds it unterminated |
| SqlLexer.Tokenize | pkg/sqldsl/sqldsl.go:57-155 | the loop computes the token list of the text or the first error, for every text |
| SqlParser.Parser.ParseCond | pkg/sqldsl/sqldsl.go:451-504 | reads one comparison, IN list or LIKE pattern as the grammar says and never passes the end marker |
| SqlParser.Parser.ParsePrimary | pkg/sqldsl/sqldsl.go:438-450 | the same for parentheses |
| SqlParser.Parser.ParseExpr | pkg/sqldsl/sqldsl.go:402-435 | precedence climbing computes the grammar's result, terminates and never passes the end marker, on every token list that has one |
| SqlWritten.DraftReads | pkg/sqldsl/sqldsl.go:247-398 | every statement that can be written is read as it is meant: fields and counts with aliases, a condition with any parentheses, orders that are ascending unless said otherwise, LIMIT and then OFFSET, the end or a semicolon |
| SqlGrammar.ExprIsWritten | pkg/sqldsl/sqldsl.go:402-504 | whatever the expression parser reads is, up to the spelling of numbers, the writing of a well-formed tree of the expression it returns |
| SqlGrammar.OnlyDraftsAreRead | pkg/sqldsl/sqldsl.go:247-398 | whatever the statement parser reads is, up to the spelling of numbers, such a statement and means what is returned |
| SqlSpelling.SpellingLexes | pkg/sqldsl/sqldsl.go:57-155 | tokens spelled in any of their ways, with any white space between them, lex to just these tokens |
| SqlSpelling.OnlySpellingsLex | pkg/sqldsl/sqldsl.go:57-155 | a text that lexes is made of such spellings and white space, and of nothing else |
| SqlSpelling.WrittenStatementReads | pkg/sqldsl/sqldsl.go:57-398 | from text to statement: however its tokens are spelled and spaced, a statement is read as it is meant |
| SqlWritten.StatementAsks | pkg/sqldsl/sqldsl.go:540-593 | the body of a statement selects the documents its condition holds of; a count asks for no hits and the number, any other statement for the hits from its offset on, as many as its limit says |
| SqlWritten.FieldsAsked | pkg/sqldsl/sqldsl.go:560-583 | every named field is asked for, in the order of the names |
| SqlRender.TreeReads | pkg/sqldsl/sqldsl.go:402-450 | parsing the tokens of a tree at its precedence amounts to having read the tree and going on behind it |
| SqlRender.TreeReadsBack | pkg/sqldsl/sqldsl.go:402-450 | a tree written with the parentheses it needs parses to itself |
| SqlRender.RenderedExprParsesBack | pkg/sqldsl/sqldsl.go:402-504 | every expression has such a writing, and parsing it returns the same left-associative tree |
| SqlDsl.CompilationPreservesMeaning | pkg/sqldsl/sqldsl.go:596-660 | under bool semantics (filter all, should at least one) the compiled query selects exactly the documents the condition describes |
| SqlDsl.UnknownOperatorSelectsAll | pkg/sqldsl/sqldsl.go:645-659 | an operator the compiler does not know selects every document that has the field |
| SqlDsl.PrintQuery | pkg/sqldsl/sqldsl.go:718-753 | the recursive printer computes the text of a query |
| SqlDsl.PrintClauses | pkg/sqldsl/sqldsl.go:792-835 | each loop of the bool printer keeps the non-empty parts, wrapped |
| SqlDsl.RangeToSQL | pkg/sqldsl/sqldsl.go:770-789 | the bounds of a range joined by AND |
| SqlLexText.NamePrintsExactly | pkg/sqldsl/sqldsl.go:837-843 | a printed name lexes back to itself if and only if it is relexable |
| SqlLexText.IntegerPrintsExactly | pkg/sqldsl/sqldsl.go:507-519 | a printed integer reads back if and only if it is non-negative and fits 64 bits |
| SqlLexText.LexesString | pkg/sqldsl/sqldsl.go:845-848 | a printed string lexes to exactly the string it was printed from, quotes included, for every string |
| SqlQueryText.QuerySays | pkg/sqldsl/sqldsl.go:718-848 | for every query, with filter, must, should and must_not lists of any length, match, terms and ranges of several bounds, the printed text has the tokens of the tree written for it |
| SqlQueryText.NegationStops | pkg/sqldsl/sqldsl.go:451-504 | wherever a NOT stands in such tokens and whatever it excludes, the parser takes it for a field and misses an operator |
| SqlQueryText.QueryReadsExactlyWhen | pkg/sqldsl/sqldsl.go:718-835 | the text of a query is empty if and only if the query is silent; otherwise it lexes, and parses if and only if no must_not clause is printed |
| SqlQueryMeaning.SaidMeans | pkg/sqldsl/sqldsl.go:792-835 | what is written of a query that leaves nothing relevant unprinted holds of exactly the documents it selects |
| SqlQueryMeaning.QueryTextMeans | pkg/sqldsl/sqldsl.go:718-835 | such a query with no alternatives beside other parts has a text that lexes and parses to a condition true of exactly the documents it selects |
| SqlQueryMeaning.QueryTextExactlyWhen | pkg/sqldsl/sqldsl.go:812-823 | with satisfiable conditions on distinct fields that is so if and only if alternatives stand beside no other part |
| SqlRoundTrip.LexesWhere | pkg/sqldsl/sqldsl.go:718-835 | the printed condition lexes to the tokens of the tree its text denotes |
| SqlRoundTrip.TextReadsBack | pkg/sqldsl/sqldsl.go:402-504 | printing a compiled condition, tokenizing and parsing succeeds for every printable condition and yields the tree the text denotes |
| SqlRoundTrip.LexesShown | pkg/sqldsl/sqldsl.go:718-835 | with != and LIKE in it, the printed condition lexes to the tokens of what is written of it |
| SqlRoundTrip.TextReadsExactlyWhen | pkg/sqldsl/sqldsl.go:718-835 | the text of a condition is empty if and only if all its leaves are LIKE; otherwise it lexes, and parses if and only if no leaf is a !=, to the tree shown |
| SqlMeaning.RegroupingExactlyWhen | pkg/sqldsl/sqldsl.go:402-435 | a tree written with distinct conditions is read as it is meant if and only if no operand of an AND has an OR outside parentheses |
| SqlMeaning.WhereRoundTrip | pkg/sqldsl/sqldsl.go:596-835 | with no OR beneath an AND, that tree holds of the same documents as the condition and as the compiled query |
| SqlMeaning.RoundTripExactlyWhen | pkg/sqldsl/sqldsl.go:812-823 | with distinct leaves the meaning is kept if and only if no OR stands beneath an AND |
| SqlMeaning.RoundTripExactlyWhenOnDocs | pkg/sqldsl/sqldsl.go:718-835 | for satisfiable conditions on distinct fields, with LIKE and mixed AND and OR wherever they stand, every document is treated alike before and after the round trip if and only if there is no LIKE and no OR beneath an AND |
| SqlMeaning.LeafDecides | pkg/sqldsl/sqldsl.go:596-644 | in an expression with distinct leaves every leaf can decide the outcome |
| SqlMeaning.LikeMatters | pkg/sqldsl/sqldsl.go:749-752 | for every LIKE, wherever it stands, there is a case in which what is read back differs from the condition |
| SqlSelect.ParseSelect | pkg/sqldsl/sqldsl.go:258-350 | the statement parser computes the grammar's result |
| SqlSelect.ParseFieldList | pkg/sqldsl/sqldsl.go:353-398 | the field list loop computes the grammar's result |
| SqlSelect.CompileStmt | pkg/sqldsl/sqldsl.go:540-593 | the statement compiler computes the search body |
| SqlSelect.PrintBody | pkg/sqldsl/sqldsl.go:667-715 | the statement printer computes the text of a body |
| SqlStatement.TailReads | pkg/sqldsl/sqldsl.go:317-348 | an offset and a size together are rejected; either alone reads back |
| SqlStatement.BodyTextReads | pkg/sqldsl/sqldsl.go:667-715 | the text of any body reads back if and only if no must_not clause is printed and it does not have both an offset and a size; index, order, offset and size are unchanged, and the condition selects what the query selects under the conditions above |
| SqlStatement.StatementRoundTrip | pkg/sqldsl/sqldsl.go:667-715 | a printed statement, with != and LIKE wherever they stand, reads back if and only if its condition has no != and it does not have both an offset and a size; index, order, offset and size are unchanged, and a condition of LIKE only is gone |
| SqlStatement.StatementMeaningKept | pkg/sqldsl/sqldsl.go:258-350 | of SELECT *, what is read back is the statement itself, up to a condition true of the same documents if it has no LIKE and no OR beneath an AND |
| SortedIndex.UpsertedSorted | internal/search/sorted_index.go:131-150 | inserting keeps the entries strictly ascending by value and id |
| SortedIndex.WithoutUndoesUpserted | internal/search/sorted_index.go:131-161 | removing a document undoes its insertion |
| SortedIndex.LowBoundsAgreeExactlyWhen | internal/search/sorted_index.go:103-122 | gt overrides gte, which agrees with testing both if and only if gte is at most the successor of gt |
| SortedIndex.HighBoundsAgreeExactlyWhen | internal/search/sorted_index.go:103-122 | the same for lt and lte |
| SortedIndex.Index.Upsert | internal/search/sorted_index.go:131-150 | binary search and splice compute the sorted insertion |
| SortedIndex.Index.RemoveDoc | internal/search/sorted_index.go:152-161 | the splicing loop removes every entry of the document |
| SortedIndex.Index.RangeQuery | internal/search/sorted_index.go:91-127 | two binary searches find exactly the ids a linear filter with the bounds in force finds |
| InvertedIndex.DropFirstMembers | internal/search/scorer.go:120-127 | removing a posting removes the document's and only that |
| IndexRuns.IndexKeepsExact | internal/search/engine.go:77-124 | indexing a new id keeps inverted map, postings, frequencies, lengths and sorted entries equal to what the documents say |
| IndexRuns.DeleteKeepsExact | internal/search/engine.go:137-177 | so does deleting any id |
| IndexRuns.RunsWithoutOverwriteAreExact | internal/search/scorer.go:70-135 | on every run that indexes only absent ids everything derived equals what is computed from the documents |
| IndexRuns.AllRunsAreComplete | internal/search/engine.go:77-177 | on every run, overwrites included, no stored document is missing under any of its words and frequencies equal posting counts |
| IndexRuns.OverwriteExactlyWhen | internal/search/engine.go:81-92 | an overwrite keeps the inverted map exact if and only if the new document has every word of the old one |
| IndexRuns.OverwritePostingsExactlyWhen | internal/search/scorer.go:90-101 | an overwrite keeps the postings exact if and only if the old document had no words in text fields |
| IndexRuns.OverwriteLengthsExactlyWhen | internal/search/scorer.go:70-102 | an overwrite keeps the field lengths exact if and only if no text field disappears |
| IndexRuns.OverwriteEntriesExactlyWhen | internal/search/engine.go:81-124 | an overwrite keeps the sorted entries exact if and only if no sort key disappears or changes |
| IndexRuns.OverwriteKeepsExactlyWhen | internal/search/engine.go:77-124 | an overwrite keeps an exact index exact if and only if the old document had no words in text fields and the new one has its other words, its text fields and its sort keys |
| IndexRuns.StaleHitsAfterDelete | internal/search/engine.go:137-149 | deleting an overwritten document leaves it among the hits of exactly the words the overwrite dropped |
| IndexRuns.DeleteUndoesIndex | internal/search/engine.go:77-177 | deleting a document just indexed under a new id restores documents, inverted sets, postings, lengths and entries |
| IndexRuns.MatchFindsExactly | internal/search/engine.go:198-213 | a match search finds exactly the documents that share a word with the text on an exact index, and misses none on a complete one |
| IndexRuns.LengthIsSumOfFrequencies | internal/search/scorer.go:85-101 | on an exact index the stored length of a document's field is the sum of the frequencies of its postings in that field |
| Tokenizer.TokensOfLayout | internal/search/engine.go:394-401 | whatever stands between them, the words of a text are found in order, each as often as it occurs, in lower case |
| Tokenizer.EveryTextIsLaidOut | internal/search/engine.go:394-401 | every text consists of words and what stands between them |
| Engine.CountWords | internal/search/scorer.go:85-89 | the term frequencies of a word list |
| Engine.OnIndexDoc | internal/search/scorer.go:70-102 | appends one posting per distinct word and raises its frequency |
| Engine.OnDeleteDoc | internal/search/scorer.go:105-135 | withdraws the document's postings and drops lists that run empty |
| Engine.IndexField | internal/search/engine.go:81-124 | registers one field in the inverted map, the postings, the lengths and the sorted entries |
| Engine.UnindexField | internal/search/engine.go:152-177 | withdraws one field |
| Engine.SearchEngine.IndexDoc | internal/search/engine.go:77-93 | the loops over fields, in any order, compute the indexing step and touch no other index |
| Engine.SearchEngine.DeleteDoc | internal/search/engine.go:137-149 | the loops over fields, in any order, compute the deletion step |
| Engine.SearchEngine.DeleteIndex | internal/search/engine.go:355-362 | forgets the index in memory |
| Engine.SearchEngine.MatchDocsTokens | internal/search/engine.go:198-213 | the union of the hits of the words of the value |
| QueryString.ParseQueryString | internal/search/multimatch.go:230-316 | the index-driven loop computes the clauses of every text or finds a phrase unterminated, and terminates |
| QueryString.PeekOrAfter | internal/search/multimatch.go:319-324 | whether the keyword follows |
| QueryString.ContainsPhrase | internal/search/suggest.go:91-108 | whether the phrase occurs word after word; an empty one never does |
| QueryString.PhraseFindsExactly | internal/search/suggest.go:91-108 | a phrase is found in a text field if and only if its words stand there one after the other, and it has any |
| QueryString.EvalQSClause | internal/search/multimatch.go:396-416 | the union over the clause's fields of phrase or word hits |
| QueryString.FieldListFindsAny | internal/search/multimatch.go:396-416 | a clause over a list of field names, with commas between them and blanks at will, finds what it finds in any of the fields |
| QueryString.EvalQueryStringClauses | internal/search/multimatch.go:329-374 | the loop with its chains of alternatives computes the value of the clause list, and terminates |
| QueryStringMeaning.QueryParses | internal/search/multimatch.go:230-316 | the text written from groups of signed terms parses to exactly their clauses |
| QueryStringMeaning.EvalOfQuery | internal/search/multimatch.go:329-374 | those clauses select what every group selects |
| QueryStringMeaning.QueryFindsExactly | internal/search/multimatch.go:230-416 | if every group is one term or has no minus sign, the query finds exactly the documents that match some term of every group and no excluded term, for words, field-qualified words and phrases |
| QueryStringMeaning.SignedQueryFindsExactly | internal/search/multimatch.go:230-416 | on an exact index, parsing and evaluating any query of groups of signed terms returns exactly the documents that every group selects, a group being minus terms one by one and then a chain that ignores signs |
| QueryStringMeaning.ReadsAsWrittenExactlyWhen | internal/search/multimatch.go:355-365 | a group selects what its signs say, whatever the terms match, if and only if it is one term or has no minus sign |
| QueryStringMeaning.LoneMarkerJoins | internal/search/multimatch.go:334-338 | between any two queries a term taken for the marker, such as the phrase "OR", joins the groups around it as the keyword does |
| QueryStringMeaning.LeadingMarkerDrops | internal/search/multimatch.go:334-365 | at the head of a group, anywhere in a query, such a term changes nothing |
| Reindex.RollbackUndoesCopy | internal/server/extras.go:481-489 | rolling back undoes copying documents under new ids, in the destination's documents, inverted sets, postings, lengths and entries |
| Reindex.AlwaysHeld | internal/server/extras.go:401-475 | the invariant of every interleaving of job, cancelling client, failing store and vanishing source documents |
| Reindex.CancelRestoresDestination | internal/server/extras.go:409-417 | a job that ends cancelled, whenever the cancel came, leaves destination and store as they began, if the destination began exact and shares no id with the source |
| Reindex.CompletionCopies | internal/server/extras.go:419-448 | a completed job leaves the old documents overlaid with those written, in index and store, and an exact index |
| Reindex.CompletionCopiesAll | internal/server/extras.go:419-448 | without failures it holds the old documents and every source document |
| Reindex.ProgressAddsUp | internal/server/extras.go:425-441 | on every run the batches reported are the multiples of the batch size passed with a document written, and, while none is taken from the source, documents created and failed are all that were passed |
| Reindex.CancelRemovesWritten | internal/server/extras.go:481-489 | cancellation leaves the old documents without every id that had been written |
| Reindex.CancelRestoresExactlyWhen | internal/server/extras.go:391-397 | cancellation restores the documents in every run if and only if no id is shared with the source |
| ReindexClients.CancelLeaves | internal/server/extras.go:481-489 | with clients writing to the destination at any time, a cancelled job leaves an id it had not written as the clients make it, and one it had written as they make it after its rollback, from nothing |
| ReindexClients.WriteSurvivesCancelExactlyWhen | internal/server/extras.go:481-489 | the last document a client wrote under an id survives a cancelled job if and only if the job had not written the id or had rolled it back before |
| Reindex.FlaggedEndsCancelled | internal/server/tasks.go:139-150 | a job not yet done when the flag is raised ends cancelled |
| Reindex.CompletedStaysExactlyWhen | internal/server/extras.go:444-456 | a job seen completed stays completed in every continuation if and only if it is done |
| Reindex.TickAdvances | internal/server/extras.go:401-489 | every step of the job brings it nearer its end, under any interleaving |
| Reindex.RollbackReindex | internal/server/extras.go:481-489 | deletes the written ids from the engine, last first |
| Reindex.RunReindex | internal/server/extras.go:401-475 | the body of the job for any outcome of its polls and store writes: ends cancelled exactly when a poll or a read of the flag says so, with the destination copied or rolled back |
| PostingsSnapshot.LoadReturnsCaptured | internal/search/postings_snapshot.go:125-165 | loading what a flush captured gives the inverted map back |
| PostingsSnapshot.AcceptedSnapshotIsCurrent | internal/search/postings_snapshot.go:208-302 | over every run of writes, version steps, flushes, failing flushes, index deletion and rebuilds, an accepted snapshot gives the current inverted map when no write is halfway |
| PostingsSnapshot.HalfwayWriteIsMissedExactlyWhen | internal/search/persistence.go:63-99 | on every run, between a write and its version step the accepted snapshot stays accepted, and gives the current map if and only if the document was found under all its words already, or, for a deletion, under none |
| PostingsSnapshot.LoadsCurrentExactlyWhen | internal/search/postings_snapshot.go:81-192 | with flushes in two steps and deletions and rebuilds at any time, on every run, every load with no write halfway gives the current map if and only if at every commit with no write halfway the captured map over what was left in the store is the current one |
| PostingsSnapshot.WithoutLeftoversExactlyWhen | internal/search/postings_snapshot.go:166-192 | where no such commit finds stored fields it has not captured, that is if and only if it finds the map as captured |
| PostingsSnapshot.LeftoversComeLate | internal/search/postings_snapshot.go:173-188 | a commit finds such fields only if an earlier flush, whole or failed, stored them after its index was deleted or rebuilt, and nothing was deleted or rebuilt since |
| PostingsSnapshot.WipedDuringFlushComesBack | internal/search/engine.go:355-365 | whenever an index is deleted or rebuilt during a flush, and whatever is written to it until the commit, every load then accepts the snapshot and gets the map of the capture |
| PostingsSnapshot.LeftoverSpoilsFlush | internal/search/postings_snapshot.go:173-192 | a stored field the map does not know is in every snapshot committed later, disturbed or not, until the store is cleared, and the snapshot is accepted |
| PostingsSnapshot.LeftoverOutlivesFlush | internal/search/persistence.go:427-459 | for any two documents with different fields there is a run in which every commit with no write halfway finds the map as captured, and the last snapshot is accepted with a field of the deleted index |
| PostingsSnapshot.ReloadedPostingsExactlyWhen | internal/search/postings_snapshot.go:138-156 | a reload gives a term its postings back if and only if all documents with the term have it in a text field |
| PostingsSnapshot.RebuildExactExactlyWhen | internal/search/persistence.go:389-401 | a rebuild leaves the inverted map exact if and only if all fields with words are text |
| PostingsSnapshot.LoadedExactlyWhen | internal/search/postings_snapshot.go:246-301 | a load gives an exact index exact hits, document frequencies and field lengths; exact postings if and only if all words are in text fields; exact sorted entries if and only if there are no sort keys |
| PostingsSnapshot.DeleteFromLoaded | internal/search/scorer.go:105-135 | deleting any document from a loaded index keeps what is exact exact |
| PostingsSnapshot.AcceptedLoadExactlyWhen | internal/search/postings_snapshot.go:208-302 | on every run that is so of every load accepted with no write halfway |
| PostingsSnapshot.CaptureFields | internal/search/postings_snapshot.go:125-165 | the nested loops capture every field: entries by id, each once, with its frequency |
| PostingsSnapshot.RebuildInverted | internal/search/persistence.go:427-503 | the document scan makes every field known and registers the words of text fields |
| PostingsSnapshot.SnapshotEngine.BumpPostingsVersion | internal/search/persistence.go:89-99 | the version step of a pending write |
| PostingsSnapshot.SnapshotEngine.FlushPostingsSnapshot | internal/search/postings_snapshot.go:81-192 | one flush as one step: an empty index loses its snapshot, otherwise fields and version are stored |
| PostingsSnapshot.SnapshotEngine.LoadPostingsSnapshot | internal/search/postings_snapshot.go:208-302 | accepts exactly a snapshot of the current version with some field, and gives the state with its hits, postings, frequencies and lengths |
| PostingsSnapshot.SnapshotEngine.InvalidatePostingsSnapshot | internal/search/postings_snapshot.go:320-331 | forgets the snapshot |
| PostingsSnapshot.SnapshotEngine.DeleteIndex | internal/search/engine.go:355-365 | deleting an index empties memory and forgets the snapshot, leaving the stored version alone |
| Bloom.ProbesDifferExactlyWhen | internal/server/segment.go:354-362 | two probes of a term are at different positions, as long as the sums fit 64 bits, if and only if the size does not divide so many strides |
| Bloom.NeverDeniesAdded | internal/server/segment.go:365-381 | a filter never denies a term it was given, for every hash |
| Bloom.BuiltBits | internal/server/segment.go:355-370 | its bits are exactly the probes of its terms, whatever the order of adding |
| Bloom.StoredBitsSurvive | internal/server/segment.go:384-413 | little-endian storing keeps the bits and rounds the size up to whole words |
| Bloom.ReloadKeepsAnswersExactlyWhen | internal/server/segment.go:396-413 | reloading keeps every answer for every hash if and only if the size is a multiple of 64 |
| Bloom.ReloadedDeniesExactlyWhen | internal/server/segment.go:373-413 | for the hash in use, a reloaded filter denies a term if and only if one of its probes under the new size is no probe of any added term under the old size |
| Bloom.AlignedExactlyWhen | internal/server/segment.go:342-352 | which is so for up to 102 terms or a number of terms divisible by 32 |
| Bloom.BloomFilter.constructor | internal/server/segment.go:342-352 | an empty filter of the size for n terms |
| Bloom.BloomFilter.FromRaw | internal/server/segment.go:396-413 | a filter read back from its bytes |
| Bloom.BloomFilter.Add | internal/server/segment.go:365-370 | sets the term's four probes |
| Bloom.BloomFilter.MayContain | internal/server/segment.go:373-381 | whether all four probes are set |
| Bloom.BloomFilter.MarshalBinary | internal/server/segment.go:384-393 | the bytes of the words |
| Segments.FlushAddsSnapshot | internal/server/segment.go:193-286 | a flush adds exactly the snapshot to what the active segments hold |
| Segments.MergePreservesUnion | internal/server/segment.go:601-680 | a merge keeps, for every field and term, the union of the postings over the active segments |
| Segments.MergeCounts | internal/server/segment.go:582-672 | a merge leaves max - 1 segments plus one for each distinct merged field; ids ascend and new ones were never given out |
| Segments.LimitKeptExactlyWhen | internal/server/segment.go:540-551 | the limit is kept if and only if the merged segments are all of one field |
| Segments.FilteringIsExact | internal/server/segment.go:433-471 | a filtered search finds nothing else, and with faithful filters finds everything the active segments hold |
| Segments.FiltersFaithfulExactlyWhen | internal/server/segment.go:454-460 | no search of segments with n terms misses a term, whatever the hash, if and only if n is at most 102 or divisible by 32 |
| SegmentRuns.RunsStayConsistent | internal/server/segment.go:281-283 | on every run over any indices the statistics are the number and bytes of the active segments, and lists, stored segments and filters fit together |
| SegmentRuns.SegmentsHoldAllFlushed | internal/server/segment.go:193-286 | on every run the active segments hold exactly what flushes gave |
| SegmentRuns.IdsAreNeverReused | internal/server/segment.go:162-177 | an id that left the active list never comes back |
| SegmentRuns.SearchFindsFlushed | internal/server/segment.go:433-471 | on every run a search through faithful filters finds exactly what flushes gave |
| SegmentManager.BuildSegment | internal/server/segment.go:214-237 | builds a segment with sorted postings, all its ids and a filter of its terms |
| SegmentManager.Segmenter.FlushNow | internal/server/segment.go:193-286 | writes and activates one segment per field, in any order, and counts them |
| SegmentManager.Segmenter.MergeSegments | internal/server/segment.go:552-682 | merges the smallest segments by field, replaces the active list, deletes the merged ones and adjusts the statistics |
| SegmentManager.Segmenter.SearchTerm | internal/server/segment.go:433-471 | the sorted duplicate-free union over active segments whose filter passes the term |
| LruCache.GetRefines | pkg/cache/lru.go:110-126 | a hit moves the entry to the end of the recency list; a miss changes nothing |
| LruCache.SetRefines | pkg/cache/lru.go:134-163 | setting forgets the old entry, or the first one when a new key finds the cache full, and appends the new one |
| LruCache.InvalidateExactlyWhen | pkg/cache/lru.go:171-184 | invalidation removes exactly the entries of the index if and only if every stored key listed under it still carries its tag |
| LruCache.AgreedRunsInvalidateExactly | pkg/cache/lru.go:134-184 | after any run whose stores of a key always name the same indices, invalidation removes exactly the entries of the index |
| LruCache.StaleListingTakesMore | pkg/cache/lru.go:157-180 | otherwise a stale listing makes invalidation of one index remove an entry of another |
| LruCache.RunsAreValid | pkg/cache/lru.go:61-184 | on every run the order lists the stored keys once each, the size stays within capacity, and every entry is listed under its indices |
| LruCache.OrderIsByLastTouch | pkg/cache/lru.go:119-154 | on every run the order is by when keys were last used |
| LruCache.VictimIsLeastRecentlyUsed | pkg/cache/lru.go:274-294 | the evicted key is the stored key used least recently, and nothing else goes |
| LruCache.HoldsLastStored | pkg/cache/lru.go:134-150 | a stored key holds what was last stored under it |
| LruCache.KeptExactlyWhen | pkg/cache/lru.go:61-154 | with lookups and stores only, a key is kept if and only if fewer other keys than the capacity have been used since it was |
| LruCache.CountersCount | pkg/cache/lru.go:110-126 | the counters say how many lookups found their key and how many did not |
| LruCache.NoTaggedEntryLeft | pkg/cache/lru.go:171-184 | after invalidating an index no entry tagged with it is left, stale listings or not |
| LruCache.Cache.Lookup | pkg/cache/lru.go:110-126 | the lookup with its counters and order |
| LruCache.Cache.Store | pkg/cache/lru.go:134-163 | the store with eviction, order and listings |
| LruCache.Cache.EvictOldest | pkg/cache/lru.go:274-294 | the eviction with its listings |
| LruCache.Cache.DropIndex | pkg/cache/lru.go:171-184 | the invalidation loop |
| LruCache.Cache.RemoveFromOrder | pkg/cache/lru.go:264-271 | removes the key's first occurrence |
| CacheKey.SortStrings | pkg/cache/lru.go:297-305 | the exchange sort leaves the names in order and is a permutation |
| CacheKey.MakeKey | pkg/cache/lru.go:83-100 | the hash of the sorted names and the body |
| CacheKey.KeyTextInjective | pkg/cache/lru.go:89-98 | the names, if free of separators, and the body can be read off the hashed text |
| CacheKey.SameKeyExactlyWhen | pkg/cache/lru.go:83-100 | for a hash without collisions two searches share a key if and only if they are over the same names in any order with the same body |
| CacheKey.CollidesExactlyWhen | pkg/cache/lru.go:89-98 | no search over clean names has the hashed text of a given search, other than itself, if and only if no name of the given search has a separator in it |
| CacheKey.KeysCollideExactlyWhen | pkg/cache/lru.go:83-100 | with the names sorted and a hash without collisions, a search shares its key with another one over clean names if and only if a name has a separator and the names read back from its text are in order |
| SearchCache.KeysAreFaithful | pkg/cache/lru.go:83-100 | for a hash without collisions, searches over sorted clean names share a key only if they are the same |
| SearchCache.EveryEntryIsTraced | internal/server/search.go:75-85 | in every run of interleaved searches, changes and invalidations, every entry goes back to a search that computed it, stored it later, and was not invalidated since |
| SearchCache.HitIsAnswerThen | internal/server/search.go:76-85 | a hit is the answer to the same search at the step it was computed in |
| SearchCache.StaleHitExplained | internal/server/search.go:222-227 | a stale hit has one of two causes: a change between computing and storing, or a change never invalidated since |
| SearchCache.RunsFreshExactlyWhen | internal/server/search.go:75-227 | for a given way of searching, every hit at every moment of a run is fresh if and only if every search stores what is the answer when it stores, and every change that invalidates nothing leaves the cached answers as they are |
| SearchCache.NextStepFreshExactlyWhen | internal/server/search.go:75-227 | after any run, the next step leaves every hit fresh, for every way of searching that agrees with what is cached and about to be stored, if and only if a finishing search finds its indices as it did or its answer cached, and a change that invalidates nothing leaves the index as it is or touches no index of a cached search |
| SearchCache.GuardedRunsAreFresh | internal/server/search.go:75-227 | with that condition met at every step of a run every hit is fresh |
| SearchCache.PromptRunsAreFresh | internal/server/optimistic.go:200-210 | with every change invalidating at once and none overtaking a search, every hit is fresh |
| SearchCache.AnswerIsKeptExactlyWhen | internal/server/search.go:221-227 | a search nothing overtakes leaves its answer in the cache if and only if there is one and it is not too long |
| SearchCache.OvertakenFreshExactlyWhen | internal/server/search.go:222-227 | a search overtaken by writes leaves a fresh hit, for every way of searching, if and only if the writes leave its indices as they were |
| SearchCache.LifecycleDeleteFreshExactlyWhen | internal/server/ilm_executor.go:433-461 | a deletion by the lifecycle policy leaves every hit fresh, for every way of searching that was fresh before, if and only if there was no such index or no cached search is over it |
| ReindexCache.AlwaysHeld | internal/server/extras.go:401-456 | the invariant of every interleaving of job, searches and writes: only the destination changes without being invalidated, until a completed job has invalidated it |
| ReindexCache.CompletedIsFresh | internal/server/extras.go:444-447 | once a job has completed and made its invalidations every hit is fresh |
| ReindexCache.BetweenHoldsMore | internal/server/extras.go:409-489 | from the first document indexed to the last undone the destination holds a document it did not hold |
| ReindexCache.CancelledHitFreshExactlyWhen | internal/server/extras.go:409-489 | after a job that ended cancelled and shared no id, the indices of a hit hold what they held when it was computed, and the hit is fresh for every way of searching them, if and only if the destination is not among them or the search did not start between the first document indexed and the last undone |
| ReindexCache.CancelCanLeaveStaleHit | internal/server/extras.go:409-417 | there is such a stale hit whenever the source has a document |
| Breaker.GrantedExactlyWhen | pkg/client/breaker.go:203-227 | a request is let through if and only if the breaker is closed, or open with the timeout passed since the event that opened it last, or half-open with fewer requests outstanding in this period than the limit |
| Breaker.StaysClosedExactlyWhen | pkg/client/breaker.go:213-265 | a breaker is closed at every moment if and only if it is never forced open and no streak of failures reaches the threshold; all that while it lets every request through |
| Breaker.ForceOpenStops | pkg/client/breaker.go:297-304 | forced open, a breaker lets nothing through for a whole timeout |
| Breaker.ResetStartsAfresh | pkg/client/breaker.go:307-317 | reset, a breaker goes on and lets through as a new one does |
| Breaker.FailureIsStreak | pkg/client/breaker.go:255-265 | while closed the counter is the number of failures since the last success or closing, and below the threshold |
| Breaker.TripsExactlyAtThreshold | pkg/client/breaker.go:261-265 | a result opens the breaker exactly when it completes such a streak |
| Breaker.OpenGrantsNothing | pkg/client/breaker.go:174-218 | an open breaker stays open and lets nothing through before its timeout, in every run without a reset |
| Breaker.ClosingTakesSuccesses | pkg/client/breaker.go:274-292 | every closing but a reset ends a half-open period with exactly the threshold of successes and no failure |
| Breaker.ProbesAreLimited | pkg/client/breaker.go:218-225 | in a half-open period no more is let through than the limit plus the results reported in it |
| Breaker.ProbeFailureReopens | pkg/client/breaker.go:279-284 | a failed probe closes the way for a whole timeout |
| Breaker.LateAnswersClose | pkg/client/breaker.go:274-292 | answers to earlier requests can close the breaker without a probe, whatever the threshold |
| Breaker.ClosingNeedsProbes | pkg/client/breaker.go:218-292 | however results are matched to requests, a closing period has let through at least as many requests as the threshold exceeds the late answers counted in it |
| Breaker.ClosingWithFewestProbes | pkg/client/breaker.go:218-292 | that many are enough, for any late answers of unanswered requests |
| Breaker.CircuitBreaker.TickState | pkg/client/breaker.go:174-184 | an open breaker whose time is up turns half-open with fresh counters |
| Breaker.CircuitBreaker.Allow | pkg/client/breaker.go:203-227 | whether a request is let through, and the new state |
| Breaker.CircuitBreaker.OnResult | pkg/client/breaker.go:245-294 | the new state after a reported result |
| Breaker.CircuitBreaker.ForceOpen | pkg/client/breaker.go:297-304 | opens, unless open already |
| Breaker.CircuitBreaker.ForceReset | pkg/client/breaker.go:307-317 | closes with all counters cleared |
| Highlight.PiecesPartition | internal/server/highlight.go:131-136 | words and single other bytes make up the text, and words are maximal |
| Highlight.EmptyTagsChangeNothing | internal/server/highlight.go:142-190 | with empty tags a text with a hit comes back unchanged |
| Highlight.HitExactlyWhenTokenMatches | internal/server/highlight.go:142-157 | a text is highlighted exactly when one of its indexed words is asked for |
| Highlight.WordIsTagged | internal/server/highlight.go:160-190 | whatever stands around it, a word of the text comes out between the opening and the closing tag if it is asked for and as it is otherwise; what stands before and behind it comes out as it would alone |
| Highlight.NoFragmentExactlyWhen | internal/server/highlight.go:142-157 | there is no fragment if and only if no indexed word of the text is asked for |
| Highlight.TokensArePieces | internal/server/highlight.go:131-136 | the words a text is indexed under are the words among its pieces, in order |
| Highlight.HighlightString | internal/server/highlight.go:142-190 | the loop over the bytes wraps each word that is asked for once, copies every other byte, and gives the empty string without a hit |
| TermsAggregation.NoHitIsLost | internal/search/aggregator.go:190-203 | kept counts and sum_other_doc_count add up to the hits that have the field |
| TermsAggregation.KeptRankAboveDropped | internal/search/aggregator.go:152-189 | kept buckets have their exact counts in rank order, no dropped value ranks above a kept one, and as many are kept as the size in use or as there are |
| TermsAggregation.MostHitsAreKept | internal/search/aggregator.go:178-189 | buckets come with the most hits first and by key among equals, and no dropped value has more hits than a kept one |
| TermsAggregation.SizeAsAskedExactlyWhen | internal/search/aggregator.go:152-189 | as many buckets are kept as the request asks for if and only if its size is a positive float or int, or the default, or there are no more values than both it and the default |
| TermsAggregation.SubsetsMatchCounts | internal/search/aggregator.go:225-243 | each kept bucket hands exactly its count of hits to sub-aggregations, and no two buckets share one |
| TermsAggregation.HavingIsFilter | internal/search/aggregator.go:234-243 | those hits are exactly the hits with the value, each as often as it was hit |
| TermsAggregation.CountHits | internal/search/aggregator.go:160-168 | counts the hits of each value |
| TermsAggregation.EvalTerms | internal/search/aggregator.go:147-215 | counting, ranking and truncating compute the best buckets and the rest |
| TermsAggregation.SubsetsForBuckets | internal/search/aggregator.go:225-243 | collects the hits of each bucket |

## Left out

- Pool.ClientPool.SelectWeightedRoundRobin: asks for at least one candidate, as its only caller hands over; concurrent
  calls under the read lock are one step each.
- Reindex.RunReindex: store contents and progress counters appear in the step model only.
- ReindexClients.WriteSurvivesCancelExactlyWhen: a client's write to store and index is one step; what the store of
  documents holds afterwards is not stated.
- ReindexCache.CancelledHitFreshExactlyWhen: searches are whole steps here, and no client writes to the destination;
  searches overtaken by a change are treated in SearchCache.NextStepFreshExactlyWhen.
- TermSuggest.Suggest: the order by frequency is not modelled; it is not total in the source.
- SqlQueryMeaning.QueryTextMeans: a match clause is read as equality, and alternatives as at least one of them; clauses of
  other kinds print nothing and are left out, as are numbers with a fraction.
- QueryString.ParseQueryString: the stripping of reserved characters for simple_query_string is not modelled.
- SearchCache.RunsFreshExactlyWhen: the search itself is any function of the indices it names, which have no separator
  in them; the elapsed time in a response is left out of it.
- PostingsSnapshot.LoadsCurrentExactlyWhen: the version is read and the fields are stored in one step, or some fields and
  no version; a deletion or a rebuild changes memory and clears the stored snapshots in one step.
- Floating point: numbers with a fraction are carried as text, BM25 scores and logarithms are not modelled, the
  suggester's scores are real numbers.
- Text beyond ASCII: lower-casing and white space are those of ASCII; JSON and base64 encodings are taken as themselves,
  SHA-1 and FNV-1a as functions.
- Restarts: a postings snapshot is followed through one process lifetime; the two-step version write of a bump is one step.
- Storage failures other than those named in Reindex and PostingsSnapshot; error texts, which are modelled as kinds.
- The range fallback scan, the server's own evaluation of must and filter clauses, histogram and metric aggregations, the
  prefix and completion suggesters, index patterns with several stars, the bulk reader, RBAC, sessions, mappings,
  document versions, HTTP handlers, configuration, metrics, Badger and the client's SDK wrappers: plumbing, or easier
  members.
