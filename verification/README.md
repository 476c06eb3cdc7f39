# OpenSysML: verified models of the tools and servers

A Dafny model of five cores of OpenSysML and proofs of what they promise. `dafny verify dfyconfig.toml`
checks the whole project.

**Grammar path analyzer** (`cmd/grammar-coverage`). Derivation trees say what an input must contain to
take a path through a production: optional parts are not taken and unresolved rules need nothing. The
analyzer computes minimal literal sets as capped antichains of bit masks, cuts recursion with a set of
active productions and caches a result only if nothing was cut. `masks.dfy` and `path_sets.dfy` hold
the mask and antichain algebra, `derivations.dfy` the trees, `paths.dfy` the analysis without memo and
the pumping argument that cutting loses nothing, `analyzer.dfy` the class with its memo and `cuts`
counter, `classify.dfy` what the buckets of the report mean in terms of derivations,
`resolution.dfy` rule lookup, `xtext_parser.dfy` the parser of production bodies, `xtext_spelling.dfy`
a grammar of what such bodies may look like, which is exactly what the parser accepts, and
`xtext_printer.dfy` a printer it inverts.

**LSP text synchronisation** (`internal/lsp`). `utf8.dfy` has the encoders and Go's decoder with its
error rune, `positions.dfy` the maps between byte offsets and UTF-16 positions, `text_sync.dfy` the
incremental edits and the client they are to follow, `semantic_tokens.dfy` the resumable cursor, the
line splitter and the delta encoding with its decoders.

**REPL merge and queries** (`internal/repl/merge.go`, `internal/grpc/query.go`). `text_edits.dfy` is
the rewriting of a text by edits, `namespace_merge.dfy` the recursive merge as a function on member
trees and as edits realising it, `merge_order.dfy` where the members of the result come from,
`merge_bags.dfy` when a second merge changes something, `merge_laws.dfy` what a merge means and that
it is idempotent, `qualified_names.dfy` the segments of names, `element_walk.dfy` the depth-first
enumeration over a cyclic graph of scopes and symbols.

**Diagnostic comparison** (`cmd/pilot-diff`). `diagnostics.dfy` groups and orders, `two_way.dfy` is
the greedy two-pass comparison, `two_way_laws.dfy` and `two_way_totals.dfy` its conservation and
optimality, `two_way_pairing.dfy` the order in which severities are paired, `three_way.dfy` and
`three_way_totals.dfy` the partition over three implementations and its agreement with the two-way one.

**Service caches** (`internal/grpc`). `index_pool.dfy` has the locked sections of the index pool as
methods of a class refining functions, `index_pool_runs.dfy` interleaves those functions with
builders, callers and closers in every order. `lru_cache.dfy` is the map and list of entries,
`lru_runs.dfy` its runs.

Where the source changes state the model does: classes and loops are proved against functions, and the
laws are lemmas about those functions. What a clock, a file or another program provides is a parameter.

Three findings. The code takes only a newline as the end of a line, while the "Position" section of
LSP 3.17 also has a carriage return, alone or before a newline, end one; `TextSync.AgreeExactly` and
`TextSync.AgreeEverywhere` say exactly when server and client still read a position alike. One
pruning of path sets is exact if and only if the minimal sets fit the cap (`PathSets.PruneExactIff`);
the whole analysis is exact where every intermediate result fits (`Paths.PathsExact`) or some
derivation needs no literal (`Paths.LiteralFreeIsExact`), and inexact where more than `maxPaths`
derivations have different minimal needs (`Paths.CapLosesDerivation`); emptiness and literal-freedom
are right in any case. The first path is the cheapest where nothing is cut (`Paths.CheapestIsFirst`),
which the cap can spoil (`Paths.CapLosesCheapest`). A submission merged a second time changes nothing
unless it repeats a name; `MergeBags.MergingTwiceExactly` says for all bodies when it does, and
`MergeLaws.RepeatedNameLosesMember` shows a member lost that way.

## Model

| member | source | states |
|---|---|---|
| Masks.MaskExtensional | cmd/grammar-coverage/classify.go:433-436 | Sixteen 64-bit words are a set of literals: two masks are equal exactly if they hold the same bits. |
| Masks.And | cmd/grammar-coverage/classify.go:438-443 | The wordwise and is the intersection of the two sets. |
| Masks.Or | cmd/grammar-coverage/classify.go:445-450 | The wordwise or is the union. |
| Masks.AndNot | cmd/grammar-coverage/classify.go:452-458 | The wordwise and-not is the difference. |
| Masks.SubsetOf | cmd/grammar-coverage/classify.go:460-467 | The wordwise test holds exactly if one set lies in the other. |
| Masks.IsZero | cmd/grammar-coverage/classify.go:469-476 | All words are zero exactly if the set is empty. |
| Masks.Count | cmd/grammar-coverage/classify.go:478-484 | The sum of the words' population counts is the size of the set. |
| Masks.OneBit | cmd/grammar-coverage/classify.go:521-527 | The word and shift of a bit position give the one-element set. |
| Masks.LessTotal | cmd/grammar-coverage/classify.go:486-497 | `less` is a strict order in which any two different masks compare. |
| Masks.LessTransitive | cmd/grammar-coverage/classify.go:486-497 | `less` is transitive. |
| Masks.SubsetLess | cmd/grammar-coverage/classify.go:486-497 | `less` extends strict inclusion, so a superset is always met after its subsets. |
| Masks.LessMeaning | cmd/grammar-coverage/classify.go:486-497 | Fewer literals come first; among equally many, the mask whose first differing word is smaller. |
| PathSets.SortIsUnique | cmd/grammar-coverage/classify.go:399-400 | Sorting by `less` has one outcome, so the unspecified sort algorithm does not show. |
| PathSets.Prune | cmd/grammar-coverage/classify.go:399-418 | The pruning loops compute `Pruned`, whose meaning the next rows give. |
| PathSets.MinimalExact | cmd/grammar-coverage/classify.go:396-401 | Without the cap, pruning keeps exactly the inclusion-minimal sets of its input. |
| PathSets.PruneIsCheapestAntichain | cmd/grammar-coverage/classify.go:399-418 | The result is a sorted antichain of at most `maxPaths` members, and under the cap it is the cheapest prefix of the minimal sets. |
| PathSets.PruneKeepsCover | cmd/grammar-coverage/classify.go:396-418 | Below the cap, pruning keeps the upward closure; above it, it still keeps it for the empty and for the full literal set. |
| PathSets.PruneExactIff | cmd/grammar-coverage/classify.go:250-253 | Pruning keeps the upward closure for every literal set if and only if the minimal sets fit the cap. |
| PathSets.NoZeroAmongMany | cmd/grammar-coverage/classify.go:97-101 | In an antichain of several sets none is empty, so testing the first set decides literal-freedom. |
| PathSets.Combine | cmd/grammar-coverage/classify.go:386-394 | The nested loops compute `Combined`. |
| PathSets.CombineIntersects | cmd/grammar-coverage/classify.go:384-394 | The closure of a combination is the intersection of its arguments' closures (below the cap, and always for the empty and full sets). |
| PathSets.CombinedPair | cmd/grammar-coverage/classify.go:386-394 | Every set of a combination is the union of one set from each side. |
| PathSets.Intersect | cmd/grammar-coverage/classify.go:420-430 | The result holds exactly the literals common to all path sets; nothing for no path set. |
| Paths.KeySound | cmd/grammar-coverage/classify.go:301-355 | Every mask returned, whatever is being expanded and cap or not, is the literal set of a finite derivation. |
| Paths.PumpKey | cmd/grammar-coverage/classify.go:309-314 | Cutting recursion loses nothing: if a derivation over the allowed literals is not covered, some production being expanded has a strictly smaller one over them. |
| Paths.PathsExact | cmd/grammar-coverage/classify.go:301-355 | For every grammar, mutually recursive ones included, in which no intermediate set reaches the cap, a literal set covers some path of a top-level call if and only if some finite derivation uses only those literals. For the empty and the full literal set this holds despite the cap. |
| Paths.CoveredIsDerivable | cmd/grammar-coverage/classify.go:301-355 | One direction needs no hypothesis: what covers a returned path admits a derivation. |
| Paths.EmptyMeansUnderivable | cmd/grammar-coverage/classify.go:91-96 | No path is returned if and only if the production has no finite derivation, cap or not. |
| Paths.ZeroMeansLiteralFree | cmd/grammar-coverage/classify.go:97-101 | The first path is empty if and only if some derivation uses no literal, cap or not. |
| Paths.PathsSorted | cmd/grammar-coverage/classify.go:301-303 | Every result is a sorted antichain within the cap. |
| Paths.LiteralFreeIsExact | cmd/grammar-coverage/classify.go:97-101 | Whatever the cap dropped, a production with a literal-free derivation is analysed exactly: every literal set covers a path and admits a derivation. |
| Paths.CapLosesDerivation | cmd/grammar-coverage/classify.go:250-253 | In every grammar, where more than `maxPaths` derivations of a production have different needs, none of which strictly contains another derivation's, the literals of one of them cover no returned path. So exactness for every literal set implies at most `maxPaths` minimal needs. |
| Paths.CapLosesPaths | cmd/grammar-coverage/classify.go:250-253 | An instance: a production whose body is a flat alternation of more than `maxPaths` distinct table literals has a derivation no returned path covers. |
| Paths.CheapestIsFirst | cmd/grammar-coverage/classify.go:250-253 | In every grammar in which no intermediate set reaches the cap the first path is the cheapest: no derivation needs fewer literals, and one needs exactly these. |
| Paths.CapLosesCheapest | cmd/grammar-coverage/classify.go:250-253 | Past the cap that the cheapest sets are kept is true of one pruning and not of the analysis: where one of more than `maxPaths` literals is chosen and a certain one of them, which the lemma names, follows, choosing that one is the only minimal need, a single literal, and every path needs another literal besides. |
| Analysis.Analyzer.constructor | cmd/grammar-coverage/classify.go:274-281 | A new analyzer has an empty memo and nothing active. |
| Analysis.Analyzer.Paths | cmd/grammar-coverage/classify.go:304-323 | Memoisation is transparent and the recursion terminates: in every reachable state the call returns what the memo-free analysis returns for the productions being expanded, restores `active`, raises `cuts` exactly if a cycle is reachable, and caches the production exactly if none is. |
| Analysis.Analyzer.ExprPathsOf | cmd/grammar-coverage/classify.go:326-355 | The same for one body expression. |
| Analysis.KeyPathsIndependent | cmd/grammar-coverage/classify.go:304-355 | A production from which required calls unfold to a bounded depth has the same paths under any two sets of productions being expanded above it. |
| Analysis.ReachedIndependent | cmd/grammar-coverage/classify.go:315-321 | A production cached in the middle of another's expansion gets the value a fresh analyzer would compute. |
| Analysis.EnterBody | cmd/grammar-coverage/classify.go:315-317 | Entering a body keeps every active production above all acyclic ones the body mentions. |
| Analysis.ItemsAcyclic | cmd/grammar-coverage/classify.go:341-352 | A sequence or an alternation is acyclic exactly if all its items are. |
| Analysis.CallAcyclic | cmd/grammar-coverage/classify.go:330-336 | A call is acyclic exactly if the production it resolves to is. |
| Classify.Names | cmd/grammar-coverage/classify.go:541-549 | The listed names are exactly the literals of the mask, in table order. |
| Classify.MaskOf | cmd/grammar-coverage/classify.go:530-538 | The mask holds exactly the table's literals that are present. |
| Classify.BuildIndex | cmd/grammar-coverage/corpus.go:129-132 | The corpus mask is the union of the file masks, each the literals found in that file. |
| Classify.Closest | cmd/grammar-coverage/classify.go:371-382 | The chosen path is the first with the fewest literals absent from the corpus, and the missing mask is what it lacks. |
| Classify.FirstEvidence | cmd/grammar-coverage/classify.go:103-119 | The indexes of the first file, in search order, that holds all literals of some path, and of the first path it holds; none exactly if no file holds one. |
| Classify.ClassifyProduction | cmd/grammar-coverage/classify.go:72-140 | The row gives bucket, reason, file, and the literals, in table order, of the first path the first file holds, or of the first path nearest to the corpus with what it lacks. |
| Classify.VerdictDetermined | cmd/grammar-coverage/classify.go:89-140 | The path sets and the index leave no choice: two rows that meet what `ClassifyProduction` promises of them are equal. |
| Classify.PathIsDerivation | cmd/grammar-coverage/classify.go:89-91 | Each path's names are the literals of a finite derivation. |
| Classify.DerivableByLiterals | cmd/grammar-coverage/classify.go:255-257 | Where the table covers the grammar, literal sets and masks derive the same. |
| Classify.VerdictSound | cmd/grammar-coverage/classify.go:92-101 | "Undecidable" means that there is no finite derivation, "literal free" that some derivation uses no literal, a row is in the indistinguishable bucket exactly in these two cases, and evidence cites a file that contains all literals of a derivation. |
| Classify.EvidenceExact | cmd/grammar-coverage/classify.go:103-119 | Below the cap, a production is in the evidence bucket if and only if it is not literal free and some file's literals admit a derivation. |
| Classify.EvidenceIsFirst | cmd/grammar-coverage/classify.go:103-119 | Below the cap, the file cited is the first one that admits a derivation, and the literals listed, in table order, are those of a derivation it admits that uses as few literals as any it admits. |
| Classify.NoEvidenceMeaning | cmd/grammar-coverage/classify.go:121-130 | Without evidence no file is cited, the required literals, in table order, are those of a real derivation, the missing ones are those of them absent from the corpus, and the reason is that none is missing or that some are; below the cap no derivation misses fewer. |
| Classify.ClosestIsCheapest | cmd/grammar-coverage/classify.go:371-382 | Below the cap, of all derivations with as few literals missing, the one reported uses the fewest. |
| Classify.CoreIsCommon | cmd/grammar-coverage/classify.go:202-206 | Below the cap, the common core of the paths is what every derivation uses. |
| Resolution.NewLitTable | cmd/grammar-coverage/classify.go:505-518 | Too many literals are refused; otherwise each gets its own bit, in order. |
| Resolution.NewRules | cmd/grammar-coverage/classify.go:271-299 | The rules hold exactly the files' productions. Each file's chain starts with the name of the last file that declares the grammar it extends, each further entry stands so to its predecessor, and the chain ends where no file declares the grammar or the grammar is met again. All is said of the files alone. |
| Resolution.InheritsOnce | cmd/grammar-coverage/classify.go:289-298 | At most one chain meets that description. |
| Resolution.AncestorsMeaning | cmd/grammar-coverage/classify.go:292-296 | The chain follows the `with` clauses, repeats no grammar and stops at a cycle. |
| Resolution.IndexedAll | cmd/grammar-coverage/classify.go:286-291 | Nothing is lost or invented by the nested indexing loops. |
| Resolution.LookupMeaning | cmd/grammar-coverage/classify.go:286-299 | In the rules built from some files, a name used in a grammar is the grammar's own rule if a file declares one, whatever it inherits; otherwise that of the nearest grammar up the chain just described for which a file declares one; otherwise nothing. |
| Resolution.NearestInherited | cmd/grammar-coverage/classify.go:363-368 | Along a chain, the first grammar that has the rule provides it; if none has it, the name is unresolved. |
| Resolution.KeyTextInjective | cmd/grammar-coverage/classify.go:305-305 | Joining grammar and rule name with `::` identifies the pair when rule names have no colon, so the memo's string keys are the model's pairs. |
| XtextParser.GrammarParser.ParseAlternation | cmd/grammar-coverage/xtext.go:321-338 | Refines `Alternation`: result, final position and error are a function of the tokens. |
| XtextParser.GrammarParser.ParseSequence | cmd/grammar-coverage/xtext.go:340-362 | Refines `Sequence`; actions are dropped, an empty sequence is the reference `empty`, one item stands for itself. |
| XtextParser.GrammarParser.ParseElement | cmd/grammar-coverage/xtext.go:364-379 | Refines `Element`, of which `ParsesWhatIsSpelled` says what it accepts and returns; every success consumes input. |
| XtextParser.GrammarParser.ParsePrimary | cmd/grammar-coverage/xtext.go:381-421 | Refines `Primary`: predicates, groups, actions, cross-references, assignments and calls. |
| XtextParser.GrammarParser.SkipQualifiedName | cmd/grammar-coverage/xtext.go:270-288 | Refines `QualifiedName`. |
| XtextParser.GrammarParser.SkipBalanced | cmd/grammar-coverage/xtext.go:290-307 | Refines `Balanced`, with its error at the end of input. |
| XtextSpelling.ParsesWhatIsSpelled | cmd/grammar-coverage/xtext.go:321-421 | For any tokens, expression and end: the parser accepts a body up to there with that expression if and only if the tokens spell it. Spellings are given by a grammar on token signs: the cardinalities `?`, `*` and `+` in any number, the assignments `f=`, `f+=` and `f?=`, the predicates `=>` and `->`, groups, actions and cross-references with balanced brackets, qualified names. |
| XtextSpelling.BodyError | cmd/grammar-coverage/xtext.go:321-421 | A rejected body's error names what was expected, and the line and text of a token at or behind the body's start that is the reason. |
| XtextPrinter.ParseInvertsPrint | cmd/grammar-coverage/xtext.go:321-421 | Parsing the printed tokens of any expression whose sequences and alternatives have at least two items, before a token that ends a body, returns that expression and consumes exactly those tokens. |
| XtextPrinter.AlternationShaped | cmd/grammar-coverage/xtext.go:321-362 | Whatever is parsed, sequences and alternatives of the result have at least two items and none is an action. |
| XtextPrinter.ReparseIsStable | cmd/grammar-coverage/xtext.go:321-421 | Printing what was parsed and parsing it again gives the same expression. |
| Utf.DecodeEncode | internal/lsp/posmap.go:88-96 | Decoding undoes the encoding of section 3 of RFC 3629 at every place of a text. |
| Utf.DecodesWhatIsEncoded | internal/lsp/posmap.go:88-96 | The decoder takes a character exactly where the encoding of one stands; anything else is one ill-formed byte. |
| Utf.Encode16Meaning | internal/lsp/posmap.go:98-105 | A character has one UTF-16 unit, itself, or a high and a low surrogate from which it is computed. |
| Utf.NewlineAlone | internal/lsp/posmap.go:21-28 | A newline byte is never part of a longer rune, so searching bytes for newlines is searching runes. |
| Positions.OffsetToPosition | internal/lsp/posmap.go:12-31 | The loop finds the line and the UTF-16 column of the offset, clipped to the text. |
| Positions.PositionToOffset | internal/lsp/posmap.go:33-55 | The two loops compute `OffsetOf`. |
| Positions.Utf16Len | internal/lsp/posmap.go:87-96 | The number of UTF-16 units of the decoded runes, an invalid byte counting one. |
| Positions.SpanToRange | internal/lsp/posmap.go:57-63 | Both ends of the span are mapped. |
| Positions.RangeToSpan | internal/lsp/posmap.go:65-73 | Both ends of the range are mapped; a reversed range is empty at its start. |
| Positions.OffsetMeaning | internal/lsp/posmap.go:33-55 | The offset found is the first rune boundary of the line at or past the column; a column past the line's end gives that end, a line past the text its end. |
| Positions.OffsetRoundTrip | internal/lsp/posmap.go:12-55 | At every rune boundary, invalid bytes included, mapping to a position and back gives the offset, if and only if its line number and the units before its last rune fit 32 bits. |
| Positions.PositionRoundTrip | internal/lsp/posmap.go:12-55 | Conversely, a position that some rune boundary has is given back. |
| SemanticTokens.LineCursor.constructor | internal/lsp/semantictokens.go:93-98 | A cursor starts at the beginning of its text. |
| SemanticTokens.LineCursor.PositionAt | internal/lsp/semantictokens.go:100-122 | From every reachable cursor state and for queries in any order, the answer is the position of the least rune boundary at or after the clipped offset. |
| SemanticTokens.NextIsLeast | internal/lsp/semantictokens.go:107-120 | The boundary the cursor stops at is the least one at or after the offset. |
| SemanticTokens.CursorRefinesMap | internal/lsp/semantictokens.go:100-102 | At a rune boundary the cursor stops exactly there, so its answer is that of `offsetToPosition`. |
| SemanticTokens.StepPosition | internal/lsp/semantictokens.go:112-119 | One rune further is one line further after a newline, otherwise as many columns as the rune has UTF-16 units. |
| SemanticTokens.SplitLines | internal/lsp/semantictokens.go:124-147 | The loop cuts a span into the pieces `SplitSpan` gives. |
| SemanticTokens.PiecesCover | internal/lsp/semantictokens.go:124-147 | A byte of the span lies in a piece exactly if it is neither a newline nor the carriage return that ends a piece. |
| SemanticTokens.PiecesInside | internal/lsp/semantictokens.go:124-147 | Pieces are non-empty, in order, apart, inside the span and free of newlines. |
| SemanticTokens.SplitSpanMeaning | internal/lsp/semantictokens.go:124-147 | A span that is empty or leaves the text has no pieces; the pieces of any other are in order and apart, and hold exactly its bytes that end no line. |
| SemanticTokens.PiecesOnBoundaries | internal/lsp/semantictokens.go:70-77 | Pieces of a span that starts on a rune boundary do so too, so the cursor's position is theirs. |
| SemanticTokens.EncodeTokens | internal/lsp/semantictokens.go:68-89 | The loops emit, token after token and part after part, five numbers for each part: by the first two, added in 32 bits to the line and column of the part before, the position of the first character boundary at or after its start, then the UTF-16 length of its bytes, the token's class, clamped, and its modifiers. |
| SemanticTokens.DecodeEncoded | internal/lsp/semantictokens.go:79-86 | Undoing 32-bit relative positions recovers every piece: line, column, length, class and modifiers. |
| SemanticTokens.PlainDecodeEncoded | internal/lsp/semantictokens.go:79-86 | Adding the deltas without wrap-around, as the "Semantic Tokens" section of LSP 3.17 has clients do, recovers the pieces if and only if they are in document order. |
| SemanticTokens.CursorExactly | internal/lsp/semantictokens.go:91-122 | For any offset the cursor answers what `offsetToPosition` answers if and only if the offset is a character boundary, or lies as many bytes into its character as that has UTF-16 units, or beyond the columns 32 bits tell apart. |
| SemanticTokens.TokensRecovered | internal/lsp/semantictokens.go:68-89 | For any tokens the decoded pieces are the tokens' pieces. A piece is at the position `offsetToPosition` gives its start if and only if the condition of `CursorExactly` holds there; it does for all pieces of a token whose span starts on a character boundary, and for all but the first of any token. |
| SemanticTokens.InsideCharacter | internal/lsp/semantictokens.go:68-89 | A token for which it does not: one that starts on the last byte of a three-byte character, encoded at column 1 where `offsetToPosition` gives 2. |
| SemanticTokens.SequentialTokensInOrder | internal/lsp/semantictokens.go:68-89 | In a text whose line numbers fit 32 bits, tokens that follow one another yield pieces in document order, so even clients that add without wrap-around recover them. |
| TextSync.ApplyRawContentChange | internal/lsp/handler.go:69-90 | The splice computes `Applied`, and stays inside the text for every range. |
| TextSync.ApplyDidChange | internal/lsp/handler.go:55-63 | The loop folds the changes, each against the text the previous one left. |
| TextSync.ServerReads | internal/lsp/posmap.go:33-55 | On a UTF-8 text the server resolves a position to the byte offset of the scalar that line and column reach. |
| TextSync.AgreeExactly | internal/lsp/posmap.go:35-55 | For any document and any position: server and client read it alike if and only if the client's offset is not inside a surrogate pair and, where no line above ends in a lone carriage return, the column does not run past a carriage return, or, where one does, the client's offset is the end of the text. |
| TextSync.AgreeEverywhere | internal/lsp/posmap.go:35-55 | Server and client read every position on a scalar alike if and only if the text has no carriage return. |
| TextSync.CRDisagrees | internal/lsp/posmap.go:35-55 | The first carriage return of a text is a place where they differ. |
| TextSync.ChangeRefines | internal/lsp/handler.go:69-90 | One change whose range ends are read alike, in any document, keeps the server's bytes the UTF-8 form and the client's units the UTF-16 form of one document. |
| TextSync.RunRefines | internal/lsp/handler.go:55-90 | Over any run of full and incremental changes whose range ends are read alike when they are applied, lone carriage returns or not, the server's bytes remain the UTF-8 form, and the client's units the UTF-16 form, of one document. |
| TextEdits.ApplyEdits | internal/repl/merge.go:436-465 | The loop computes `Rewrite` and `OwnSpans` of the edits sorted by start. |
| TextEdits.SortIsStable | internal/repl/merge.go:441-441 | The sort orders by start, loses no edit and keeps edits at one start in their order. |
| TextEdits.EditsWeave | internal/repl/merge.go:436-465 | For edits in range whose replacements do not overlap, the result is the source without the replaced ranges, in order, with every edit text woven in once, insertions inside replaced ranges included. |
| TextEdits.AnyEditsWeave | internal/repl/merge.go:436-465 | For any edits: which take effect, namely those that stay in the text and replace nothing replaced before; the result weaves just these in, and their own spans are the ones reported. |
| TextEdits.OwnSpansLand | internal/repl/merge.go:455-457 | Each reported span slices the result to its own edit's text. |
| NamespaceMerge.MergeEdits | internal/repl/merge.go:250-319 | The recursive loop emits exactly the edits and replaced names of the merge of the two member trees. |
| NamespaceMerge.FindNamed | internal/repl/merge.go:379-389 | The first member with the name, or none. |
| NamespaceMerge.EditsRealiseMerge | internal/repl/merge.go:254-319 | Applying the edits to a text that contains the old body gives that text with the merged body in its place. |
| NamespaceMerge.BodyEditsBetween | internal/repl/merge.go:254-319 | The edits of a body stay inside it and are emitted in order, nested ones included. |
| NamespaceMerge.GoneMeaning | internal/repl/merge.go:288-290 | The names reported are, in the order of the old text and at every level, those of the members the submission redeclares without merging them, inside namespaces that are merged. |
| NamespaceMerge.EditsOwn | internal/repl/merge.go:288-316 | An edit is the submission's own exactly if it writes text, and then it replaces none; the others are as many as the names reported. |
| MergeOrder.MergedInOrder | internal/repl/merge.go:254-316 | A merged body holds, in this order, the old members that remain, in theirs, and the new ones that are added, in theirs. Who remains, who is merged with which redeclaration and who is added is said of the two bodies alone. |
| MergeLaws.MergeMeaning | internal/repl/merge.go:250-319 | When no body repeats a name, the merge of the trees is, apart from the order of named members, the merge of contents: union of names, same-header non-empty namespaces merged recursively, otherwise the new member wins, unnamed texts added once. |
| MergeLaws.NamesAreUnited | internal/repl/merge.go:254-319 | Names repeated or not: a name stands in the merged body if and only if it stands in either side, as often as the submission declares it, or as the buffer does if the submission does not. |
| MergeBags.MergingTwiceExactly | internal/repl/merge.go:250-319 | For all bodies, names repeated or not: merging a submission a second time leaves the same members, up to order at every level, if and only if `Loses` fails, a condition on the buffer and the submission: some old namespace folds into a name the submission declares more than once and has members it does not absorb, or into one declared once and loses something there. |
| MergeBags.AbsorbedMeaning | internal/repl/merge.go:250-319 | A merge leaves just the typed members, up to order, if and only if the old ones are absorbed: unnamed texts occur as often as typed, names are redeclared, and what folds is absorbed in turn. |
| MergeBags.SelfMergeBag | internal/repl/merge.go:276-283 | A body merged with itself is, up to order, itself, repeated names and all. |
| MergeLaws.ProperLosesNothing | internal/repl/merge.go:271-273 | A submission that repeats no name at any level loses nothing, whatever names the buffer repeats. |
| MergeLaws.MergingTwiceIsMergingOnce | internal/repl/merge.go:250-319 | Submitting twice a body that repeats no name leaves, up to the order of members, what submitting it once leaves, whatever names the buffer repeats; where the buffer repeats none either, the contents under each name are equal too. |
| MergeLaws.MergeIsIdempotent | internal/repl/merge.go:250-319 | The same on contents, at every level. |
| MergeLaws.SelfMerge | internal/repl/merge.go:276-283 | A body merged with itself is unchanged. |
| MergeLaws.MergeStaysProper | internal/repl/merge.go:254-319 | A merged body again repeats no name at any level. |
| MergeLaws.RedeclaredStandsAsTyped | internal/repl/merge.go:285-290 | A redeclared member that is not folded stands as typed, and nothing else keeps its name. |
| MergeLaws.UntouchedStay | internal/repl/merge.go:262-270 | Old members not redeclared stay whole and in order, whatever names repeat. |
| MergeLaws.RepeatedNameLosesMember | internal/repl/merge.go:271-273 | The condition of `MergeBags.MergingTwiceExactly` occurs: a submission that declares one name twice, and the old member that the second merge drops. |
| ElementWalk.Walk.WalkScope | internal/grpc/query.go:215-228 | From any state of the walk, cycles included, a call terminates, marks only reachable nodes, closes them under what they declare, and lists their identifiable symbols in declaration order. |
| ElementWalk.Walk.Visit | internal/grpc/query.go:230-242 | The same for a symbol, listed before what it declares. |
| ElementWalk.Walk.Members | internal/grpc/query.go:270-280 | The same for what a symbol declares, through its scope or the index. |
| ElementWalk.WalkExact | internal/grpc/query.go:207-242 | A closed set of reachable marks is exactly what the root reaches. |
| ElementWalk.StepsMeaning | internal/grpc/query.go:215-280 | The steps of the walk, read off the model: from a scope to its named and anonymous members and its child scopes, from a symbol to the scope it owns, or, if it owns none, to what the index lists under its qualified name. |
| ElementWalk.DeclarationOrder | internal/grpc/query.go:219-228 | Declaration order is named members, then anonymous ones, then child scopes, each in the order of its list. |
| ElementWalk.ListableMeaning | internal/grpc/query.go:244-268 | An element is listed exactly if it has a qualified name, no `::` stands at the name's start, at its end or directly behind another, and the index finds the element by it. |
| QualifiedNames.SegmentsJoin | internal/grpc/query.go:262-262 | Cutting a name at `::` gives segments that hold no `::` and join to the name. |
| QualifiedNames.IdentityMeaning | internal/grpc/query.go:255-268 | A qualified name identifies an element exactly if it is not empty and no separator stands at its start, at its end or directly behind another. |
| ElementWalk.Collect | internal/grpc/query.go:199-205 | The listing is duplicate free, holds exactly the identifiable symbols reachable from the scope, and is in declaration order. |
| ElementWalk.Nested | internal/grpc/query.go:191-197 | The same below an element, that element excluded. |
| ElementWalk.QueryCandidates | internal/grpc/query.go:154-189 | An unknown scope name is reported, the first one; otherwise the candidates are gathered root after root, each followed by what is new below it. |
| ElementWalk.CandidatesMeaning | internal/grpc/query.go:154-189 | The candidates are the duplicate-free union over everything the scope names select. |
| ElementWalk.CandidatesInOrder | internal/grpc/query.go:154-189 | They come in the order of first occurrence when the selected elements are written down one after the other, each followed by what is listed below it. |
| ElementWalk.ReachableTransitive | internal/grpc/query.go:174-177 | What is below an element already listed is already listed, so skipping it loses nothing. |
| Diagnostics.Group | cmd/pilot-diff/report.go:184-190 | The map the loop builds is `Grouped`. |
| Diagnostics.GroupedMeaning | cmd/pilot-diff/report.go:184-190 | A group holds exactly the diagnostics with its key, in order, and none is empty. |
| Diagnostics.GroupMembers | cmd/pilot-diff/report.go:184-190 | A diagnostic is in a group exactly if it is one of the file's and has the group's line, severity and category. |
| Diagnostics.SortedKeys | cmd/pilot-diff/report.go:192-213 | Whatever order the maps yield their keys in, the result holds each key once, by ascending line, then severity, then category. |
| Diagnostics.KeyOrder | cmd/pilot-diff/report.go:203-211 | The comparison is a strict total order, so the sort has one outcome. |
| Diagnostics.KeyLessMeaning | cmd/pilot-diff/report.go:203-211 | It compares lines, then severities, then categories, texts by their first differing character. |
| TwoWay.CompareFile | cmd/pilot-diff/report.go:114-171 | The two passes and the leftover loops compute `Compared`. |
| TwoWay.FirstLoop | cmd/pilot-diff/report.go:124-136 | The first loop is the pass over equal keys. |
| TwoWay.SecondLoop | cmd/pilot-diff/report.go:138-158 | The nested loop, which rewrites both maps as it goes, is the pass over equal places. |
| TwoWayLaws.NothingLost | cmd/pilot-diff/report.go:114-171 | Under each key each side's diagnostics are, in order, those agreed on, those mismatched in severity and those left, and as many agree as both sides have. |
| TwoWayLaws.OneSideLeft | cmd/pilot-diff/report.go:138-158 | No line and category has leftovers on both sides. |
| TwoWayLaws.ReportWellFormed | cmd/pilot-diff/report.go:121-170 | Every entry counts the diagnostics it lists, all with its key; mismatches differ in severity; each list of one key's entries is in report order. |
| TwoWayPairing.PairingIsGreedy | cmd/pilot-diff/report.go:138-158 | Severity mismatches come by our key, then theirs, each pair once, and a pair of severities at one place counts as much as both sides have left when all earlier pairs of the two keys are taken. |
| TwoWayTotals.MatchingIsMaximum | cmd/pilot-diff/report.go:114-158 | For every line and category, agreement and mismatch together are the smaller side's count. |
| TwoWayTotals.AgreementIsExact | cmd/pilot-diff/report.go:124-129 | For every key the agreement is the smaller side's count. |
| TwoWayTotals.NoBetterReport | cmd/pilot-diff/report.go:114-158 | No report that accounts for the same diagnostics agrees on more under any key or pairs more at any place. |
| TwoWayTotals.SidesSum | cmd/pilot-diff/report.go:88-103 | Each side's counts sum to its number of diagnostics. |
| TwoWayTotals.FullAgreementMeaning | cmd/pilot-diff/report.go:104-106 | A file counts as fully agreeing if and only if the two key multisets are equal. |
| TwoWayTotals.SilenceMeaning | cmd/pilot-diff/report.go:107-109 | A file is left out of the report if and only if both sides are silent on it. |
| TwoWayTotals.CompareRoot | cmd/pilot-diff/report.go:85-112 | The totals and the kept reports are those of the files, one after the other. |
| TwoWayTotals.KeptMeaning | cmd/pilot-diff/report.go:85-112 | The reports kept are those of the files some side reports on, in the files' order. |
| TwoWayTotals.RootBalances | cmd/pilot-diff/report.go:85-112 | A root's totals balance on both sides and count the fully agreeing files. |
| ThreeWay.Take | cmd/pilot-diff/syside.go:284-293 | The first part of the group and what remains; the whole group if it is too short. |
| ThreeWay.CompareKey | cmd/pilot-diff/syside.go:245-263 | One key: the calls of `take` cut each group into consecutive parts, one for each label naming the side; labels that count nothing are not recorded. |
| ThreeWay.CompareSysideFile | cmd/pilot-diff/syside.go:237-266 | The loop computes the partition key by key. |
| ThreeWay.NothingLost3 | cmd/pilot-diff/syside.go:237-266 | Under each key, each side's diagnostics are, in order, those of the entries. |
| ThreeWay.LabelsAreExact | cmd/pilot-diff/syside.go:244-263 | Each label counts its share: all three the least count, a pair what the two have beyond it, one alone what it has beyond the larger of the others. |
| ThreeWay.PartitionWellFormed | cmd/pilot-diff/syside.go:237-266 | Entries come by key and, under a key, by label; each counts something and holds that many diagnostics of each side its label names and none of the others. |
| ThreeWay.OnePairAtMost | cmd/pilot-diff/syside.go:250-259 | Under a key at most one pair label is non-zero. |
| ThreeWay.Conserved3 | cmd/pilot-diff/syside.go:29-43 | For any choice of keys, the labels naming a side sum to that side's diagnostics there. |
| ThreeWay.PartitionsAgree | cmd/pilot-diff/syside.go:29-31 | For any choice of keys, two-way agreement is all-three plus ours-and-pilot-only. |
| ThreeWayTotals.SysideTotals.Add | cmd/pilot-diff/syside.go:209-235 | Each field grows by its label's count, and the agreeing files by one exactly if every entry is an all-three one. |
| ThreeWayTotals.SysideTotals.AddRoot | cmd/pilot-diff/syside.go:196-207 | Fieldwise sum. |
| ThreeWayTotals.TallyRoot | cmd/pilot-diff/syside.go:167-178 | The loop over a root's files leaves their tally. |
| ThreeWayTotals.SumOfRoots | cmd/pilot-diff/syside.go:196-207 | Adding roots adds what their files give: the tallies of two lists of files sum to that of both together. |
| ThreeWayTotals.ThreeAgreeMeaning | cmd/pilot-diff/syside.go:228-234 | A file counts as agreed by all three if and only if the three key multisets are equal. |
| ThreeWayTotals.TalliesAgree | cmd/pilot-diff/syside.go:165-179 | Over a root the tally balances for each of the three sides, its shares make up the two-way agreement, and its agreeing files are among the two-way ones. |
| IndexPool.IndexPool.constructor | internal/grpc/libindex.go:80-88 | A negative size is zero; the pool starts empty and aims at nothing. |
| IndexPool.IndexPool.FillLocked | internal/grpc/libindex.go:145-157 | A build is started exactly if the pool is open, short and none is in flight. |
| IndexPool.IndexPool.Prewarm | internal/grpc/libindex.go:109-117 | Aims at the full size and fills. |
| IndexPool.IndexPool.Take | internal/grpc/libindex.go:119-133 | The newest ready index, or none; the statistics say which; then fills. |
| IndexPool.IndexPool.CountInline | internal/grpc/libindex.go:138-142 | An inline build is counted. |
| IndexPool.IndexPool.FillOne | internal/grpc/libindex.go:159-174 | A finished build is counted and kept, or dropped by a closed or full pool; only a kept one fills again. |
| IndexPool.IndexPool.BeginClose | internal/grpc/libindex.go:192-195 | The pool is marked closed. |
| IndexPool.IndexPool.EndClose | internal/grpc/libindex.go:199-201 | The ready indexes are released. |
| IndexPoolRuns.RunIsSafe | internal/grpc/libindex.go:112-202 | The invariant survives every interleaving of callers, builders and closers. |
| IndexPoolRuns.PoolIsSafe | internal/grpc/libindex.go:112-202 | In every reachable state at most one build is in flight, ready never exceeds the size, an open pool short of its target has a build in flight, and after a returned close nothing is ready. |
| IndexPoolRuns.PrewarmedRefills | internal/grpc/libindex.go:112-117 | After any run that prewarms the pool, an open pool with fewer ready indexes than its size has exactly one builder at work; before that no builder has been started. |
| IndexPoolRuns.NewestFirst | internal/grpc/libindex.go:119-133 | In any reachable state a get is handed the ready index that was built last, and only that one leaves the pool; when none is ready it is to build its own. |
| IndexPoolRuns.StatsCount | internal/grpc/libindex.go:119-174 | After any run the statistics say how many gets the pool served, how many build for themselves, and how many builds were finished. |
| IndexPoolRuns.StepMoves | internal/grpc/libindex.go:119-174 | Every step moves an index or adds the one it builds. |
| IndexPoolRuns.StepAccounts | internal/grpc/libindex.go:51-58 | Every index built is always in exactly one place: ready, with a builder, with a caller, or released. |
| IndexPoolRuns.NoIndexIsShared | internal/grpc/libindex.go:53-56 | No index goes to two callers, and one a caller has is no longer in the pool. |
| IndexPoolRuns.StepIsSafe | internal/grpc/libindex.go:112-174 | Each atomic step keeps the bounds, the build in flight, the statistics and that nothing is released before close. |
| IndexPoolRuns.DropsOnlyAfterClose | internal/grpc/libindex.go:169-171 | A background build is dropped if and only if the pool closed while it ran; the size check never fires. |
| IndexPoolRuns.StaysGone | internal/grpc/libindex.go:190-198 | Once the pool is closed and the wait group is empty, no step starts a builder. |
| IndexPoolRuns.ClosedForGood | internal/grpc/libindex.go:190-202 | After a close has returned, no run makes an index ready, and every get builds inline. |
| IndexPoolRuns.ClosedPoolWinds | internal/grpc/libindex.go:190-197 | In a closed pool each builder step leaves less to do and no other step adds any. |
| IndexPoolRuns.WaitIsNotStuck | internal/grpc/libindex.go:197-197 | While close waits, some builder can move. |
| LruCache.Cache.constructor | internal/grpc/cache.go:56-60 | A new cache is empty, within its capacity. |
| LruCache.Cache.New | internal/grpc/cache.go:50-61 | A size that is not positive is refused. |
| LruCache.Cache.Get | internal/grpc/cache.go:63-76 | A hit returns the value and moves its entry to the front; a miss changes nothing; map and list stay in bijection within the capacity. |
| LruCache.Cache.Put | internal/grpc/cache.go:78-103 | A known key is overwritten and moved to the front; a new one evicts the last entry of a full cache. |
| LruRuns.HitReturnsLastPut | internal/grpc/cache.go:63-103 | After any sequence of operations a hit returns the value last put under its key. |
| LruRuns.Request | internal/grpc/service.go:213-254 | Get, then put on a miss: what is served and what the cache then holds. |
| LruRuns.HoldsMostRecent | internal/grpc/cache.go:37-43 | After any requests the cache holds exactly the most recently requested distinct keys, as many as fit, in order of recency. |
| LruRuns.OperationsInclude | internal/grpc/cache.go:63-103 | After any gets and puts, bare gets among them, what a smaller cache holds is a subsequence of what a larger one holds, with the same values. |
| LruRuns.LargerIncludesSmaller | internal/grpc/cache.go:37-43 | After the same requests a larger cache holds whatever a smaller one holds. |
| LruRuns.RecentMeaning | internal/grpc/cache.go:37-43 | "Most recently requested" is meant literally: each requested key once, ordered by its last request. |

## Left out

- The branches of a production (`branches`, `addBranch`, `classifyBranches`), citations and line numbers in the corpus, and how literals are found in a file: they reuse the path sets and search modelled here.
- The sorting and deduplication of literals before `newLitTable`, the scanner, and the parser of grammar headers and production headers: tokens and productions are given.
- Aliasing of slices: `prune` sorts its argument in place and slices of one group share storage; both are modelled on values.
- The wording of error messages and of report examples: entries list the diagnostics themselves.
- Paths.PathsExact: assumes that no intermediate result exceeds the cap, which the code does not guarantee. Without it exactness fails in every grammar with more than `maxPaths` minimal needs (`Paths.CapLosesDerivation`), and can fail with a single one (`Paths.CapLosesCheapest`); the rows for emptiness, literal-freedom and soundness hold regardless.
- TextSync.RunRefines: assumes changes whose range ends server and client read alike; `TextSync.AgreeExactly` says which those are. Left out are positions behind a carriage return at the end of a line, and, below a lone carriage return, all but the end of the text.
- SemanticTokens.SequentialTokensInOrder: assumes at most 2^32 lines; beyond, line numbers are clamped to the same value and their order is lost. `SemanticTokens.TokensRecovered` does without it.
- MergeLaws.NamesAreUnited: assumes of the submission that no member is empty and that a member's text tells whether it declares a name.
- The workspace behind the LSP server, diagnostics publication and its debouncing, JSON-RPC, and the filter of `SemanticTokensRange`.
- Text layout in the REPL merge (`memberCut`, `insertion`, `leadingTrivia`, `memberText`): members are abstract texts in a tree and the added members are inserted without separators; `mergeSubmission` and the descriptions of replaced members are not modelled.
- MergeLaws.MergingTwiceIsMergingOnce: assumes that the submission repeats no name, without which `MergeBags.MergingTwiceExactly` says what holds, that no member is empty, and that a member's text tells whether it declares a name, as parsing makes it.
- MergeBags.MergingTwiceExactly: assumes of both bodies that no member is empty and that a member's text tells whether it declares a name; of the order of members it says nothing.
- Query constraints, projections and property reading; the index behind a query is given as maps.
- Attaching the third column to the two-way report (`attachSyside` after its loop), the table of unmapped messages, running the validators, and the categories of messages.
- The contents of a library index and `indexPoolSizeFromEnv`; locked sections are atomic steps, and the wait group is the number of builders that are not done.
- The locking of the model cache: its operations are atomic, and `LruRuns.HoldsMostRecent` is about requests served one after the other; the lazily built symbol context and the hash behind a key.
