# Models and proofs for the Druid verification scripts

The repository gates its migration from the old physical connection standard to RDBC with
Python scripts under `scripts/`: source scrubbers, delimiter matchers, generated-file
splitters, dependency walks, ledger emitters and their verifiers. This project models the
algorithms of those scripts in Dafny and proves what the gates rely on. Each core script has
its own modules:

| modules | script |
|---|---|
| `RustMasker`, `MaskOffsets`, `Lexing`, `CountedNames`, `IncludeExpansion`, `IncludePattern`, `IncludeSeams`, `GeneratedTargets`, `IncludeWitnesses`, `HelperBodies`, `BraceCounters` | `verify_task6_deleted_test_parity.py` |
| `JavaScrubber`, `ScrubOffsets`, `Lexing` | `generate_jdbc42_semantic_inventory.py` |
| `Delimiters`, `TraitDeclarations` | `verify_no_physical_standard.py` |
| `Ledger`, `LedgerEmitter`, `LedgerRows`, `LedgerVerifier`, `LedgerVerdict`, `LedgerPolicy`, `OrderedMarkers`, `BraceCounters` | `verify_druid_single_standard.py` |
| `Lines`, `GeneratedFiles`, `GreedyPartition`, `TestChunks`, `BraceDepths`, `TopLevelParts`, `MaskCuts`, `PartMasks`, `CommentCuts`, `Splicing`, `NestedRanges`, `GeneratedTargets`, `TargetExpansion` | `migrate_task6_deleted_tests.py` |
| `WorkspaceDag`, `Graphs` | `verify_workspace_dag.py` |
| `DependencyBoundary`, `Graphs` | `verify_rdbc_dependency_boundary.py` |
| `MigrationDocument`, `DocumentOffsets`, `MarkdownTables`, `MarkdownRows`, `TextSearch` | `render_task6_migration_document.py` |
| `SemanticInventory`, `Delimited` | `verify_jdbc42_semantic_inventory.py` |
| `SlowCloseGate` | `measure_pool_slow_close.py` |

`Outcome`, `Seqs`, `Sorting` and `DullText` are shared. Verify everything with
`dafny verify dfyconfig.toml`.

Main results:

- **Scrubbers against grammars.** Both lexers are related to a grammar that names no scanner:
  a source is a unique sequence of whole pieces (code characters, comments, literals). The
  scrubber succeeds exactly on sources that have such a split, every offset of the result
  is determined by the piece it lies in, and a failure names the construct that never
  closes. From that follow equal offsets, no surviving opener and idempotence.
- **Delimiters.** The stack matcher, the context-free grammar of nested delimiters, and
  non-crossing kind-respecting bijections accept the same token sequences, and the two
  one-counter scanners and the trait depth counter agree with it.
- **Bounded splitting.** Both greedy partitioners are optimal among all admissible
  partitions and complete; parts conserve text and balance, and the line charges add up to
  what the writer enforces. A part can be masked on its own exactly when no comment or
  literal straddles a cut.
- **Graph walks.** The two-colour depth-first walk reports a cycle if and only if there is
  one; the worklist, the include expansion and the helper collection reach exactly what is
  reachable, with termination on cyclic inputs.
- **Ledgers.** Every row of an emitted ledger is accounted for with its coordinates, state
  and multiplicity; its identities are the pointwise maximum of the frozen and live ones.
  The verifier is characterized on every ledger, and accepts what the emitter wrote under an
  exact condition.
- **Round trips and gates.** TSV and count-list round trips, a generated target that expands
  to its fragments again, a written document that its own check finds fresh, exact greedy
  marker search, exact percentile budgets.

Findings about the code, each with its exact condition:

- A count list comes back unchanged if and only if no name is empty or contains `;`
  (`CountedNames.RoundTripExactly`).
- A file with a non-literal `include!` is rejected only if it has no literal one anywhere,
  comments and strings included, because that pattern runs on the raw text
  (`IncludeExpansion.RejectsExactly`, `IncludeWitnesses.NonLiteralPasses`).
- The expanded text may spell an include that no file holds
  (`IncludeWitnesses.SeamSpellsInclude`). A text is safe in front of every continuation if
  and only if it does not end in the middle of an include (`IncludeSeams.SealedExactly`);
  when that holds in front of each include and at the end of each file, no include is left
  (`IncludeSeams.NoIncludeLeft`). The targets that the migration script generates meet it
  (`GeneratedTargets.TargetLeavesNoInclude`).
- With a test nested in another one, to any depth, splicing from last to first gives what
  replacing the outermost tests gives if and only if no inner replacement is longer than its
  range (`NestedRanges.NestedRangesExactly`); with longer names, if and only if no tests nest
  (`NestedRanges.SplicedWithoutNesting`). Otherwise text comes out twice
  (`NestedRanges.NestedTestDuplicatesText`). Dropping the ranges brings text back whenever
  tests nest (`NestedRanges.KeptWithoutNesting`).
- `top_level_parts` promises complete items, but at every line limit it may cut inside a
  comment that opens behind an item (`CommentCuts.CutInsideComment`, at the script's own
  limit `CommentCuts.ScriptLimitCuts`); the parts are sources of their own if and only if no
  comment or literal straddles a cut (`PartMasks.SplitPartsMaskAlone`). That can be checked
  before the split (`PartMasks.CleanSplitsMaskAlone`, `PartMasks.CheckIsExact`).
- Whatever the pinned digests are, a frozen row under `core/compat/` that is still live is
  emitted without complaint and then rejected by the verifier
  (`LedgerPolicy.CompatConflictExists`); the exact condition for acceptance is
  `LedgerVerifier.VerifierAcceptsEmitter`, with the scripts' own tables
  `LedgerPolicy.ScriptLedgerAccepted`.
- When the second generated table starts in front of the first one and does not end there,
  the write erases the first table and the next run fails
  (`MarkdownTables.OverlappingDocumentBreaks`, with the exact condition on the document
  before the write in `MarkdownTables.DocumentFreshExactly`).
- The last comparison of the semantic parser rejects exactly the file that holds nothing but
  its header (`SemanticInventory.CanonicalRejectsHeaderOnly`).

Text is a sequence of characters with `\n` as the only line break. The file system, Cargo
metadata, Git blobs and SHA-256 enter as parameters: maps, functions and an arbitrary digest
of an identity multiset.

## Model

| member | source | states |
|---|---|---|
| `RustMasker.MaskNonCode` | scripts/verify_task6_deleted_test_parity.py:324-419 | the loop that blanks the text in place computes the specified masking, or fails with the same unterminated construct (`MaskOffsets` says what that is) |
| `RustMasker.Mask` | scripts/verify_task6_deleted_test_parity.py:324-419 | a successful masking has the length of the source |
| `MaskOffsets.MaskedExactly` | scripts/verify_task6_deleted_test_parity.py:324-419 | masking gives `m` if and only if the source splits into whole grammar pieces and `m` holds, at each offset, the source character in code and lifetimes, and a space or the line break that stands there in comments and literals; that split is unique |
| `MaskOffsets.FailsExactly` | scripts/verify_task6_deleted_test_parity.py:336-418 | masking fails for a reason if and only if whole pieces lead up to a construct of that kind which never closes |
| `RustMasker.MaskKeepsOffsets` | scripts/verify_task6_deleted_test_parity.py:331-334 | every character is the source character at that offset or a space that replaces no line break |
| `RustMasker.MaskKeepsLineBreaks` | scripts/verify_task6_deleted_test_parity.py:331-334 | a line break stands at an offset of the result exactly when it does in the source |
| `RustMasker.MaskLeavesNoOpeners` | scripts/verify_task6_deleted_test_parity.py:336-418 | no double quote and no comment opener survives, and every surviving apostrophe starts a lifetime |
| `RustMasker.MaskIdempotent` | scripts/verify_task6_deleted_test_parity.py:324-419 | masking a masked source succeeds and changes nothing |
| `RustMasker.NextPiece` | scripts/verify_task6_deleted_test_parity.py:336-418 | the branches of one loop turn choose the piece the specification names, in the same order of precedence |
| `RustMasker.SkipBlock` | scripts/verify_task6_deleted_test_parity.py:343-359 | the depth counter ends where the nested block comment ends, or fails when it never does |
| `RustMasker.SkipRaw` | scripts/verify_task6_deleted_test_parity.py:361-372 | the search for the closing fence ends at the first quote followed by enough hashes |
| `RustMasker.SkipQuoted` | scripts/verify_task6_deleted_test_parity.py:374-391 | the escape-aware scan ends behind the closing quote |
| `RustMasker.BlockTextLengths` | scripts/verify_task6_deleted_test_parity.py:343-359 | the nesting counter reads exactly a maximally munched token sequence that closes its last level at its last token, whatever follows |
| `RustMasker.BlockTokensCut` | scripts/verify_task6_deleted_test_parity.py:343-359 | conversely, what the counter reads is such a token sequence |
| `Lexing.QuoteLengthCloses` | scripts/verify_task6_deleted_test_parity.py:374-417 | the escape scanner stops at `k` if and only if the first unescaped quote stands there, with escapedness defined by looking back |
| `JavaScrubber.StripCommentsAndLiterals` | scripts/generate_jdbc42_semantic_inventory.py:64-122 | the five-state machine computes the specified scrub, or fails with the same unterminated construct |
| `JavaScrubber.RunContinues` | scripts/generate_jdbc42_semantic_inventory.py:69-121 | started in any state on any text, the machine contributes what finishing that construct and scrubbing the rest gives |
| `ScrubOffsets.ScrubbedExactly` | scripts/generate_jdbc42_semantic_inventory.py:64-122 | the scrub is `m` if and only if the source splits into grammar segments and `m` holds, at each offset, the source character in code, a space in literals, and a space or the line break in comments; the split is unique |
| `ScrubOffsets.FailsExactly` | scripts/generate_jdbc42_semantic_inventory.py:119-121 | the scrub fails for a reason if and only if whole segments lead up to a construct of that kind which never closes |
| `JavaScrubber.StripKeepsOffsets` | scripts/generate_jdbc42_semantic_inventory.py:64-122 | same length, and every character is the source character at that offset or a space |
| `JavaScrubber.StripLeavesNoOpeners` | scripts/generate_jdbc42_semantic_inventory.py:64-122 | no quote and no comment opener survives |
| `JavaScrubber.StripIdempotent` | scripts/generate_jdbc42_semantic_inventory.py:64-122 | scrubbing the result again succeeds and changes nothing |
| `Delimiters.MatchingDelimiters` | scripts/verify_no_physical_standard.py:277-295 | the stack matcher accepts exactly the well-nested sequences and then returns a non-crossing, kind-respecting bijection from all openers to all closers |
| `Delimiters.AcceptedExactlyWhenNested` | scripts/verify_no_physical_standard.py:277-295 | acceptance by the matcher and derivability in the three-kind grammar coincide |
| `Delimiters.ScanSound` | scripts/verify_no_physical_standard.py:281-295 | from any reachable stack, an accepting run ends in a matching of the whole sequence |
| `Delimiters.ScanComplete` | scripts/verify_no_physical_standard.py:281-295 | if any matching exists, the matcher returns precisely that one |
| `Delimiters.MatchingNested` | scripts/verify_no_physical_standard.py:277-295 | every slice no pair leaves is derivable in the grammar |
| `BraceCounters.BalancedBlock` | scripts/verify_druid_single_standard.py:498-509 | the brace counter returns the first position where openers and closers balance, and fails only when there is none |
| `BraceCounters.MatchingBrace` | scripts/verify_task6_deleted_test_parity.py:422-435 | the first place where opening and closing brace characters occur equally often, a failure only when there is none, and the failure for an offset that holds no brace |
| `BraceCounters.MatchingCharacters` | scripts/verify_task6_deleted_test_parity.py:422-435 | read from text, the pairs of the matcher are exactly pairs of the characters `()`, `[]` and `{}` |
| `BraceCounters.CounterAgreesWithMatcher` | scripts/verify_druid_single_standard.py:498-509 | on every matched sequence the brace-only counter stops at `c` if and only if the three-kind matcher pairs the brace with `c` |
| `TraitDeclarations.BodyMethods` | scripts/verify_no_physical_standard.py:318-335 | the walk with one depth collects exactly the `fn` names enclosed by no inner pair of the body |
| `TraitDeclarations.DepthCountsEnclosingPairs` | scripts/verify_no_physical_standard.py:320-335 | the depth equals the number of matched pairs strictly inside the body that enclose the cursor, hence is never negative |
| `TraitDeclarations.Collect` | scripts/verify_no_physical_standard.py:298-337 | one declaration per trait head in source order, a delimiter failure exactly on sequences that do not nest, a missing body only when no brace follows; raw identifiers lose their prefix |
| `TraitDeclarations.MatchingTexts` | scripts/verify_no_physical_standard.py:277-295 | the pairs are exactly pairs of the token texts `(`, `[`, `{` and their closers |
| `TraitDeclarations.Declare` | scripts/verify_no_physical_standard.py:304-336 | the declaration of one head: its name and the methods of the body at the next brace |
| `WorkspaceDag.Visitor.Visit` | scripts/verify_workspace_dag.py:66-76 | keeps the invariant of the walk (grey and black disjoint, reports only on cycles, finished packages after their dependencies while nothing is reported) and restores the grey set |
| `WorkspaceDag.WalkAll` | scripts/verify_workspace_dag.py:60-79 | nothing is reported if and only if the graph has no directed cycle; every report lies on a cycle; with no report the finish order is a reverse topological order of all packages |
| `WorkspaceDag.DependenciesFirstIsAcyclic` | scripts/verify_workspace_dag.py:66-79 | finish times that put dependencies first rule out every cycle |
| `WorkspaceDag.CollectEdges` | scripts/verify_workspace_dag.py:49-58 | the collected edges are exactly the normal edges between workspace packages, and exactly the forbidden ones among them are flagged |
| `WorkspaceDag.RunGate` | scripts/verify_workspace_dag.py:45-81 | a finding for wrong packages exactly when they are wrong, one for an edge exactly when it is normal and forbidden, and cycle findings only for packages on cycles |
| `WorkspaceDag.Verify` | scripts/verify_workspace_dag.py:45-85 | success exactly on the expected packages with no forbidden edge and no cycle of normal edges |
| `DependencyBoundary.ReachableDependencies` | scripts/verify_rdbc_dependency_boundary.py:118-145 | exactly the ids reachable by one or more normal edges of the metadata: an entry of `deps` of the last record of an id, whose `dep_kinds` hold one without a kind or with a null one; fails exactly when there is no resolve graph or no list of nodes |
| `DependencyBoundary.DependsExactly` | scripts/verify_rdbc_dependency_boundary.py:97-115 | what one node yields, in terms of its fields alone |
| `DependencyBoundary.NodesExactly` | scripts/verify_rdbc_dependency_boundary.py:126-131 | the records by id are the last ones of their ids |
| `DependencyBoundary.Follow` | scripts/verify_rdbc_dependency_boundary.py:141-144 | the inner loop keeps the worklist invariant and adds to the list only when the reachable set grew |
| `DependencyBoundary.FindRootExactly` | scripts/verify_rdbc_dependency_boundary.py:56-94 | a root is found if and only if exactly one entry of the workspace members has a last package record with the root name, and its manifest is the expected one |
| `DependencyBoundary.CheckBoundary` | scripts/verify_rdbc_dependency_boundary.py:148-193 | the gate runs exactly on metadata with a root and a list of nodes, and then passes exactly when no id whose package record has a forbidden name is reachable |
| `IncludeExpansion.ExpandsExactly` | scripts/verify_task6_deleted_test_parity.py:754-781 | expansion succeeds if and only if every file on every include chain is owned, existing, maskable and not refused as non-literal, and no chain returns to a file on it; diamonds are fine |
| `IncludeExpansion.FailureIsBlamed` | scripts/verify_task6_deleted_test_parity.py:754-781 | a failed expansion names the last file of a chain of includes, and that file has the reported fault |
| `IncludeExpansion.ExpansionSubstitutes` | scripts/verify_task6_deleted_test_parity.py:777-781 | the result replaces every include by the full expansion of its file, each of which succeeds by itself |
| `IncludeExpansion.ActiveDoesNotMatter` | scripts/verify_task6_deleted_test_parity.py:754-781 | the active chain decides whether expansion succeeds, never what it yields |
| `IncludeExpansion.RejectsExactly` | scripts/verify_task6_deleted_test_parity.py:772-775 | a readable file is rejected for non-literal includes if and only if it has one and has no literal include anywhere in its raw text |
| `IncludeExpansion.NonLiteralsRejected` | scripts/verify_task6_deleted_test_parity.py:754-781 | over a whole expansion, no reached file keeps a non-literal include if and only if none has a literal include beside one |
| `IncludeExpansion.RestIsKept` | scripts/verify_task6_deleted_test_parity.py:777-781 | behind the only literal include of a file, the text is kept as it is |
| `IncludePattern.IncludeExactly` | scripts/verify_task6_deleted_test_parity.py:771-771 | an include is read exactly where the text is the words and marks of the item with any white space in between |
| `IncludePattern.HoldsExactly` | scripts/verify_task6_deleted_test_parity.py:773-773 | a file has a literal include if and only if that pattern matches somewhere |
| `IncludeWitnesses.NonLiteralPasses` | scripts/verify_task6_deleted_test_parity.py:772-775 | `include!("a");include!(X)` expands and its non-literal include is still there |
| `IncludeSeams.NoIncludeLeft` | scripts/verify_task6_deleted_test_parity.py:777-781 | when no reached file ends in the middle of an include, and no text in front of an include of it does, no literal include is left in the expanded text |
| `IncludeSeams.SealedExactly` | scripts/verify_task6_deleted_test_parity.py:772-781 | a text without includes stays without one before every continuation that has none if and only if no suffix of it is the beginning of an include |
| `IncludeSeams.SealedSeam` | scripts/verify_task6_deleted_test_parity.py:772-781 | behind such a text, an include of the joined text lies in one of the two |
| `IncludeSeams.BreakSeals` | scripts/verify_task6_deleted_test_parity.py:772-781 | a line that ends in no space, `e`, `!`, parenthesis or quote closes every begun include |
| `GeneratedTargets.TargetIsTidy` | scripts/migrate_task6_deleted_tests.py:5220-5235 | a generated target has such an end in front of each include and behind the last, and includes only its fragments |
| `GeneratedTargets.TargetLeavesNoInclude` | scripts/migrate_task6_deleted_tests.py:5213-5235 | what a generated target expands to holds no literal include, when its fragments hold none and do not end in the middle of one |
| `TargetExpansion.TargetExpands` | scripts/migrate_task6_deleted_tests.py:5213-5235 | expanding a generated target gives back the text in front of its include lines and then every fragment, in order, one line break behind each |
| `IncludeWitnesses.SeamSpellsInclude` | scripts/verify_task6_deleted_test_parity.py:777-781 | `include!("a");!("c");` with `include` in the other file expands to an include of `c`, for any character `c` a plain string literal can hold |
| `HelperBodies.Collector.Visit` | scripts/verify_task6_deleted_test_parity.py:735-748 | adds only reachable helpers, each once and after one that calls it, and on success leaves no helper of an added body unvisited |
| `HelperBodies.ReachableTask6Body` | scripts/verify_task6_deleted_test_parity.py:727-751 | joins the bodies of exactly the helpers reachable through names found in the masked text of a body, the test first, each once and after a caller; fails exactly when some reachable body cannot be masked; empty for an unknown test |
| `HelperBodies.ReachableBody` | scripts/verify_task6_deleted_test_parity.py:730-751 | the same for any way of reading the calls of a body, which may fail |
| `HelperBodies.ClosureComplete` | scripts/verify_task6_deleted_test_parity.py:735-750 | a finished visit holds everything reachable and no unreadable body |
| `CountedNames.ParseCountedNames` | scripts/verify_task6_deleted_test_parity.py:445-456 | the loop adds up the items, or fails at a malformed one, as specified |
| `CountedNames.ParseExactly` | scripts/verify_task6_deleted_test_parity.py:445-456 | a list is accepted if and only if every item is a non-empty name, a colon and a positive decimal number, and then the counts add up name by name |
| `CountedNames.RoundTripExactly` | scripts/verify_task6_deleted_test_parity.py:438-456 | parsing the rendered list returns the exact multiset if and only if every name is non-empty and free of semicolons, for counts of any size and for no names |
| `CountedNames.BadNameNotParsed` | scripts/verify_task6_deleted_test_parity.py:445-456 | no list whatever parses to an empty name or one with a semicolon |
| `GreedyPartition.FewestParts` | scripts/migrate_task6_deleted_tests.py:5159-5185 | a greedy run never uses more cuts than any partition that starts no later |
| `GreedyPartition.StuckMeansNone` | scripts/migrate_task6_deleted_tests.py:5164-5169 | where greedy gets stuck, no partition from an earlier start exists |
| `TopLevelParts.SplitTopLevel` | scripts/migrate_task6_deleted_tests.py:5120-5185 | the loops compute the specified parts or fail with the same reason; the parts concatenate to the source and each has fewer lines than the larger limit |
| `TopLevelParts.SplitLines` | scripts/migrate_task6_deleted_tests.py:5131-5185 | the same for any lines and as many masked lines |
| `TopLevelParts.ScanCandidates` | scripts/migrate_task6_deleted_tests.py:5131-5155 | the running counters and the candidate lines are those of the definition |
| `TopLevelParts.CandidateExactly` | scripts/migrate_task6_deleted_tests.py:5132-5155 | a line is a candidate if and only if, up to its end, braces, parentheses and brackets open as often as they close, and its last visible character is `;` or `}` |
| `TopLevelParts.NextCutChosen` | scripts/migrate_task6_deleted_tests.py:5163-5181 | the last candidate within the limit, else the first within the oversized limit, and failure only when neither exists |
| `TopLevelParts.CutsFollow` | scripts/migrate_task6_deleted_tests.py:5159-5185 | every cut of a run with an oversized limit was chosen by that rule |
| `TopLevelParts.SplitIsBest` | scripts/migrate_task6_deleted_tests.py:5120-5185 | without an oversized limit: succeeds exactly on sources that can be masked, whose delimiters close and that have a split at item ends with parts of at most `max_lines - 1` lines, and then no such split has fewer parts |
| `TopLevelParts.CutsAreBest` | scripts/migrate_task6_deleted_tests.py:5159-5185 | the cuts are such a split, none has fewer, and failure means there is none |
| `TopLevelParts.PartsConserve` | scripts/migrate_task6_deleted_tests.py:5182-5185 | the parts concatenate to the text of the lines |
| `TopLevelParts.PartsAreBalanced` | scripts/migrate_task6_deleted_tests.py:5132-5157 | in the masked text of every part, braces, parentheses and brackets open as often as they close |
| `TopLevelParts.SplitFails` | scripts/migrate_task6_deleted_tests.py:5128-5181 | the three failures: a source that cannot be masked, a mask that opens more or less than it closes, and else an item beyond the last limit tried |
| `TopLevelParts.PartsAreBounded` | scripts/migrate_task6_deleted_tests.py:5159-5185 | every part stays below the larger of the two limits |
| `TopLevelParts.FragmentsFit` | scripts/migrate_task6_deleted_tests.py:5213-5224 | marker plus part fits the writer's limit when both split limits do |
| `TopLevelParts.WriteFragments` | scripts/migrate_task6_deleted_tests.py:5213-5224 | under those limits every fragment is written, in order and with its content |
| `PartMasks.SplitPartsMaskAlone` | scripts/migrate_task6_deleted_tests.py:5128-5185 | the parts mask on their own to their slices of the mask of the source if and only if no comment or literal straddles a cut |
| `PartMasks.CleanSplitsMaskAlone` | scripts/migrate_task6_deleted_tests.py:5128-5185 | when no comment or literal straddles a line end at which an item may end, every successful split, at any limits, gives parts that mask alone |
| `PartMasks.CheckIsExact` | scripts/migrate_task6_deleted_tests.py:5128-5185 | for a source whose last line ends an item, that check holds if and only if the parts of all splits at all limits mask alone |
| `CommentCuts.CutInsideComment` | scripts/migrate_task6_deleted_tests.py:5147-5181 | for every limit of at least two lines and every line that ends an item, a source of that many lines with a comment opened behind it is cut inside the comment, and its first part cannot be masked |
| `CommentCuts.ScriptLimitCuts` | scripts/migrate_task6_deleted_tests.py:5213-5217 | such a source exists at the limit of 780 lines |
| `MaskCuts.PartsMaskAlone` | scripts/verify_task6_deleted_test_parity.py:336-418 | the same for any parts cut behind line breaks |
| `MaskCuts.CutPiece` | scripts/verify_task6_deleted_test_parity.py:336-418 | in front of a cut behind a line break, the text starts with the same whole piece as the source, or with none |
| `MaskCuts.FrontBy` | scripts/verify_task6_deleted_test_parity.py:336-418 | the text in front of such a cut can be masked if and only if no piece straddles it |
| `TestChunks.ChunkTests` | scripts/migrate_task6_deleted_tests.py:5062-5089 | the loop computes the specified chunks, or fails with the same reason |
| `TestChunks.ChunksSucceed` | scripts/migrate_task6_deleted_tests.py:5067-5080 | chunking succeeds exactly when the support and each single test fit a file |
| `TestChunks.FailureMeansNoChunking` | scripts/migrate_task6_deleted_tests.py:5067-5080 | failure means that no grouping within the limit exists |
| `TestChunks.ChunksAreBest` | scripts/migrate_task6_deleted_tests.py:5062-5089 | all tests in order, non-empty chunks within the limit, and as few chunks as any contiguous grouping |
| `TestChunks.ChargePaysForFile` | scripts/migrate_task6_deleted_tests.py:5565-5575 | the one extra line per snippet pays for the allow line and the separators; it is used up to the line if and only if the prefix ends in a line break or nothing follows it, and so does every snippet but the last |
| `TestChunks.WriteChunk` | scripts/migrate_task6_deleted_tests.py:5565-5575 | a chunk within the budget is always written, with at most 780 lines: the marker, the allow line, the support and every snippet in order, without the white space at line ends |
| `TestChunks.ChunksFail` | scripts/migrate_task6_deleted_tests.py:5067-5080 | a support that leaves no line free is reported first, then the first test that fits no file |
| `GeneratedFiles.WriteGenerated` | scripts/migrate_task6_deleted_tests.py:5253-5267 | writes the normalized payload exactly when its own line count is within the limit (an empty payload counts as one line) |
| `GeneratedFiles.NormalizeKeepsCount` | scripts/migrate_task6_deleted_tests.py:5258-5263 | stripping line ends and rejoining keeps the number of lines |
| `GeneratedFiles.NormalizedLines` | scripts/migrate_task6_deleted_tests.py:5258-5263 | line by line, what is written is the payload line without the white space at its end |
| `Lines.ConcatSplit` | scripts/migrate_task6_deleted_tests.py:5129-5130 | the lines with their breaks concatenate to the text |
| `Splicing.SpliceBackwards` | scripts/migrate_task6_deleted_tests.py:5114-5116 | the loop makes the edits from last to first with clamped slices, on any ranges; for ranges in order that is simultaneous substitution, whatever the replacement lengths |
| `Splicing.SubstituteInterleaves` | scripts/migrate_task6_deleted_tests.py:5114-5116 | the result interleaves the unchanged outside pieces with the replacements |
| `Splicing.OutsideRebuilds` | scripts/migrate_task6_deleted_tests.py:5040-5049 | the outside pieces interleaved with what the ranges held rebuild the source |
| `Splicing.WithoutRanges` | scripts/migrate_task6_deleted_tests.py:5040-5049 | what is kept, on any ranges, right-stripped, plus two line breaks |
| `Splicing.KeptIsOutside` | scripts/migrate_task6_deleted_tests.py:5040-5049 | for ranges in order, what is kept is the source with the ranges replaced by nothing |
| `NestedRanges.NestedSpliceExactly` | scripts/migrate_task6_deleted_tests.py:5114-5116 | for a range that holds others, the backward splice equals replacing the outer range if and only if the inner replacements keep their total length, or shorten it and no text follows |
| `NestedRanges.NestedRunExactly` | scripts/migrate_task6_deleted_tests.py:5101-5116 | the same inside a whole run with other ranges in front and behind, against the simultaneous substitution of the outer ranges |
| `NestedRanges.NestedRangesExactly` | scripts/migrate_task6_deleted_tests.py:5101-5116 | for ranges that nest to any depth and replacements that are not shorter, the backward splice is the substitution of the outermost ranges if and only if every inner replacement has the length of its range |
| `NestedRanges.SplicedWithoutNesting` | scripts/migrate_task6_deleted_tests.py:5101-5116 | when every replacement is longer than its range, the two agree if and only if no ranges nest |
| `NestedRanges.NestedKeptExactly` | scripts/migrate_task6_deleted_tests.py:5044-5048 | for ranges that nest to any depth, dropping all equals dropping the outermost ones if and only if no text of those lies behind an inner range and in front of the next one or the end |
| `NestedRanges.KeptWithoutNesting` | scripts/migrate_task6_deleted_tests.py:5020-5049 | when inner ranges end in front of the outer end, as a closing brace makes them, the two agree if and only if no ranges nest |
| `NestedRanges.EndComesTwice` | scripts/migrate_task6_deleted_tests.py:5114-5116 | with one longer inner replacement, the end of the moved text comes out behind the outer replacement a second time |
| `NestedRanges.NestedTestDuplicatesText` | scripts/migrate_task6_deleted_tests.py:5020-5116 | a test inside a test, with the ranges and the names the script computes: eight characters come out twice |
| `LedgerEmitter.Emit` | scripts/verify_druid_single_standard.py:1642-1745 | succeeds exactly when the digests agree, every frozen row is classified and every left-over live row is approved; then writes a sorted ledger (`LedgerRows` says of which rows) |
| `LedgerRows.EmittedRows` | scripts/verify_druid_single_standard.py:1642-1745 | how often any row occurs in an emitted ledger: recorded closed rows are carried over, rows of other tasks are the scanned ones, live exactly when recorded live, and Task 5 rows merge the scanned and the frozen, coordinates included |
| `LedgerRows.EmittedSorted` | scripts/verify_druid_single_standard.py:1745-1745 | the ledger ascends column by column |
| `LedgerEmitter.MergeTask5` | scripts/verify_druid_single_standard.py:1701-1744 | one row per frozen row with its classified state, plus one pending row per live row left over |
| `LedgerEmitter.Fill` | scripts/verify_druid_single_standard.py:1701-1706 | each bucket holds exactly the live rows of its identity, in order |
| `LedgerEmitter.FreezeAll` | scripts/verify_druid_single_standard.py:1707-1725 | the loop over the frozen rows computes the specified rows and remaining buckets |
| `LedgerEmitter.Drain` | scripts/verify_druid_single_standard.py:1726-1744 | every remaining row is emitted as pending, unless one is not approved |
| `LedgerEmitter.FreezeCounts` | scripts/verify_druid_single_standard.py:1707-1725 | freezing keeps every identity's count and takes live rows only while Task 6 is pending |
| `LedgerEmitter.FreezeOf` | scripts/verify_druid_single_standard.py:1707-1725 | identity by identity, the first frozen rows take the coordinates of the oldest live ones while Task 6 is pending, the others keep theirs |
| `LedgerVerifier.EmittedReflects` | scripts/verify_druid_single_standard.py:1642-1745 | the Task 5 rows of an emitted, sorted ledger are one row per frozen row and one pending row per live row left over, when no closed Task 5 row is carried |
| `LedgerVerifier.EmittedIsMaximum` | scripts/verify_druid_single_standard.py:1701-1744 | without a conflict, such rows are the pointwise maximum of the frozen and the live identities |
| `LedgerVerifier.EmittedAdditions` | scripts/verify_druid_single_standard.py:1363-1380 | the verifier finds nothing missing, and its checked additions equal its live additions |
| `LedgerVerifier.EmittedStates` | scripts/verify_druid_single_standard.py:1395-1410 | every emitted Task 5 row carries the state the verifier expects, and no closed identity is live |
| `LedgerVerifier.VerifierAcceptsEmitter` | scripts/verify_druid_single_standard.py:1355-1422 | the verifier accepts the emitter's output if and only if no carried closed row is a Task 5 row, no frozen identity that is not pending for Task 6 is live, and the shim sources exist |
| `LedgerVerdict.VerifiesExactly` | scripts/verify_druid_single_standard.py:1355-1417 | for any ledger: accepted if and only if ten demands on counts, classes, digests and files are met, and rejected for the first one, in the order of the script, that is not |
| `LedgerVerdict.SummaryCounts` | scripts/verify_druid_single_standard.py:1418-1422 | the three numbers are those of the closed rows and the rows pending for Task 6 and Task 7, and add up to all rows |
| `LedgerVerifier.CarriedFails` | scripts/verify_druid_single_standard.py:1111-1115 | a ledger with a closed standard row among its Task 5 rows is rejected for its state |
| `LedgerVerifier.ConflictFails` | scripts/verify_druid_single_standard.py:1411-1417 | a frozen closed identity that is live is rejected whatever the ledger says |
| `LedgerPolicy.ConflictsAreCompat` | scripts/verify_druid_single_standard.py:1132-1149 | with the scripts' tables, an emitted identity that is frozen and live conflicts if and only if it lies under `core/compat/` |
| `LedgerPolicy.ScriptLedgerAccepted` | scripts/verify_druid_single_standard.py:1642-1745 | with the scripts' tables, the emitted ledger passes if and only if no carried closed row is a Task 5 row, no frozen row under `core/compat/` is live and the shim sources exist |
| `LedgerPolicy.AcceptedStates` | scripts/verify_druid_single_standard.py:1132-1149 | with the scripts' tables, the state of each row of an accepted ledger follows from its path and from whether it is frozen |
| `LedgerPolicy.CompatConflictExists` | scripts/verify_druid_single_standard.py:1726-1744 | for any digest and any pins: what can be emitted can be emitted with a further frozen and live row under `core/compat/`, and then the verifier rejects every ledger |
| `Ledger.SortCount` | scripts/verify_druid_single_standard.py:1745-1745 | sorting the ledger keeps every identity's count |
| `Ledger.SymbolCut` | scripts/verify_druid_single_standard.py:1314-1315 | the identity of a symbol is the symbol up to its first coordinate |
| `Ledger.OneIdentity` | scripts/verify_druid_single_standard.py:1318-1328 | two rows have one identity if and only if they differ in coordinates and states only |
| `OrderedMarkers.MarkersInOrder` | scripts/verify_druid_single_standard.py:923-932 | true if and only if some increasing, non-overlapping choice of occurrences of all markers exists |
| `OrderedMarkers.GreedyStep` | scripts/verify_druid_single_standard.py:923-932 | taking the leftmost occurrence loses no placement of the rest |
| `MigrationDocument.WriteThenCheckIsFresh` | scripts/render_task6_migration_document.py:206-233 | after a write the check run returns the document unchanged, when the regions are disjoint and the renderings mention no heading |
| `DocumentOffsets.FreshExactlyOnInput` | scripts/render_task6_migration_document.py:206-233 | in a document that holds the first table once, the check after a write passes if and only if the second table does not start in front of the first one without ending there, and otherwise finds boundaries missing |
| `DocumentOffsets.OverlapOnInput` | scripts/render_task6_migration_document.py:192-203 | the second region overlaps the written first table if and only if, in the document before the write, it starts in front of the first region and its heading does not stand there |
| `MigrationDocument.ReplaceTwice` | scripts/render_task6_migration_document.py:94-106 | one replacement is idempotent |
| `MigrationDocument.AfterReplace` | scripts/render_task6_migration_document.py:94-106 | after a replacement the first header stands where the region began and the first heading right behind the rendering |
| `MigrationDocument.OtherIsFixed` | scripts/render_task6_migration_document.py:192-203 | replacing the second table leaves a disjoint first table replaced |
| `MigrationDocument.OverlappingBreaks` | scripts/render_task6_migration_document.py:206-233 | for any two tables kept apart, writing into such a document erases the first one and the next run fails |
| `MarkdownTables.RenderingIsValid` | scripts/render_task6_migration_document.py:70-91 | a rendered table starts with its header and contains neither heading nor the other header |
| `MarkdownTables.DocumentIsStable` | scripts/render_task6_migration_document.py:206-233 | with the scripts' own headers and headings, a written document passes its check unless the second table enclosed the first one |
| `MarkdownTables.DocumentFreshExactly` | scripts/render_task6_migration_document.py:206-233 | with the scripts' own tables, in a document that holds the first one once, the check after a write passes if and only if the second table does not enclose the first one |
| `MarkdownTables.OverlappingDocumentBreaks` | scripts/render_task6_migration_document.py:206-233 | with the second header in front of the first table, a write succeeds and the next run finds boundaries missing |
| `MarkdownTables.RenderingApart` | scripts/render_task6_migration_document.py:94-106 | a rendered table neither holds nor completes the other table's older header |
| `MarkdownTables.RenderedOnce` | scripts/render_task6_migration_document.py:70-91 | a rendered table holds its own header once and its older header nowhere |
| `MarkdownRows.RenderHolds` | scripts/render_task6_migration_document.py:70-91 | rendering fails exactly when a cell holds a bar or a line break; cut at breaks and bars, a rendered table gives back the header, the rule and every quoted cell in order |
| `SemanticInventory.ParsePrint` | scripts/verify_jdbc42_semantic_inventory.py:225-267 | parsing undoes printing on every non-empty key-sorted list of valid 19-field rows |
| `SemanticInventory.PrintParse` | scripts/verify_jdbc42_semantic_inventory.py:225-267 | printing undoes parsing on every accepted payload, and what is accepted is non-empty, valid and sorted |
| `SemanticInventory.CanonicalRejectsHeaderOnly` | scripts/verify_jdbc42_semantic_inventory.py:254-258 | the final comparison fails exactly on the header-only file |
| `SemanticInventory.SemanticHeaderValid` | scripts/verify_jdbc42_semantic_inventory.py:26-32 | the scripts' header meets what the round trips ask of a header |
| `Delimited.JoinSplit` | scripts/verify_jdbc42_semantic_inventory.py:236-241 | joining undoes splitting |
| `Delimited.SplitJoin` | scripts/verify_jdbc42_semantic_inventory.py:262-267 | splitting undoes joining on parts free of the separator |
| `SlowCloseGate.QuantileWithin` | scripts/measure_pool_slow_close.py:73-75 | a percentile is within a limit if and only if that share of the runs, rounded up, is |
| `SlowCloseGate.QuantileMonotone` | scripts/measure_pool_slow_close.py:73-75 | a higher percentile is never smaller |
| `SlowCloseGate.QuantileForgetsOrder` | scripts/measure_pool_slow_close.py:73-75 | the order of the runs does not matter |
| `SlowCloseGate.RankInRange` | scripts/measure_pool_slow_close.py:73-75 | the nearest rank is always a valid position |
| `SlowCloseGate.DoubleRankIsExact` | scripts/measure_pool_slow_close.py:73-75 | for up to 2^40 runs the ceiling of the rounded floating-point product is the exact rank |
| `SlowCloseGate.ScriptFractions` | scripts/measure_pool_slow_close.py:88-93 | the doubles 0.50, 0.95 and 0.99 lie just below their hundredths |
| `SlowCloseGate.PercentilesOf` | scripts/measure_pool_slow_close.py:88-93 | each percentile is the least value that its share of the runs is within, and p50 <= p95 <= p99 |
| `SlowCloseGate.BudgetMetExactly` | scripts/measure_pool_slow_close.py:98-104 | no violation is recorded if and only if at least ceil(99n/100) runs meet each time limit and the peak memory meets its own |
| `Sorting.SortForgetsOrder` | scripts/measure_pool_slow_close.py:73-75 | sorting permutations of one list gives one result |
| `Sorting.StringExactly` | scripts/verify_druid_single_standard.py:1745-1745 | text is ordered by the first character in which it differs, a beginning first |

## Left out

- The Rust crates (pool, holder, registry, prepared cache): only the scripts are modelled.
- Marker tables, test-name lists, pinned digests and row counts: finite constants checked for presence, without a general property.
- `canonicalize_source_path`: a list of literal string replacements.
- Files, Git, Cargo, rustfmt, archives, JSON text and command lines: they enter as parameters; the refusal to overwrite a file without the generated marker goes with them.
- Line breaks other than `\n`, Unicode white space, Unicode digits and UTF-8 decoding: text is a sequence of characters, white space and digits are the ASCII ones.
- SHA-256: an arbitrary function of the identity multiset, so nothing is said about collisions.
- Source coordinates in symbols that contain line breaks: `SymbolIdentity` cuts at the first coordinate to the end of the symbol.
- The order of the gate's messages: `WorkspaceDag` keeps the cycle reports apart and appends them to the other findings; which findings there are is stated, not their order.
- The rows rejected while a ledger is parsed: the emitter and verifier work on parsed rows with the states the parser accepts.
- The extraction of inner attributes and header comments in `write_include_target`: they enter a target as one text in front of its allow line.
- `rename_test` and its pattern: the replacement texts of a splice are arbitrary.
- The grouping and summarizing of `render_deleted_test_table`: its rows enter as rendered cells.
- The pattern that finds helper calls in masked code: `HelperBodies` takes it as a function of the masked text.
- CheckBoundary: resolving a manifest path enters as a parameter; a package name that is no text counts as no name.
- Criterion samples, evidence files and the other fields of a measurement.
- QuantileWithin: uses exact hundredths; that the script's floating-point rank is the same is shown for up to 2^40 runs (`DoubleRankIsExact`), from what rounding may do and not from a model of the hardware.
- NestedRangesExactly: replacements that are shorter than their ranges are decided for one level of nesting only (`NestedSpliceExactly`, `NestedRunExactly`); a header without a body can make ranges cross, which is not decided.
- NestedRangesExactly: the reference replaces an outer range by a text made from the old source, so an inner test keeps its old name in it.
- NoIncludeLeft: the condition is exact for a text before all continuations (`SealedExactly`); before one given continuation an unsealed text need not spell an include.
- FreshExactlyOnInput: a document that holds the first table more than once is decided in one direction only (`WriteThenCheckIsFresh`).
