# Verified model of Fensu's policy, analysis and coordinate cores

Fensu is a static checker for the architecture of a repository. This project models the parts of it in which a
small mistake changes verdicts without any visible failure, and proves what they promise. Check it with `dafny
verify dfyconfig.toml`.

**Path-scoped policy** (`BraceExpansion`, `BraceSemantics`, `BraceTree`, `BraceWorklist`, `PathText`,
`GlobPattern`, `PatternValidation`, `PatternSpecificity`, `PatternCounts`, `PathDominance`, `CandidateTable`,
`Thresholds`, `ExactPaths`). A threshold can be overridden for paths such as `src/{a,b}/**/*.py`. The stack of
pending candidates is proved to produce the ordered product of the pattern's parse tree, to refuse a pattern
exactly when that product has more than 256 members, and never to reach the limit check it makes when it appends
a finished candidate. Validation is proved equal to a condition on segments. The regular expression, with a
denotation, is proved to match a path exactly when a segment-wise matcher does. Resolution is an argmax by four
independent counts over the expansions that match, and the paths that beat every accepted glob when they are
spelled out are characterised.

**Memoised queries and replay** (`ProjectWorld`, `QueryMeanings`, `DependencyLog`, `ProjectAnalysis`,
`Evaluation`, `Replay`, `ReplayLimits`). Rules ask an evaluation-scoped object about a file system; the object
memoises and records dependencies, and a cached result is reused while they re-observe the same. The object is a
class whose every method returns the memo-free answer, written out in files and paths, and extends the log in a
stated way. A rule is a strategy: its next step is a function of the responses so far, failures included, and
may be a question, which may name another requester, or a look at the recorded dependencies. For which rules and
worlds a reused result is the one the rule would give is characterised.

**Source coordinates** (`Bytes`, `SourceCoordinates`, `LineIndices`, `LineCounts`, `SourceRanges`, `Utf8`,
`TagNames`). The scan, the binary-searched index, the shifting of embedded spans, the diagnostics of wrapped
syntax, the line counts of two languages, the byte ranges of syntax nodes, and the byte-preserving rewriting of
dotted tag names. Well-formed UTF-8 follows the table in section 4 of RFC 3629, which is proved to admit exactly
the encodings of section 3.

**Structure** (`Chains`, `Reexports`, `Sorting`, `Associations`, `ParentTables`, `SyntaxIndex`,
`SyntaxRelations`, `SyntaxAncestors`, `FileAnalysis`, `ProjectPaths`, `Ownership`, `OwnershipOrder`,
`Discovery`, `TargetRoots`, `RuleSelectors`). Re-export resolution and rule-to-test association, the
breadth-first syntax index and its relations, the classification of files below configured roots, target roots,
and the selector grammar.

## Where the code does not keep a promise

Each is stated as an exact condition, for all inputs, with an input that shows the failure.

- *Replay.* Reuse can be wrong for four reasons, each with its rule, its log and a second world.
  - A metadata file that is not UTF-8 but decodes as Python source (a PEP 263 declaration), or that is
    UTF-8, declares entry points and does not decode as Python source, is recorded as absent when both
    questions about it are asked, since questions are keyed without their answers
    (`IncoherentMetadataIsUnsafe`).
  - A listing of something that is no directory raises and records nothing; a rule that catches the error
    and reports it is reused after the directory has appeared (`FailedListingIsUnsafe`).
  - A query that names another requester is recorded for that one, while a file's dependencies are those
    of its own requester (`ForeignQuestionIsUnsafe`).
  - The dependencies recorded so far can be listed, which records nothing; a rule that reports the list is
    reused although in the very same world it would report another one after other questions
    (`ListedLogIsUnsafe`).

  `ReplaySafeExactly` proves that the modelled steps leave no fifth. For runs known to ignore the log, to list
  only directories and to ask for themselves, reuse is safe if and only if the metadata is coherent; without the
  second habit, if and only if moreover every listing succeeds in the recorded world; without the third, if and
  only if moreover all requesters are one; without the first, never.
- *Exact paths.* A path spelled out need not beat every glob: `a` matches `*/a` and is more specific than it
  (`NameBeatsStarDirectory`). `MostSpecificExactly` and, among the patterns that configuration accepts,
  `MostSpecificOfLegalExactly`: no pattern that matches a path is more specific than the path if and only if the
  path has no `**` in it and is not a name below directories that are all called `*`. `NamingWinsExactly`: in every
  valid configuration that names a path the winner names it, if and only if the path is such a one or cannot be
  named at all.
- *Globs.* The documented meaning says nothing about newlines, and `.` does not match one.
  `DocumentedMeaningExactlyWithoutNewlines`: every validated pattern keeps its documented meaning on a
  path if and only if the path has no newline (`NewlineEscapesGlobstar` gives one).
- *Validation.* The pattern `.` is accepted, although a current-directory part is meant to be refused:
  its parsed form has no parts (`AcceptedMeaning`, which names it).
- *Line index.* Lines are cut off at 32 bits. `MonotoneExactly`: later offsets never get earlier
  locations if and only if no line from number 4294967295 on, but the last, holds anything
  (`LaterOffsetLocatedEarlier` gives a text).
- *Target roots.* `a/../c:d` normalises to `c:d`, which is refused as a drive when normalised again.
  `FixedPointExactly`: a normal root is a fixed point if and only if its second character is no colon
  (`DriveAppears` covers every such detour).
- *Test owners.* Runtime roots of one width keep their configured order, and a test file can mirror two:
  with roots `a` and `b`, the owner of `b/a/t.py` below a test root depends on which is configured first
  (`TiedRootsDisagree`). `TestOwnerOrderIrrelevantExactly`: the order decides nothing about the owner's path and
  the owned part of a test file if and only if all widest mirrored roots lead to the same.
- *Declarations.* Where no ownership roots are configured, every runtime root is one and is declared by its index,
  so the order shows in the declaration although the owner stays (`SwappedRootsRedeclare`).
  `DeclarationOrderIrrelevantExactly`: it does not show if and only if the file has no owner or all runtime roots
  lie at the owner's path.
- *Native offset.* It is in range if and only if a runtime file's owner does not lie above its root
  (`RootPartsAreASuffixExactly`); runtime roots that are not nested guarantee it (`OffsetIsInRange`), and
  `NestedRootsMisplaceTheOffset` gives a layout where it is negative.

- *Shared syntax nodes.* The parser uses one context node in many places. Such a node has the handle and the
  parent of its last place, and in the list of children it stands where it was met first: in `z = 0` and
  `x.y = 1`, the attribute's context is listed before its value (`SharedNodeComesFirst`), and `z` is missing among
  the nodes above it (`SharedNodeMissesAncestor`). `ListsItsChildrenExactly`: a node lists its children in order if
  and only if they all stand last below it and were first met in their order. `AncestorsExactly`: the ancestors
  are all the enclosing nodes if and only if the nodes that hold it directly lie one within the other.
- *Source ranges.* Byte ranges look the parser's line numbers up among the lines of `splitlines`, which also
  breaks at form feeds and other characters: in a text `x`, form feed, newline, `y`, the range of `y` begins too
  early (`FormFeedShiftsRange`). `SourceRange`: a range selects the node's bytes if and only if no such character
  stands before the line on which the node ends.

The associations of calls with tests hide a further dependence that extracted facts cannot reach. The name
kept for a group is that of its first call (`FirstCallNames` gives two calls), so the order of calls is
irrelevant exactly when calls of one group agree on the name (`OrderIrrelevantExactly`); they do, because the
name and the location of a test are read off one function
(crates/fensu-facts/src/facts/_helpers/harness/calls.rs:132-140).

## Model

| member | source | states |
|---|---|---|
| BraceExpansion.FirstGroupMeaning | src/fensu/config/_helpers/path_patterns.py:93-110 | the reading of a candidate's first brace is total and unique: no brace at all, one outermost balanced group, or an error that says which brace is unmatched |
| BraceExpansion.GroupBounds | src/fensu/config/_helpers/path_patterns.py:93-110 | the index-and-depth scan returns that reading: the bounds of the first outermost group, nothing without braces, or the right error |
| BraceExpansion.SplitMeaning | src/fensu/config/_helpers/path_patterns.py:113-132 | a balanced group is its parts joined by commas, each part balanced and without a comma of its own |
| BraceExpansion.SplitIsUnique | src/fensu/config/_helpers/path_patterns.py:113-132 | no other parts of that kind are joined to the same group |
| BraceExpansion.GroupAlternatives | src/fensu/config/_helpers/path_patterns.py:113-132 | the depth-tracking loop returns exactly those parts, and fails exactly when there are fewer than two or one is empty |
| BraceSemantics.ProductAt | src/fensu/config/_helpers/path_patterns.py:83-89 | in the product the left factor is most significant: member `i * width + j` is the `i`-th of the left followed by the `j`-th of the right |
| BraceSemantics.ProductLaw | src/fensu/config/_helpers/path_patterns.py:69-90 | for balanced `u` and any `v` the expansion of `u + v` is the product of the two expansions, and fails when either fails |
| BraceTree.CountIsSize | src/fensu/config/_helpers/path_patterns.py:69-90 | the size of a parse tree's expansion is the product of the sums of its groups, so it is known without expanding |
| BraceTree.ParseTree | src/fensu/config/_helpers/path_patterns.py:69-132 | every text that substitution can expand has a well-formed parse tree |
| BraceTree.ExpansionsMeaning | src/fensu/config/_helpers/path_patterns.py:69-132 | repeated textual substitution succeeds exactly on the texts of well-formed trees and gives the ordered product of the tree |
| BraceTree.EqualTextsExpandEqually | src/fensu/config/_helpers/path_patterns.py:69-132 | two parse trees of one text denote the same list |
| BraceTree.ExpandBraceless | src/fensu/config/_helpers/path_patterns.py:79-82 | every expansion is free of braces |
| BraceWorklist.ExpandPathPattern | src/fensu/config/_helpers/path_patterns.py:69-90 | the pending stack succeeds if and only if the pattern is well formed and expands to at most 256 members, and then returns the tree's ordered product; a well-formed pattern is refused for the limit exactly when it is larger, while a malformed one may be refused for the limit before its fault is met; the append-time limit check is unreachable; it terminates |
| GlobPattern.PatternExpression | src/fensu/config/_helpers/path_patterns.py:144-160 | the translation loop emits the expression of the pattern's fragments, which for a canonical pattern accepts exactly the paths the glob accepts |
| GlobPattern.GlobstarTakesSegments | src/fensu/config/_helpers/path_patterns.py:147-156 | an inner `**` takes any number of whole segments, a final one takes all that are left and at least one |
| GlobPattern.CompilationPreservesMeaning | src/fensu/config/_helpers/path_patterns.py:144-160 | for every canonical pattern and every path in normal form, a full match of the expression is acceptance by the segment-wise matcher, newlines included |
| GlobPattern.DocumentedMeaningExactlyWithoutNewlines | src/fensu/config/_helpers/path_patterns.py:140-160 | all canonical patterns keep the newline-blind documented meaning on a path if and only if the path has no newline |
| GlobPattern.NewlineEscapesGlobstar | src/fensu/config/_helpers/path_patterns.py:147-156 | a path with a newline that `**` is documented to match and its expression does not |
| PatternValidation.NormalizedMeansKept | src/fensu/config/_helpers/validate.py:554-570 | a candidate equals its parsed spelling exactly when it has no empty and no `.` segment, or is `.` itself |
| PatternValidation.AcceptedMeaning | src/fensu/config/_helpers/validate.py:551-575 | the conditions checked on a candidate hold exactly for `.` and for segments that are neither empty nor `.` nor `..`, have `**` only alone and never twice in a row, and are free of backslashes, question marks and square brackets |
| PatternValidation.AcceptedIsCanonical | src/fensu/config/_helpers/validate.py:551-575 | what validation accepts is canonical, the condition under which the translation is proved right |
| PatternValidation.ValidatePathPattern | src/fensu/config/_helpers/validate.py:551-575 | a pattern is accepted exactly when it expands within the limit and every expansion is accepted |
| PatternCounts.ComponentsMeaning | src/fensu/config/_helpers/path_patterns.py:34-46 | the components are the numbers of segments without a star and of characters that are neither stars nor slashes and, negated, of segments `**` and of stars in all other segments |
| PatternCounts.BelowByCounts | src/fensu/config/_helpers/path_patterns.py:34-46 | a pattern is less specific than another by the first of these counts in which they differ, and as specific exactly when they agree in all |
| PatternSpecificity.BelowIsLexicographic | src/fensu/config/_helpers/path_patterns.py:34-46 | specificities compare as tuples do, by the first component in which they differ, and any two are comparable |
| PathDominance.SpelledPathDominates | src/fensu/config/_helpers/path_patterns.py:34-46 | no canonical pattern that matches such a path is more specific than the path, and only the path itself is as specific |
| PathDominance.MostSpecificExactly | src/fensu/config/_helpers/path_patterns.py:34-46 | a path is at least as specific as everything that matches it if and only if it has no two stars together and is not a name below star directories only |
| ExactPaths.MostSpecificOfLegalExactly | src/fensu/config/_helpers/validate.py:551-575 | among the patterns that configuration accepts, too, a path is at least as specific as everything that matches it if and only if it has no two stars together and is not a name below star directories only |
| PathDominance.NameBeatsStarDirectory | src/fensu/config/_helpers/path_patterns.py:34-46 | the pattern `a` matches the path `*/a` and is more specific than it |
| PathDominance.SpelledPathMatchesItself | src/fensu/config/_helpers/path_patterns.py:18-24 | a path without neighbouring stars, used as a pattern, is legal and matches itself |
| PatternSpecificity.StrongestIsAnUpperBound | src/fensu/config/_helpers/path_patterns.py:49-59 | the specificity reported for a brace pattern is at least that of each matching expansion |
| PatternSpecificity.StrongestIsAttained | src/fensu/config/_helpers/path_patterns.py:49-59 | and it is that of some matching expansion |
| CandidateTable.WinnerIsUnique | src/fensu/config/_helpers/thresholds.py:17-34 | at most one matching override pattern beats all others by specificity, then order, then position |
| Thresholds.MatchingPathPatternSpecificity | src/fensu/config/_helpers/path_patterns.py:49-59 | the search over expansions returns the four counts of a matching one than which no other matching one is more specific, and nothing exactly when none matches |
| Thresholds.ResolveThreshold | src/fensu/config/_helpers/thresholds.py:12-52 | the nested loops return the value, reason and pattern of an override with a matching expansion such that every matching expansion of every override that sets the threshold has fewer star-free segments, or as many and fewer plain characters, then more `**`, then more other stars, or agrees in all and is declared no later; without any match the role's value, and without that the global one |
| Thresholds.PathOrderIrrelevant | src/fensu/config/_helpers/thresholds.py:17-34 | permuting or repeating the paths inside overrides changes neither which override wins nor its value and reason |
| Thresholds.StrengthAgainstSpelledPath | src/fensu/config/_helpers/path_patterns.py:49-59 | a brace pattern is as strong as such a path only by naming it in one of its expansions |
| Thresholds.ExactPathWins | src/fensu/config/_helpers/thresholds.py:17-34 | where some override names the exact path and the path is the most specific pattern for itself, the winner names it too and is declared no earlier |
| ExactPaths.NamingWinsExactly | src/fensu/config/_helpers/thresholds.py:17-34 | in every valid configuration where an override names a path, the winner names it, if and only if the path is the most specific pattern for itself or none that configuration accepts |
| DependencyLog.RecordValid | src/fensu/evaluation/_helpers/project_analysis.py:512-546 | recording keeps the log duplicate-free, every key answered and every answer one that its question can have |
| QueryMeanings.ModulePathMeaning | src/fensu/evaluation/_helpers/project_analysis.py:491-510 | the search leads to the first file in the order of sources of that package name, `a/b.py` before `a/b/__init__.py` and `__init__.py` for the package itself; to nothing exactly when none of these is a file; and raises exactly when nothing but empty parts follow the name of some source's package |
| QueryMeanings.LeadsToOne | src/fensu/evaluation/_helpers/project_analysis.py:491-510 | the files lead to one result only |
| QueryMeanings.ReferenceMeaning | src/fensu/evaluation/_helpers/project_analysis.py:191-510 | the memo-free answer of every query kind, written out: strict or tolerant parse, decoded text, first function of a name, entry points of the UTF-8 metadata, file tests, listings, and the first path in order as an anchor |
| DependencyLog.RecordedMeaning | src/fensu/evaluation/_helpers/project_analysis.py:512-546 | after recording a list of observations all of them are in the log and nothing recorded before is lost |
| ProjectAnalysis.ProjectAnalysis.RecordAnswer | src/fensu/evaluation/_helpers/project_analysis.py:512-546 | an answered question enters the log with its resolved requester, its absolute and its resolved path unless its requester, spelling, kind, pattern and recursion are there; global list, set and per-requester lists stay in step |
| ProjectAnalysis.ProjectAnalysis.DependenciesFor | src/fensu/evaluation/_helpers/project_analysis.py:254-258 | a requester's list holds the dependencies at the rising places of the global list where that requester stands, all of them |
| ProjectAnalysis.ProjectAnalysis.TakeParsedModule | src/fensu/evaluation/_helpers/project_analysis.py:167-180 | handing out a parse and evicting it keeps every table right; a source that does not parse changes nothing |
| ProjectAnalysis.ProjectAnalysis.Prewarm | src/fensu/evaluation/_helpers/project_analysis.py:182-189 | adopting a parse made ahead of time keeps every table right |
| ProjectAnalysis.ProjectAnalysis.QueryAnalysis | src/fensu/evaluation/_helpers/project_analysis.py:191-226 | the analysis is a function of the file system; the stored answer that is recorded always exists and is the source's identity, or nothing when it does not decode |
| ProjectAnalysis.ProjectAnalysis.QueryNativeSource | src/fensu/evaluation/_helpers/project_analysis.py:228-247 | the same for a decoded source |
| ProjectAnalysis.ProjectAnalysis.QueryDataclasses | src/fensu/evaluation/_helpers/project_analysis.py:309-326 | dataclasses come from the memo or from the analysis with the same answer and the same record |
| ProjectAnalysis.ProjectAnalysis.QueryEntrypointModules | src/fensu/evaluation/_helpers/project_analysis.py:366-384 | entry modules are those of the metadata; an undecodable file is recorded as absent |
| ProjectAnalysis.ProjectAnalysis.QueryEntrypointSymbols | src/fensu/evaluation/_helpers/project_analysis.py:386-390 | entry symbols go through the same question |
| ProjectAnalysis.ProjectAnalysis.QueryExists | src/fensu/evaluation/_helpers/project_analysis.py:392-407 | existence from the memo is existence in the world |
| ProjectAnalysis.ProjectAnalysis.QueryIsDir | src/fensu/evaluation/_helpers/project_analysis.py:409-424 | likewise for directories |
| ProjectAnalysis.ProjectAnalysis.QueryIsFile | src/fensu/evaluation/_helpers/project_analysis.py:426-441 | likewise for files |
| ProjectAnalysis.ProjectAnalysis.QueryDirectoryEntries | src/fensu/evaluation/_helpers/project_analysis.py:328-345 | entries of a directory, recorded; for anything else the query raises and records nothing |
| ProjectAnalysis.ProjectAnalysis.QueryGlob | src/fensu/evaluation/_helpers/project_analysis.py:443-471 | matches of a pattern, recorded with pattern and recursion |
| ProjectAnalysis.ProjectAnalysis.QueryPythonAnchor | src/fensu/evaluation/_helpers/project_analysis.py:473-489 | the directory's `__init__.py`, else its first module in order, else the first anywhere below it, recorded |
| ProjectAnalysis.ProjectAnalysis.FindModule | src/fensu/evaluation/_helpers/project_analysis.py:491-510 | the parts of a module's name lead where the files say, and nowhere else, and exactly the checks up to the file are recorded |
| ProjectAnalysis.ProjectAnalysis.QueryModuleFunction | src/fensu/evaluation/_helpers/project_analysis.py:347-364 | the first function of the name in the file that the module's name leads to, nothing without file, analysis or function; every step is recorded |
| Evaluation.AnswerQuery | src/fensu/evaluation/_helpers/project_analysis.py:191-510 | every query, in every reachable state, gives the reference answer, keeps all tables right and extends the log by its footprint |
| Evaluation.RunRule | src/fensu/evaluation/_helpers/project_analysis.py:191-546 | a whole run of an adaptive rule that finishes, failing queries and looks at the log included, ends with the result of a run whose every response is memo-free; each question extends the log by exactly its footprint, recorded for the requester it names, and each look leaves it alone |
| Replay.RunIsUnique | src/fensu/analysis/classes/query_observer.py:22-23 | a run that ignores the log is the only one in its world, whatever was asked before and by whom |
| Replay.QuietRulesAreBounded | src/fensu/analysis/classes/query_observer.py:22-23 | if a rule has a run that ignores the log, it finishes from every log within as many steps |
| Replay.TrailMeaning | src/fensu/evaluation/_helpers/project_analysis.py:512-546 | along a run the log stays valid and only grows, and every question of the run gets into it |
| Replay.SameQuery | src/fensu/analysis/classes/query_observer.py:25-117 | worlds that agree on a query's footprint agree on its answer and on its footprint, multi-step lookups included, unless the query is a listing that fails |
| Replay.ReplaySound | src/fensu/evaluation/_helpers/project_analysis.py:512-546 | if everything recorded for the requester holds in a second world, the rule has the same run there from every log, question by question, provided it ignored the log, no listing failed and no question named another requester |
| ReplayLimits.FailedListingIsUnsafe | src/fensu/evaluation/_helpers/project_analysis.py:328-345 | a rule that lists a missing directory and reports the failure records nothing, and is reused wrongly once the directory is there |
| ReplayLimits.ForeignQuestionIsUnsafe | src/fensu/evaluation/classes/rule_project.py:186-187 | a question that names another requester is missing from the rule's own dependencies, and reuse is wrong once its answer changes |
| ReplayLimits.ListedLogIsUnsafe | src/fensu/evaluation/classes/rule_project.py:171-179 | a rule that lists the recorded dependencies, all or one requester's, records nothing by it, and is reused wrongly in the very same world |
| ReplayLimits.IncoherentMetadataIsUnsafe | src/fensu/evaluation/_helpers/project_analysis.py:366-390 | metadata that decodes in one way only allows a rule, a log and a second world where reuse is wrong |
| ReplayLimits.ReplaySafeExactly | src/fensu/evaluation/_helpers/project_analysis.py:249-546 | over all rules, runs, logs and second worlds, reuse is safe if and only if runs are known to ignore the log, the recorded world's metadata is coherent, every listing that the runs may ask for succeeds, and questions are recorded for the run's own requester |
| SourceCoordinates.LineStartsAreTheLineBeginnings | crates/fensu-facts/src/positions/_helpers/line_index.rs:5-13 | line starts are the text's start and the places after newlines, no others |
| SourceCoordinates.LocationNamesOffset | crates/fensu-typescript/src/parser.rs:189-204 | the scanned line is the one that holds the offset, and its beginning plus the column is the offset |
| SourceCoordinates.LocationIsUnique | crates/fensu-typescript/src/parser.rs:189-204 | no other line holds the offset |
| SourceCoordinates.SpanMeaning | crates/fensu-typescript/src/parser.rs:189-204 | a span that starts outside the text is moved to its end, one that ends before it starts becomes empty, and it has the line and column of its start |
| SourceCoordinates.LocationsAreDistinct | crates/fensu-svelte/src/parser.rs:376-391 | two offsets of one text never share a line and a column |
| SourceCoordinates.ShiftingKeepsTheText | crates/fensu-svelte/src/parser.rs:393-399 | a shifted span selects the same bytes, moves down by the lines before the embedded text, and moves sideways on its first line only |
| SourceCoordinates.ShiftingIsLocating | crates/fensu-svelte/src/parser.rs:393-399 | shifting a located span is scanning the whole source at the shifted offsets |
| SourceCoordinates.ShiftsCompose | crates/fensu-svelte/src/parser.rs:393-399 | text embedded in embedded text may be shifted in one step or in two |
| SourceCoordinates.UnwrappedMeaning | crates/fensu-typescript/src/parser.rs:105-133 | the prefix is taken off the span of a diagnostic, and what lies outside the text is moved to its nearer end |
| SourceCoordinates.UnwrappedDiagnosticsStayInside | crates/fensu-typescript/src/parser.rs:105-133 | whatever span the inner parser reports, clamped and shifted it lies inside the embedded text |
| SourceCoordinates.UnwrappedDiagnosticsKeepTheText | crates/fensu-svelte/src/parser.rs:543-549 | a span reported inside the wrapped text selects the same bytes of the source |
| LineIndices.LineStartOffsets | crates/fensu-facts/src/positions/_helpers/line_index.rs:5-13 | the loop collects the line starts |
| LineIndices.PartitionPoint | crates/fensu-facts/src/positions/models.rs:34-56 | halving finds the boundary between starts at or before the offset and later ones |
| LineIndices.IndexAgreesWithScan | crates/fensu-facts/src/positions/models.rs:34-56 | for every text and offset the index gives the scan's line and column, cut off at 32 bits, and the line's beginning is offset minus column |
| LineIndices.UnderflowExactly | crates/fensu-facts/src/positions/models.rs:36-43 | the subtraction underflows exactly when no line begins at or before the offset |
| LineIndices.MonotoneExactly | crates/fensu-facts/src/positions/models.rs:34-47 | locations follow offsets if and only if lines past the last 32-bit number are empty |
| LineIndices.LaterOffsetLocatedEarlier | crates/fensu-facts/src/positions/models.rs:34-47 | the index of a text of 4294967295 lines with a character each locates its end before its last newline |
| Utf8.ValidExactly | crates/fensu-svelte/src/parser.rs:99-101 | the byte table admits exactly the encodings of texts, in which the bits of a character stand in groups of six |
| Utf8.SameShapeSameValidity | crates/fensu-svelte/src/parser.rs:99-101 | exchanging single-byte characters for others keeps a text well formed or ill formed |
| TagNames.RewritingMeaning | crates/fensu-svelte/src/parser.rs:65-102 | a byte becomes a dash exactly when it is a dot that is reached by a name behind `<` or `</`, where names begin with a letter, `_` or `$` and go on with these, digits, `:`, `-` and `.` |
| TagNames.RewritingIsIdempotent | crates/fensu-svelte/src/parser.rs:65-102 | the rewritten text has its tag names at the same places, without dots, and rewriting it again changes nothing |
| TagNames.RewritingKeepsOffsets | crates/fensu-svelte/src/parser.rs:65-102 | length, well-formedness, character boundaries and newlines are kept, so tree offsets stay valid |
| TagNames.ParserCompatibleSource | crates/fensu-svelte/src/parser.rs:65-102 | the loop borrows the text exactly when nothing changes and otherwise returns the declarative rewriting; its abort is unreachable |
| Chains.EndIsUnique | src/fensu/analysis/classes/rule_test_associator.py:92-129 | a chain of re-exports has at most one end |
| Reexports.StepMeaning | src/fensu/analysis/classes/rule_test_associator.py:92-142 | the search stops where the module is unknown or declares the name once, as a decorated rule; it goes on exactly where the module does not declare the name and all its absolute top-level imports that bind the name once agree on the target |
| Reexports.DotJoinedConcat | src/fensu/analysis/classes/rule_test_associator.py:139-142 | the name of a module is its parts with dots between them |
| Reexports.ResolveMeaning | src/fensu/analysis/classes/rule_test_associator.py:92-129 | resolution returns the end of the chain, and nothing exactly when the chain cycles or gets stuck |
| Reexports.FollowingKeepsTheAnswer | src/fensu/analysis/classes/rule_test_associator.py:92-129 | following one re-export does not change the answer |
| Associations.Associate | src/fensu/analysis/classes/rule_test_associator.py:28-90 | one association for every test and every rule that some call of the test evaluates, by the test's path, line and column, then the rule's module and name; each has the name from its first call, the places of all its calls and cases once by path, line and column, and whether some call's cases cannot be counted |
| Associations.ReexportedCallsMeet | src/fensu/analysis/classes/rule_test_associator.py:44-53 | a call against a re-export and a call against its target fall into one group |
| Associations.OrderIrrelevantExactly | src/fensu/analysis/classes/rule_test_associator.py:28-90 | order and repetition of calls are irrelevant if and only if calls of one group agree on the test's name |
| Associations.FirstCallNames | src/fensu/analysis/classes/rule_test_associator.py:28-90 | two calls at one test location under two names give different associations in the two orders |
| Sorting.SortedIsUnique | src/fensu/analysis/classes/rule_test_associator.py:66-75 | a strictly ordered listing of a set is the only one, so sorted output is determined |
| Sorting.TextLessMeaning | src/fensu/analysis/classes/rule_test_associator.py:66-75 | texts compare by the first code point in which they differ, a beginning before what it begins |
| SyntaxIndex.QueueIsLevelOrder | src/fensu/analysis/_helpers/building.py:11-31 | the queue yields the nodes level by level |
| SyntaxIndex.EveryNodeAsOften | src/fensu/analysis/_helpers/building.py:11-31 | every node is yielded as often as it stands in the tree, and nothing else is |
| SyntaxIndex.ChildrenStandTogether | src/fensu/analysis/_helpers/building.py:19-25 | a node's children stand side by side, in their order, behind it and behind the children of all earlier nodes |
| SyntaxIndex.IndexModuleNodes | src/fensu/analysis/_helpers/building.py:11-31 | for every tree, shared nodes or not, the traversal returns the level order, for every kind that occurs the nodes at the rising places of that kind, all of them, and the parent entries in order, a later parent replacing an earlier one |
| ParentTables.FiledMeaning | src/fensu/analysis/classes/file_analysis.py:92-94 | filing the keys of a table under their values gives each value the keys to which it was assigned last, in the order in which they were first assigned anything |
| SyntaxRelations.ParentsAndChildrenAreInverse | src/fensu/analysis/classes/file_analysis.py:89-97 | the parent table and the children table are inverse, shared leaves or not |
| SyntaxRelations.ListedChildren | src/fensu/analysis/classes/file_analysis.py:92-97 | only children of a node are listed for it, every child that stands nowhere else is, and the list is in the order in which the nodes were met first |
| SyntaxRelations.ListsItsChildrenExactly | src/fensu/analysis/classes/file_analysis.py:92-97 | a node lists exactly its children in their order if and only if each stands last below it and they were first met in that order |
| SyntaxRelations.SharedNodeComesFirst | src/fensu/analysis/classes/file_analysis.py:92-97 | a tree with a shared context node, as parsed from two assignments, where the list of children is out of order |
| SyntaxRelations.ChildrenAreTheChildren | src/fensu/analysis/classes/file_analysis.py:92-97 | the handles listed for a node whose children stand nowhere else are those of its children, in order |
| SyntaxRelations.ParentsComeFirst | src/fensu/analysis/classes/file_analysis.py:84-91 | every node but the module has a parent, which comes before it and holds it |
| SyntaxAncestors.AncestorsExactly | src/fensu/analysis/classes/relation_analysis.py:41-50 | every ancestor of a node encloses it, and its ancestors are all the nodes that do, if and only if the nodes that have it among their children lie one within the other |
| SyntaxAncestors.SharedNodeMissesAncestor | src/fensu/analysis/classes/relation_analysis.py:41-50 | the same tree holds its context node in two statements, neither within the other |
| SyntaxAncestors.Ancestors | src/fensu/analysis/classes/relation_analysis.py:41-54 | the ascent terminates with the path to the module, and unknown handles are refused |
| FileAnalysis.BuildRelations | src/fensu/analysis/classes/file_analysis.py:83-97 | for every order whose shared nodes are leaves, the loops over nodes and parent entries fill tables that relate the nodes |
| FileAnalysis.LazySyntaxArtifacts.EnsureIndexes | src/fensu/analysis/classes/lazy_syntax_artifacts.py:52-55 | indexes are made once and are the index of the tree |
| FileAnalysis.PythonFileAnalysis.EnsureQueries | src/fensu/analysis/classes/file_analysis.py:80-118 | relations are made once and relate the level order of the tree |
| FileAnalysis.PythonFileAnalysis.AncestorsOfHandle | src/fensu/analysis/classes/relation_analysis.py:41-54 | through the lazy objects, ancestors are enclosing nodes, nearest first, and all of them exactly when those that hold the node directly lie one within the other |
| ProjectPaths.NestedMeaning | src/fensu/config/_helpers/validate.py:449-451 | two roots are nested exactly when one begins the other, that is, when some path lies below both |
| ProjectPaths.ValidateNoNestedPaths | src/fensu/config/_helpers/validate.py:425-446 | roots are refused exactly when two are nested, and the first such pair is reported with its outer member |
| ProjectPaths.PathLessMeaning | src/fensu/discovery/_helpers/scope.py:54 | paths compare by the first part in which they differ |
| Ownership.ProjectionMeaning | src/fensu/discovery/_helpers/scope.py:83-94 | a test file mirrors a runtime root exactly when its directories spell one; a widest one is taken, at its first place |
| Ownership.MirrorMeaning | src/fensu/discovery/_helpers/scope.py:83-94 | the mirrored path is that of the first of the widest roots that the directories spell, followed by what stands behind the root's parts where they are first spelled |
| Ownership.SearchFindsFirstWidest | src/fensu/discovery/_helpers/scope.py:83-94 | searching by falling width takes the first of the widest mirrored roots in configured order |
| Ownership.SearchTestPath | src/fensu/discovery/_helpers/scope.py:83-94 | the nested search loops compute that projection |
| Ownership.OwnerMeaning | src/fensu/discovery/_helpers/scope.py:71-80 | the owner and the owned part make up the path, and no deeper ownership root lies above it |
| Ownership.PositionMeaning | src/fensu/discovery/_helpers/scope.py:57-80 | a tooling file and a test file without a mirror have no owner and own all their relative parts; any other file without an ownership root above it, or above what it mirrors, has no owner and no parts |
| Ownership.TestPartsAreASuffix | src/fensu/discovery/_helpers/scope.py:57-94 | a mirrored test file's owned part is a suffix of its own relative path |
| Ownership.RootPartsAreASuffixExactly | src/fensu/discovery/_helpers/scope.py:57-80 | a runtime file's owned part is a suffix of its relative path if and only if its owner does not lie above its root |
| Discovery.ValidateCrossScopeRoots | src/fensu/discovery/_helpers/layout.py:209-227 | a layout is refused exactly when a path is a configured root of two scopes, with the least such path |
| Discovery.DiscoverScopedFiles | src/fensu/discovery/_helpers/scope.py:15-80 | every file below a configured root is listed once, in order of path, and nothing else is; each has the scope and path of a configured root above it than which none is deeper, the parts below that root, and the owner and owned part of its scope |
| OwnershipOrder.TestOwnerOrderIrrelevantExactly | src/fensu/discovery/_helpers/scope.py:83-94 | the configured order of runtime roots, which may reorder and rename the ownership roots, leaves the owner's path and the owned part of a test file alone if and only if the widest roots it mirrors all lead to the same |
| OwnershipOrder.TiedRootsDisagree | src/fensu/discovery/_helpers/scope.py:83-94 | two layouts with the same two roots in either order give one test file different owners |
| OwnershipOrder.DefaultsAreReordered | src/fensu/discovery/_helpers/layout.py:68-82 | default layouts of the same runtime roots in another order are among those that the order theorems compare |
| OwnershipOrder.DecimalMeaning | src/fensu/discovery/_helpers/layout.py:74-80 | the index in a declaration is written in decimal digits without a leading zero |
| OwnershipOrder.DeclarationFollowsIndex | src/fensu/discovery/_helpers/layout.py:74-82 | a default owner is declared by the first index of its path |
| OwnershipOrder.DeclarationOrderIrrelevantExactly | src/fensu/discovery/_helpers/layout.py:74-82 | the declaration of a default owner is the same in every order of the runtime roots if and only if there is no owner or all roots lie at its path |
| OwnershipOrder.SwappedRootsRedeclare | src/fensu/discovery/_helpers/layout.py:74-82 | swapping two roots leaves a file's owner where it is and declares it by another index |
| Discovery.ConfigurationOrderIrrelevant | src/fensu/discovery/_helpers/scope.py:97-113 | the configured order of roots, default owners included, does not change a file's scope, root or relative path, nor the owner's path and the owned part of a file that is not a test, nor of a test file without ties |
| Discovery.OffsetIsInRange | src/fensu/evaluation/_helpers/native_rules.py:144-149 | with runtime roots that are not nested the native offset is in range and cuts off exactly the owned part |
| Discovery.NestedRootsMisplaceTheOffset | src/fensu/evaluation/_helpers/native_rules.py:144-149 | a layout with nested runtime roots where the offset is negative |
| TargetRoots.NormalizeTargetRoot | src/fensu/config/_helpers/validate.py:240-259 | the stack loop computes the normal root, or the right refusal; a value is refused as not relative exactly when it begins with a slash or a backslash or has a colon in second place |
| TargetRoots.DetoursCancel | src/fensu/config/_helpers/validate.py:250-258 | a step into a directory and back out of it may be left out anywhere |
| TargetRoots.NormalizedMeaning | src/fensu/config/_helpers/validate.py:240-259 | a relative value is refused exactly when some prefix ascends above the repository; otherwise the root has only proper names and leads to the same directory |
| TargetRoots.FixedPointExactly | src/fensu/config/_helpers/validate.py:240-259 | a normal root is a fixed point if and only if it does not read as a drive |
| TargetRoots.DriveAppears | src/fensu/config/_helpers/validate.py:240-259 | detours whose normal root reads as a drive are accepted, and the root is refused |
| TargetRoots.ConfigurationDirectory | src/fensu/config/main/configuration_directory.py:6-12 | for every root, the ascent drops one directory per part of the root's path, a leading slash being a part, and stops at the top |
| TargetRoots.ReturnToRepository | src/fensu/config/main/configuration_directory.py:6-12 | ascending from a target's directory by its normal root returns to the repository |
| RuleSelectors.SelectionMeaning | crates/fensu-policy/src/policy/types.rs:19-28 | the exact codes are a namespace, one of 26 letters and three of ten digits, and a selector picks those that it begins |
| RuleSelectors.SelectorsArePrefixes | crates/fensu-policy/src/policy/models.rs:60-86 | a selector is valid if and only if it is a non-empty beginning of some exact code |
| RuleSelectors.GrammarMeaning | crates/fensu-policy/src/policy/models.rs:28-50 | a grammar is made exactly of two different non-empty namespaces of upper-case letters, the custom one with an X in front |
| RuleSelectors.NamespacesAreDisjoint | crates/fensu-policy/src/policy/models.rs:29-58 | in a grammar that is accepted no code belongs to both namespaces |
| RuleSelectors.SelectionsNestOrAreDisjoint | crates/fensu-policy/src/policy/types.rs:24-28 | two selectors pick nested sets of codes when one begins the other, and disjoint sets exactly otherwise |
| LineCounts.SplitLosesNothing | src/fensu/analysis/_helpers/locations.py:24-26 | the kept lines concatenate to the text |
| LineCounts.SplitExactly | src/fensu/analysis/_helpers/locations.py:24-26 | the reference split is the only way to cut a text into lines with at most one break each, all but the last with one, and no carriage return cut off from its newline |
| LineCounts.LineMeaning | src/fensu/analysis/classes/text_analysis.py:19-20 | a kept line is the line, which holds no break, followed by one break, which only the last line may lack |
| LineCounts.Line | src/fensu/analysis/classes/text_analysis.py:28-33 | a line is returned for exactly the numbers of lines |
| LineCounts.SourceLineCount | crates/fensu-facts/src/extension/models.rs:198-214 | the peeking loop counts the lines of the reference split, a carriage return and newline as one break |
| LineCounts.LineOffsets | src/fensu/analysis/_helpers/locations.py:19-27 | the loop collects the offsets at which lines begin, in bytes of the UTF-8 encoding |
| LineCounts.OffsetsRise | src/fensu/analysis/_helpers/locations.py:19-27 | offsets rise strictly from zero to the encoded length, one more of them than lines |
| SourceRanges.SourceRange | src/fensu/analysis/_helpers/locations.py:31-55 | the range of a node with a position selects its bytes in the encoded text if and only if the text before its last line has no line boundary but newlines and carriage returns; it never begins or ends too late |
| SourceRanges.FormFeedShiftsRange | src/fensu/analysis/_helpers/locations.py:31-55 | a text with a form feed where the range of a name begins too early |

## Left out

- ReplaySound: both worlds share path resolution, the working directory and the discovered tree; links that change between record and replay, and a changed file set or layout, are not modelled.
- RunRule: patterns that `pathlib` refuses raise before anything is recorded, whatever the world; such runs are not modelled, nor are refusals of the file system other than those of a listing.
- AnswerQuery: tree and graph query recording and the architecture graph are not modelled, nor are operation counters; queries outside the listed kinds do not occur.
- Prewarm: the adopted parse is required to be that of a discovered file in this world, as the evaluation's own batch supplies it.
- TakeParsedModule: only discovered files are handed out; a source that raises is one result, whichever error it raises.
- QueryModuleFunction: the module name is given as its parts, already split at the dots; parts that hold slashes are not modelled.
- CompilationPreservesMeaning: the expression is modelled as a datatype with a denotation; parsing of its text and escaping by `re.escape` are not, and paths are in normal form as the callers supply them.
- NormalizeTargetRoot: the Windows drive test is the colon in second place; separators of network shares are caught by the leading-slash test.
- IndexModuleNodes: a node is its identity, its kind and its children; a node that stands at several places is required, where handles are related, to have no children, as the parser's shared contexts and operators have none.
- SourceRange: positions are those that the parser reports for the text; nodes without a position, whose range is the whole text, are not modelled.
- DiscoverScopedFiles: the walk of each root is a parameter that meets exactly the files below the root, besides links and entries resolving elsewhere; directory tests and link resolution are inside it.
- OffsetIsInRange: configured ownership patterns are given resolved, each root beneath a runtime root; their expansion over the file system, their specificity contest and the unused-declaration errors are not modelled.
- SourceLineCount: texts are sequences of Unicode scalar values; lone surrogates, which cannot be encoded, do not occur.
- File contents, hashing, decoding, TOML and the parsers of Python, TypeScript and Svelte are functions of an environment; the fingerprint of a file is injective.
- The rule catalogue, per-rule logic, suppressions, the cache's storage, native execution plans, duplicate detection, call mapping, dead-code search and reports are not part of this model.
- The grammar of Fensu's own rule codes, with core and pack namespaces, is not part of this model; the grammar of a product's two namespaces is.
