# Deadname Remover — a verified model of the extension's core

Deadname Remover is a browser extension that replaces a user's deadnames
with their chosen names on the pages they visit. This project models its
core in Dafny and proves properties of the model:

- **Site scope resolver** (`SiteFiltering`). It matches allow-list and
  block-list patterns against the visited site. Literal patterns are
  matched with a boundary check. Patterns containing `*` are matched with
  a hand-written backtracking matcher that stands for the compiled regular
  expression. The resolver picks the longest match from each list and
  decides through the decision table.
- **Text substitution engine** (`Chars`, `Dom`, `TextMatching`,
  `Attributes`, `TextProcessing`, `Processor`, `Rescan`).
  - The boundary-safe, case-insensitive pattern of a deadname, and
    `caseMatchReplacement`.
  - `findMatches`, which collects every rule's matches and sorts them stably.
  - `replaceTextInNode`, which splits a text into runs and `mark` elements
    that carry the original text.
  - The attribute rewriting with its cached original.
  - The editable-content exclusions.
  - The depth-bounded walk of `processSubtree`.
  - The document title, and `revertAllReplacements`.
  - The page is a sequence of tokens in tree order: an opening tag with
    its element, a closing tag, or a text node. The `TextProcessor` and
    the `Page` are classes whose methods update them in place.
- **Change watcher** (`Observer`). The mutation queue and `queued` flag of
  `DOMObserver.setup` form a class. The frame callback is an explicit
  `Drain` step, and each queued record is dispatched to
  `processSubtree(…, 10)`.
- **Configuration helpers** (`Names`, `Validations`, `Migrations`,
  `Utils`, `ContentUtils`).
  - The three validators, the migration filters and the legacy conversion.
  - `haveNamesChanged`, `filterEmptyNamePairs`, `kebabToCamel`,
    `formatKeyboardShortcut` and `filterEmptyArraysFromDiff`.
  - `getDataKey`, and `createReplacementsMap`, which builds the ordered
    rule list.

`Seqs` and `Wrappers` hold generic sequence lemmas and `Option`.

The title record is overwritten on every `processDocument`
(services/textProcessor.ts:80), and the apostrophe and hyphen classes of
`createReplacementPattern` match only `'` and `-` (services/textProcessor.ts:15-16);
the model does the same.

## Model

| member | source | states |
|---|---|---|
| SiteFiltering.ExactPatternMeaning | services/siteFiltering.ts:129-139 | a literal pattern matches iff it equals the site, or is a proper prefix followed by `/`, `?` or `#` |
| SiteFiltering.CompileWildcard | services/siteFiltering.ts:116-119 | every `*` becomes a run atom and every other character a literal that stands for itself, position by position |
| SiteFiltering.WildcardMeaning | services/siteFiltering.ts:115-124 | the matcher accepts iff some choice of separator-free fillers for the stars spells an admissible prefix: the whole site, or a prefix followed by a separator |
| SiteFiltering.GlobWitness | services/siteFiltering.ts:119-123 | every accepted site yields fillers for the stars that contain no separator and spell an admissible prefix |
| SiteFiltering.GlobFromFills | services/siteFiltering.ts:119-123 | conversely, any such fillers make the matcher accept |
| SiteFiltering.StarFreeGlobIsExact | services/siteFiltering.ts:102-110 | on a star-free pattern the wildcard matcher and the literal matcher agree |
| SiteFiltering.MatchingEntries | services/siteFiltering.ts:87 | the filtered entries are exactly the list entries that match the site |
| SiteFiltering.LongestIsFirstMaximal | services/siteFiltering.ts:92 | the `reduce` returns an element of maximal length, and no earlier element is as long |
| SiteFiltering.MatchingEntriesIndex | services/siteFiltering.ts:87 | each filtered entry comes from a list position, and every earlier matching entry appears before it in the filtered list |
| SiteFiltering.GetMostSpecificMatch | services/siteFiltering.ts:86-93 | null iff no entry matches; otherwise a matching entry of maximal length, and the earliest such entry |
| SiteFiltering.SiteString | services/siteFiltering.ts:168-169 | the site is the hostname with one leading `www.` removed, followed by the pathname |
| SiteFiltering.ShouldParseSite | services/siteFiltering.ts:162-225 | the returned matches are the two computed matches; `extension_disabled` is never returned; `shouldParse` holds iff the reason is `enabled` or `allowed_by_allowlist` |
| SiteFiltering.DefaultAllowWithoutBlock | services/siteFiltering.ts:173-181 | in default-allow mode, no block match (or only an empty-string one, which is falsy) gives parse with reason `enabled`, whatever the allow match |
| SiteFiltering.DefaultAllowBlockOnly | services/siteFiltering.ts:182-189 | in default-allow mode, a non-empty block match and no non-empty allow match give no parse, `blocked_by_blocklist` |
| SiteFiltering.DefaultDenyWithoutAllow | services/siteFiltering.ts:200-207 | in default-deny mode, no non-empty allow match gives no parse, `blocked_by_default` |
| SiteFiltering.DefaultDenyAllowOnly | services/siteFiltering.ts:208-215 | in default-deny mode, a non-empty allow match and no non-empty block match give parse, `allowed_by_allowlist` |
| SiteFiltering.BothMatchesLongerWins | services/siteFiltering.ts:191-223 | with both matches non-empty, in either mode, parse iff the allow match is at least as long as the block match (ties favour allow); the reason follows the winner |
| Chars.CaseLaws | services/textProcessor.ts:33-35 | the character case mappings are idempotent, undo each other up to case, and keep letter-ness |
| Chars.CaseTestsMeaning | services/textProcessor.ts:33-34 | the `original === original.toUpperCase()` and `toLowerCase()` tests are fixed-point tests of the string mappings |
| Chars.SameUpToCaseIsLowerEqual | services/textProcessor.ts:18 | case-insensitive equality (the `i` flag) is equality after lower-casing |
| Chars.LowerOfUpper | services/textProcessor.ts:33 | lower-casing an upper-cased string is lower-casing it |
| TextMatching.CreateReplacementPattern | services/textProcessor.ts:12-19 | one pattern atom per character of the name |
| TextMatching.PatternMeaning | services/textProcessor.ts:12-19 | the pattern accepts a window of the text iff the window equals the name up to case; metacharacters are taken literally, and `'` and `-` match only themselves |
| TextMatching.CompileCharAccepts | services/textProcessor.ts:13-16 | one compiled character accepts exactly the characters equal to it up to case |
| TextMatching.NextMatch | services/textProcessor.ts:176 | `exec` from `lastIndex` finds the leftmost match at or after it, and none is skipped; no result means no match from there on |
| TextMatching.MatchesFromAt | services/textProcessor.ts:176-183 | each collected match belongs to its rule, is at or after the start, is a genuine match of the text, and ends before the next one begins |
| TextMatching.MatchesFromOrdered | services/textProcessor.ts:176-183 | the matches of one rule are ordered and do not overlap |
| TextMatching.MatchesFromComplete | services/textProcessor.ts:176-183 | every position where the pattern matches lies inside some collected match |
| TextMatching.MatchesFromNext | services/textProcessor.ts:176-183 | one `exec` step: a found match is pushed and the search resumes at its end; no match ends the loop |
| TextMatching.CollectedSound | services/textProcessor.ts:173-184 | every collected match is a match of the text for one of the rules |
| TextMatching.CollectedHasRuleMatches | services/textProcessor.ts:173-184 | every match of every rule is collected |
| TextMatching.InsertPermutes | services/textProcessor.ts:188 | inserting into the sorted prefix keeps the multiset of matches |
| TextMatching.InsertSorted | services/textProcessor.ts:188 | inserting into a sorted sequence keeps it sorted by index |
| TextMatching.SortPermutes | services/textProcessor.ts:188 | the sort is a permutation of the collected matches |
| TextMatching.SortIsSorted | services/textProcessor.ts:188 | the sort orders matches by index, ascending |
| TextMatching.SortIsStable | services/textProcessor.ts:188 | matches at equal indices keep their collection order, that is rule order (the sort is stable) |
| TextMatching.FindMatchSound | services/textProcessor.ts:170-189 | every result of `findMatches` is a match of the text for one of the rules |
| TextMatching.FindMatchesInText | services/textProcessor.ts:170-189 | every result lies within the text at its index, and no matched text is empty |
| TextMatching.CaseMatchReplacement | services/textProcessor.ts:32-36 | the result has the replacement's length |
| TextMatching.CaseMatchKeepsLetters | services/textProcessor.ts:32-36 | all-upper gives upper(replacement); otherwise all-lower gives lower(replacement); otherwise the replacement with its first character upper-cased and the rest unchanged; always equal to the replacement up to case |
| TextMatching.NoLowerTakesUpperBranch | services/textProcessor.ts:33 | an original without lower-case letters (digits, punctuation) takes the upper-case branch |
| TextMatching.CaseMatchUpperVector | services/textProcessor.ts:33 | `JOHN` with `jane` gives `JANE` |
| TextMatching.CaseMatchLowerVector | services/textProcessor.ts:34 | `john` with `Jane` gives `jane` |
| TextMatching.CaseMatchMixedVector | services/textProcessor.ts:35 | `John` and `jOhN` with `jane` give `Jane` |
| TextMatching.JsSlice | services/textProcessor.ts:230 | `slice(a, b)` is the substring between the two positions, and empty when they are reversed |
| TextMatching.PiecesReconstruct | services/textProcessor.ts:218-251 | the runs and the marks' originals, concatenated, equal the original text |
| TextMatching.PiecesNoEmptyRun | services/textProcessor.ts:226-251 | no empty text run is emitted |
| TextMatching.PiecesMarks | services/textProcessor.ts:234-243 | one mark per placed match, in order, each carrying the match text as original and showing `caseMatchReplacement(match, replacement)` |
| TextMatching.KeptAllWhenDisjoint | services/textProcessor.ts:226-244 | for sorted matches that do not overlap, every match gets a mark |
| TextMatching.RuleMatchesDisjoint | services/textProcessor.ts:176-183 | one rule's matches never overlap, so all of them are placed |
| TextMatching.AsWrittenAgreesWhenDisjoint | services/textProcessor.ts:226-251 | on non-overlapping matches the fragment as written and the corrected fragment coincide |
| TextMatching.CollectedTwo | services/textProcessor.ts:173-184 | two rules collect the first rule's matches, then the second's |
| TextMatching.TwoRulesOneMatchEach | services/textProcessor.ts:170-189 | with one match per rule, in index order, `findMatches` returns both in that order |
| TextMatching.OverlapMatches | services/textProcessor.ts:170-189 | on `ann lee`, the rules `ann` and `ann lee` both match at index 0, the shorter first |
| TextMatching.AsWrittenSameStartTexts | services/textProcessor.ts:226-244 | as written, two matches at index 0 give two marks, whose originals repeat the shared prefix |
| TextMatching.OverlapAsWritten | services/textProcessor.ts:218-253 | as written, the fragment for `ann lee` carries the originals `annann lee`, not the text |
| TextMatching.OverlapAsWrittenOriginals | services/textProcessor.ts:218-253 | the originals of that fragment are `ann` followed by `ann lee` |
| TextMatching.PiecesSameStart | services/textProcessor.ts:226-251 | corrected, a second match at an already covered index is passed over and the rest of the text becomes one run |
| TextMatching.PiecesSameStartTexts | services/textProcessor.ts:226-251 | corrected, the fragment built from two matches at index 0 carries the text exactly |
| TextMatching.PiecesPassOver | services/textProcessor.ts:226-251 | corrected, a match starting before the covered end is skipped |
| TextMatching.OverlapCorrected | services/textProcessor.ts:218-253 | corrected, the fragment for `ann lee` carries the text `ann lee` exactly: one mark, then the run ` lee` |
| TextMatching.LowerOriginalCase | services/textProcessor.ts:34 | an all-lower original with a lower-case replacement keeps the replacement as it is |
| TextMatching.ReplaceAllNoMatch | services/textProcessor.ts:202 | `replaceAll` with no match leaves the value unchanged |
| Dom.TextAllowedMeaning | services/textProcessor.ts:296-317 | a text is processed iff no ancestor is a form element, a `script`/`style`/`noscript`/`template` element, or carries an excluded attribute value |
| Dom.ExcludedByMeaning | services/textProcessor.ts:306-312 | an element is excluded iff some table entry has its attribute present with a lower-cased value in the entry's list |
| Dom.BlocksTextDependsOnTable | services/textProcessor.ts:296-312 | the exclusion depends only on the tag and on the attributes the table names |
| Dom.MarkElementIsDeadnameMark | services/textProcessor.ts:235-238 | the created mark is a `mark[deadname]`, passes `shouldProcessElement`, and carries its original as `data-original` (that it does not block text is `Rescan.MarkAllowsText`) |
| Dom.DatasetOriginal | services/textProcessor.ts:237 | `dataset.original` is the attribute `data-original` |
| Attributes.CacheAttributeOf | services/textProcessor.ts:338-342 | for each of the five attributes, the cache attribute `getDataKey` writes is `data-deadname-<attr>` |
| Attributes.CacheOfWord | services/textProcessor.ts:209 | a one-word lower-case attribute is cached under `data-deadname-<attr>` |
| Attributes.CacheOfJoin | services/textProcessor.ts:209 | a hyphenated lower-case attribute is cached under `data-deadname-<attr>` |
| Attributes.CacheOfAria | services/textProcessor.ts:209 | `aria-label` and `aria-description` are cached under `data-deadname-aria-…` |
| Attributes.AccessibilityCachesPrefixed | services/textProcessor.ts:48-54 | each accessibility attribute's cache attribute is its name behind `data-deadname-` |
| Attributes.AccessibilityAttributesDistinct | services/textProcessor.ts:48-54 | the five attributes and their five cache attributes are ten distinct names |
| Attributes.ReservedUntouched | services/textProcessor.ts:274-294 | the exclusion-table attributes, `deadname` and `data-original` are neither rewritten nor used as caches |
| Attributes.RewriteUntouched | services/textProcessor.ts:196-215 | every attribute other than the listed ones and their caches is left as it was |
| Attributes.RewriteListed | services/textProcessor.ts:196-215 | a listed attribute is rewritten by the rules, in map order, and its old value cached, exactly when it is present, non-empty and changed; otherwise both are left alone |
| Attributes.RewriteCountIsChanged | services/textProcessor.ts:207-212 | `accessibilityAttributesUpdated` grows by the number of attributes whose value changed |
| Attributes.ProcessedKeeps | services/textProcessor.ts:191-216 | processing keeps the element's identity, its tag and all untouched attributes, so it cannot alter the exclusion decision |
| Attributes.RevertListed | services/textProcessor.ts:338-349 | revert restores a listed attribute from a present, non-empty cache and deletes the cache; otherwise it leaves both alone |
| Attributes.RevertUntouched | services/textProcessor.ts:338-349 | revert leaves every other attribute alone |
| Attributes.RevertRewrite | services/textProcessor.ts:196-349 | on an element without caches, revert after the rewrite gives back the original attributes |
| Attributes.RevertProcessed | services/textProcessor.ts:191-349 | reverting a processed, uncached element gives back the element |
| Attributes.RevertUncached | services/textProcessor.ts:338-349 | revert leaves an uncached element as it is |
| TextProcessing.RevertElements | services/textProcessor.ts:338-349 | the attribute revert keeps the number of tokens |
| TextProcessing.RevertElementsAt | services/textProcessor.ts:338-349 | the attribute revert acts on each token on its own |
| TextProcessing.RevertRender | services/textProcessor.ts:351-358 | reverting the marks of a rendered fragment gives back one text per piece holding its original |
| TextProcessing.ReplacedTextReverts | services/textProcessor.ts:218-358 | a replaced text node, reverted, gives back its characters exactly |
| TextProcessing.StepEmits | services/textProcessor.ts:115-140 | each node of the walk appends its output: the node, the processed element, or the fragment |
| TextProcessing.WalkFrom | services/textProcessor.ts:115 | the walk ends within the nodes of the subtree |
| TextProcessing.WalkEnds | services/textProcessor.ts:115 | the walk stops at the end of the subtree or when `processedDepth` reaches the depth |
| TextProcessing.WalkFromAdvance | services/textProcessor.ts:115-141 | the walk is the node steps applied in order, as long as it has not stopped |
| TextProcessing.Subtree | services/textProcessor.ts:106-142 | the walk of a subtree ends within the page |
| TextProcessing.WalkWithinDepth | services/textProcessor.ts:115-138 | at most `depth` elements are processed: `processedDepth` counts processed elements, not levels |
| TextProcessing.SubtreeDepthZero | services/textProcessor.ts:107 | depth 0 changes nothing |
| TextProcessing.StepUses | services/textProcessor.ts:127-139 | the counter grows only at a processed element that is not a deadname mark |
| TextProcessing.StackTracks | services/textProcessor.ts:144-168 | the walker's ancestor stack corresponds to the page's open elements, and its mark depth tracks whether it is inside a mark |
| TextProcessing.ExclusionSafety | services/textProcessor.ts:258-318 | a text node with an excluded ancestor is emitted unchanged and adds no replacement |
| TextProcessing.InsideMarkUntouched | services/textProcessor.ts:126-133 | a node inside a deadname mark is emitted unchanged and counts nothing |
| TextProcessing.MarkPassedOver | services/textProcessor.ts:126-133 | a `mark[deadname]` element is passed over without being processed |
| TextProcessing.WalkReverts | services/textProcessor.ts:106-359 | after any walk over a fresh page, reverting its output gives back the characters and elements walked over |
| TextProcessing.SubtreeThenRevert | services/textProcessor.ts:106-359 | `processSubtree` over a fresh page, then revert, gives back the page's content exactly |
| TextProcessing.TitleRewriteIsApplyRules | services/textProcessor.ts:81-88 | the `test` guard does not change the rewritten title: it is every rule applied in map order |
| TextProcessing.TitleHitsBound | services/textProcessor.ts:81-88 | the title adds at most one replacement per rule |
| TextProcessing.TitleRoundTrip | services/textProcessor.ts:79-336 | revert after `processDocument` gives back a non-empty title and clears the record |
| TextProcessing.TitleRecordOverwritten | services/textProcessor.ts:80-336 | after two `processDocument` calls, revert gives back the title as the first call left it |
| TextProcessing.RevertTitleClears | services/textProcessor.ts:333-336 | revert always clears the record, and without one leaves the title alone |
| Processor.Page.constructor | services/textProcessor.ts:39 | a page starts with no recorded title |
| Processor.TextProcessor.constructor | services/textProcessor.ts:41-46 | the counters start at zero |
| Processor.TextProcessor.ResetMetrics | services/textProcessor.ts:60-67 | the counters are zeroed |
| Processor.TextProcessor.ExecAll | services/textProcessor.ts:174-183 | the `exec` loop from `lastIndex = 0` pushes exactly the rule's matches, in order |
| Processor.TextProcessor.FindMatches | services/textProcessor.ts:170-189 | the result is the collected matches sorted stably by index |
| Processor.TextProcessor.ShouldProcessText | services/textProcessor.ts:258-318 | the ancestor loop returns true iff no ancestor blocks text |
| Processor.TextProcessor.ApplyAll | services/textProcessor.ts:200-205 | the value gets every rule's `replaceAll`, in map order |
| Processor.TextProcessor.ProcessElementNode | services/textProcessor.ts:191-216 | the element is replaced by its processed form and nothing else on the page changes; `nodesProcessed` grows by one and the attribute counter by the number of changed attributes |
| Processor.TextProcessor.BuildFragment | services/textProcessor.ts:222-251 | the `forEach` with `lastIndex`, corrected as in the second finding below: it builds the rendered pieces, passing over a match that starts before `lastIndex`, numbers one mark per kept match, and counts the kept matches |
| Processor.TextProcessor.ReplaceTextInNode | services/textProcessor.ts:218-256 | an empty value or a missing parent returns false and changes nothing; otherwise the node is replaced by the corrected fragment and `replacementsMade` grows by the number of kept matches (every match, when they do not overlap) |
| Processor.TextProcessor.Visit | services/textProcessor.ts:115-140 | one node of the iteration updates the page and the counters as one walk step does |
| Processor.TextProcessor.ProcessSubtree | services/textProcessor.ts:106-142 | a negative depth is the error and changes nothing; otherwise the page becomes the walked subtree spliced back, and the counters grow by the walk's counts |
| Processor.TextProcessor.ProcessDocument | services/textProcessor.ts:69-104 | a non-empty title is recorded (overwriting any record) and rewritten, counting one replacement per matching rule; then the whole page is walked without a depth bound |
| Processor.TextProcessor.RevertAllReplacements | services/textProcessor.ts:329-359 | the recorded title, if any, is restored and cleared; cached attributes are restored; marks with a non-empty original become their text |
| Processor.TextProcessor.RevertAttributes | services/textProcessor.ts:338-349 | the attribute loops, attribute by attribute over all elements, compute the attribute revert |
| Processor.TextProcessor.RevertMarkNodes | services/textProcessor.ts:351-358 | the mark loop, in document order, computes the mark revert |
| Rescan.DeadMatchesChosen | services/textProcessor.ts:18 | the deadname `ann` matches as a word inside the chosen name `ann marie` |
| Rescan.ChosenPieces | services/textProcessor.ts:218-251 | the text `ann marie` becomes a mark `ann`→`ann marie` and the run ` marie` |
| Rescan.Cycle | services/textProcessor.ts:115-253 | from a mark just inserted ahead of the iterator, the iteration as written never ends: each pass inserts a new mark around the text it just entered |
| Rescan.RootDiverges | services/textProcessor.ts:106-253 | as written, a processed element whose text opens with such a match makes `processSubtree` run forever, at any depth above 1 |
| Rescan.AsWrittenDiverges | services/textProcessor.ts:106-253 | as written, `<p>ann</p>` with the rule `ann`→`ann marie` never finishes, whatever the fuel |
| Rescan.CorrectedRoot | services/textProcessor.ts:106-253 | corrected, a one-element page with a matching text ends after its three nodes, holding the processed element around the fragment |
| Rescan.CorrectedOneMark | services/textProcessor.ts:106-253 | corrected, a text that becomes one mark ends as the element around that mark |
| Rescan.CorrectedEnds | services/textProcessor.ts:106-253 | corrected, `<p>ann</p>` with `ann`→`ann marie` ends with one mark showing `ann marie` |
| Observer.BodyOptionsDeliver | services/domObserver.ts:57-61 | attribute changes are not delivered; child-list and text changes in the whole subtree are |
| Observer.TargetsConcat | services/domObserver.ts:15-37 | the roots of two runs of records are the roots of their concatenation |
| Observer.AddedTargetsMembers | services/domObserver.ts:18-26 | a position is processed for an added-node list iff one of the nodes is an element there, or a text node whose parent element is there |
| Observer.NoTargets | services/domObserver.ts:16-36 | an attribute record, or a text change without a parent element, processes nothing |
| Observer.ReprocessAllConcat | services/domObserver.ts:42-47 | processing two runs of roots one after the other is processing their concatenation |
| Observer.DrainsCompose | services/domObserver.ts:39-55 | draining two queues one after the other leaves the page as draining their concatenation in one frame |
| Observer.ReprocessNothing | services/domObserver.ts:42-47 | draining an empty queue changes nothing |
| Observer.Batcher.constructor | services/domObserver.ts:39-40 | the queue starts empty, `queued` false, and no frame pending |
| Observer.Batcher.OnMutations | services/domObserver.ts:49-55 | the batch is appended in arrival order and `queued` set; a frame is requested only if none was pending, so at most one is pending |
| Observer.Batcher.Drain | services/domObserver.ts:42-47 | every queued record is processed in order, then the queue is emptied and `queued` cleared; the page becomes what processing the records' roots in order makes it |
| Observer.Batcher.ClearQueue | services/domObserver.ts:45-46 | the queue is emptied and `queued` cleared |
| Observer.Batcher.ProcessChanges | services/domObserver.ts:15-37 | the records are processed in order, each root by `processSubtree(…, 10)` |
| Observer.Batcher.ProcessRecord | services/domObserver.ts:17-35 | a `childList` record processes its added nodes, and a `characterData` record the target's parent element if there is one |
| Observer.Batcher.ProcessAddedNodes | services/domObserver.ts:18-26 | the added nodes are dispatched in order |
| Observer.Batcher.ProcessNode | services/domObserver.ts:19-25 | an element is processed itself, a text node through its parent element; any other node is ignored |
| Observer.Batcher.ProcessRoot | services/domObserver.ts:20-33 | one root is processed with depth 10 |
| Observer.DOMObserver.constructor | services/domObserver.ts:4-9 | a new watcher holds no observer |
| Observer.DOMObserver.Setup | services/domObserver.ts:11-62 | any observer is disconnected first, then exactly one new observer with an empty queue is connected |
| Observer.DOMObserver.Disconnect | services/domObserver.ts:64-69 | afterwards no observer is held, whether or not one was; a second call changes nothing |
| Validations.LowerDeads | utils/validations.ts:9 | the lower-cased deadnames, one per entry in the flattened order |
| Validations.IndexOf | utils/validations.ts:10 | `indexOf` is -1 iff absent, otherwise the first position holding the value |
| Validations.DuplicatesFromEmpty | utils/validations.ts:10-11 | the duplicate filter is empty iff every item sits at its first occurrence |
| Validations.NoDuplicateDeadnamesMeaning | utils/validations.ts:8-12 | true iff no two entries, in any categories, have deadnames equal after lower-casing |
| Validations.SelfMappingsOfEmpty | utils/validations.ts:21-22 | the self-mapping filter is empty iff no entry maps to itself |
| Validations.NoSelfMappingsMeaning | utils/validations.ts:19-23 | true iff no entry's deadname equals its chosen name ignoring case |
| Validations.SomeOtherMeaning | utils/validations.ts:36 | the inner `some` holds iff another entry's deadname equals this entry's chosen name ignoring case |
| Validations.SomeEntryMeaning | utils/validations.ts:35-37 | the outer `some` holds iff some entry's chosen name is another entry's deadname |
| Validations.NoRecursiveMappingsMeaning | utils/validations.ts:30-40 | true iff no entry's chosen name equals, ignoring case, the deadname of a different entry of the flattened list |
| Validations.ValidatorsAcceptEmpty | utils/validations.ts:8-40 | the three validators accept empty categories |
| Validations.ValidatorsKeepUnderRemoval | utils/validations.ts:8-40 | removing entries never turns an accepted configuration into a rejected one |
| Validations.ValidatorsIgnoreOrder | utils/validations.ts:8-40 | the results depend only on the multiset of entries: reordering, or moving entries between categories, changes nothing |
| Names.With | utils/migrations.ts:96-139 | assigning one category changes that category only |
| Names.NamesObject.Set | utils/migrations.ts:96-139 | `names[type] = …` replaces that category of the shared object |
| Migrations.ApplyToEachCategory | utils/migrations.ts:93-149 | the loop over `first`, `middle`, `last` filters each category of the object in place |
| Migrations.WithoutSelfMeaning | utils/migrations.ts:120 | exactly the entries whose two strings differ, compared case-sensitively, are kept; the filter is idempotent |
| Migrations.RemoveSelfMappings | utils/migrations.ts:114-124 | the result shares the input's names object, and each category loses its self-mappings, in order |
| Migrations.RecursiveFromMeaning | utils/migrations.ts:143-146 | the `some` holds iff another entry of the same array has this live name as its deadname and is not a self-mapping |
| Migrations.RemoveRecursiveMappings | utils/migrations.ts:134-152 | the result shares the names object, and each category keeps the entries judged against the original array |
| Migrations.SurvivorsNotRecursive | utils/migrations.ts:139-148 | no survivor's live name is the deadname of another non-self survivor of the same category |
| Migrations.RecursiveDropped | utils/migrations.ts:143-147 | a recursive entry is removed |
| Migrations.KeptWhenNoneRecursive | utils/migrations.ts:139-148 | with no recursive entries nothing is removed |
| Migrations.DedupedProperties | utils/migrations.ts:95-101 | the result has no repeated joined key, holds only input entries, covers every key, and is idempotent |
| Migrations.DedupFromIdentity | utils/migrations.ts:95-101 | a list with distinct keys, none seen yet, is kept whole |
| Migrations.DedupSharedKey | utils/migrations.ts:97-98 | of two entries with the same key, the first is kept |
| Migrations.DedupKeyCollision | utils/migrations.ts:97 | the entries (`a`, separator, `b`)→`c` and `a`→(`b`, separator, `c`) differ but join to the same key, so deduplication drops the second |
| Migrations.DedupList | utils/migrations.ts:95-101 | the `filter` with the `seen` set keeps the first entry of each key, in order |
| Migrations.DeduplicateNameMappings | utils/migrations.ts:89-105 | the result shares the names object, and each category is deduplicated |
| Migrations.ConvertedProperties | utils/migrations.ts:67-84 | a category has at most one entry per legacy deadname, all non-empty, and exactly the pairs whose two parts are non-empty |
| Migrations.ConvertedStep | utils/migrations.ts:67-84 | each legacy deadname adds at most one entry to a category, in order |
| Migrations.ConvertLegacyToNewFormat | utils/migrations.ts:52-87 | fresh names built from the legacy deadnames; the three flags from the legacy values, with null as false; sync on; every other field from the defaults |
| Migrations.SelfFilterIsCaseSensitive | utils/migrations.ts:120 | `A`→`a` survives the migration filter, yet the validator rejects it |
| Migrations.RecursiveFilterIsPerCategory | utils/migrations.ts:138-148 | a recursion across categories survives the per-category filter, yet the validator rejects it |
| Utils.KebabRoundTrip | utils/index.ts:62-64 | on a kebab-case name, the `dataset` naming undoes `kebabToCamel` |
| Utils.KebabToCamelLength | utils/index.ts:62-64 | `kebabToCamel` never lengthens a string and leaves a string without `-` unchanged |
| Utils.HaveNamesChanged | utils/index.ts:35-60 | true iff there is no previous value or some category differs in length or in a pair; so false on equal names |
| Utils.FormatKeyboardShortcut | utils/index.ts:72-91 | null for no shortcut; otherwise the modifiers, then the formatted key, joined by ` + ` |
| Utils.ModifierNamesMeaning | utils/index.ts:77-80 | each modifier appears iff it is set, in the fixed order Ctrl, Alt, Shift, Meta |
| Utils.ShortcutEndsWithKey | utils/index.ts:88-90 | the key comes last, behind ` + ` when there are modifiers |
| Utils.FormatKeyMeaning | utils/index.ts:83-86 | for every key: space gives `Space`, any other single character is upper-cased, `Escape` gives `Esc`, every other key is unchanged |
| Utils.FormatKeyVectors | utils/index.ts:83-86 | examples: `' '` gives `Space`, `Escape` gives `Esc`, `k` gives `K`, `ArrowUp` is unchanged |
| Utils.FilterEmptyNamePairs | utils/index.ts:99-114 | the loop over the four categories builds the filtered names |
| Utils.FilteredNamesShape | utils/index.ts:100-111 | exactly the categories `first`, `middle`, `last`, `email`, with `[]` for a missing one |
| Utils.FilteredNamesMembership | utils/index.ts:108-110 | a category keeps exactly its pairs that are not both empty |
| Utils.FilteredNamesIdempotent | utils/index.ts:99-114 | filtering twice is filtering once |
| Utils.FilterEmptyArraysFromDiffProperties | utils/index.ts:22-27 | exactly the `CREATE` changes of an `['', '']` array are dropped; the rest are kept in order; the filter distributes over concatenation and is idempotent |
| ContentUtils.GetDataKeyShape | entrypoints/content/utils.ts:91-93 | the key is `deadname`, then the attribute's first letter upper-cased, then the rest converted |
| ContentUtils.GetDataKeyAlt | entrypoints/content/utils.ts:91-93 | `alt` gives `deadnameAlt` |
| ContentUtils.DataKeyNamesAttribute | entrypoints/content/utils.ts:91-93 | for a kebab-case attribute, the key names `data-deadname-<attr>`, the attribute revert selects |
| ContentUtils.PrefixedKeyRoundTrip | entrypoints/content/utils.ts:91-93 | the `dataset` naming undoes the conversion of `prefix-attr` |
| ContentUtils.RulesOfMeaning | entrypoints/content/utils.ts:41-49 | one rule per entry, in category order then list order, with the entry's deadname and chosen name |
| ContentUtils.RulesOfValid | entrypoints/content/utils.ts:41-49 | entries with non-empty deadnames, as the settings schema guarantees, give rules the matcher accepts |
| ContentUtils.RulesOfConcat | entrypoints/content/utils.ts:43-46 | the rules of two runs of entries are the rules of their concatenation |
| ContentUtils.CreateReplacementsMap | entrypoints/content/utils.ts:41-49 | the nested loops insert one rule per entry across all categories, in insertion order |
| ContentUtils.AddEntries | entrypoints/content/utils.ts:44-46 | the inner loop appends one rule per entry of one category |

## Left out

- The storage, status and messaging methods of `SiteFiltering` (services/siteFiltering.ts:9-64) are storage and extension I/O. So are `checkAndMigrateSettings` and the upgrade notifications in utils/migrations.ts. `window.location` and `document.title` are inputs. The `document.title` getter strips and collapses whitespace, and the source reads the title back after each assignment, so the recorded title and each `test` see the normalised value; the model treats the title as a plain string and does not normalise it.
- `debugLog`, `errorLog` and `registerKeyboardShortcut` are left out. So are `blockContent`, `unblockContent`, `setStyle` and `waitUntilDOMReady`. They are logging and event-listener or CSS side effects.
- The JavaScript regular-expression engine is replaced by hand-written matchers. The Unicode letter class `\p{L}` and `toUpperCase`/`toLowerCase` are concrete stand-ins in `Chars`: ASCII and Latin-1 letters with their case pairs. The case laws of `Chars.CaseLaws` (idempotence, and `LowerChar(UpperChar(c)) == LowerChar(c)` with its converse) are proved for these stand-in tables only; they fail for full Unicode, where `ı`, `ſ`, `µ` and the Kelvin sign change to a different character when mapped there and back, and the `iu` regex flag folds characters (`ſ` with `s`) that lower-casing keeps apart. `Chars.LowerOfUpper`, `Chars.SameUpToCaseIsLowerEqual`, `TextMatching.PatternMeaning` and the up-to-case clause of `TextMatching.CaseMatchKeepsLetters` therefore hold for the stand-ins, not for the engine's full tables. Case mapping is character by character, so mappings that change length (`ß` → `SS`) are not modelled.
- `processingTime` and `performance.now` are wall-clock floating point, so the metrics hold only the three counters.
- `processedNodes` (a `WeakSet`) is not modelled. Every node put in it is the text node just replaced, which is no longer in the tree, so the `has` test never holds for a node the iterator can reach.
- The `return` when an element fails `shouldProcessElement` inside `processSubtree` (services/textProcessor.ts:137) is not modelled. The node filter already skips those elements, so the branch is unreachable.
- The DOM is a token sequence in tree order. A node iterator is a position in it, and `replaceChild` is a splice. Elements carry numeric ids, and a mark is created with the next free id. Detached nodes are not represented.
- The text processor is written against a fresh page: one without marks or caches left by an earlier run. The revert theorems assume this.
- `Processor.TextProcessor.BuildFragment`, `Processor.TextProcessor.ReplaceTextInNode` and `TextProcessing.Step` build the corrected fragment of the second finding below. They pass over a match that starts before `lastIndex` and count only the kept matches (`TextMatching.KeptMatches`), while services/textProcessor.ts:226-244 places every sorted match as a mark and counts each one. The as-written fragment is `TextMatching.AsWrittenPieces`. `TextMatching.AsWrittenAgreesWhenDisjoint` and `TextMatching.KeptAllWhenDisjoint` prove that the two fragments and the two counts agree whenever the matches do not overlap; one rule's matches never do (`TextMatching.RuleMatchesDisjoint`). `Processor.TextProcessor.Visit`, `Processor.TextProcessor.ProcessSubtree`, `Processor.TextProcessor.ProcessDocument` and `Observer.Batcher.Drain` inherit this through `TextProcessing.Step`.
- `TextProcessing.Subtree`: the walk used by the rest of the model is the corrected one from the first finding below. The as-written walk is modelled in `Rescan` with a fuel bound. Fuel there only measures non-termination.
- `Rescan.AsWrittenStep` does not update the metrics counters. They play no part in whether the walk ends.
- `TextMatching.FindMatchesSpec` gives the sort as a stable insertion sort on values. The source's `Array.prototype.sort` is in place.
- The frame scheduler (`requestAnimationFrame`) and `MutationObserver` delivery are runtime concurrency. A pending frame is a counter, `Drain` is the frame callback run explicitly, and the batches a mutation observer delivers are parameters of `OnMutations`.
- Observer: a node in a mutation record is named by its position in the page when the record is handled. A position past the end of the page stands for a node no longer in it, and processing it changes nothing.
- `Observer.Batcher.Drain`, `Observer.Batcher.ProcessChanges`, `Observer.Batcher.ProcessRecord`, `Observer.Batcher.ProcessAddedNodes`, `Observer.Batcher.ProcessNode` and `Observer.Batcher.ProcessRoot` require rules with non-empty deadnames (`ValidRules`), as do the `Processor.TextProcessor` methods that match text. The settings schema guarantees this through `createReplacementsMap` (see `ContentUtils.RulesOfValid`).
- `Observer.DOMObserver.Disconnect` does not model `MutationObserver.disconnect` itself. Draining does not read the observer field, so a frame already requested still runs after a disconnect.
- `Names`: the `email` category, which exists only in `filterEmptyNamePairs`, is modelled there as a string-keyed map. Elsewhere `Names` has the three categories of its type.
- `Utils.HaveNamesChanged` compares the three categories of the `Names` type, which are the categories present in `previous`.
- The valibot schema in utils/types.ts is library glue. Its trimmed non-empty strings appear as preconditions (`NonEmptyEntries`, `ValidRules`).

## Findings

| source | as written | input that shows it | evidently intended | confidence | as-written member | corrected member |
|---|---|---|---|---|---|---|
| services/textProcessor.ts:115-253 | after `replaceChild`, the node iterator goes on into the inserted fragment. It enters each new mark and matches its replacement text again; the depth bound does not count marks or texts | the rule `ann` → `ann marie` on `<p>ann</p>`: each pass wraps `ann` in a new mark, so `processSubtree` never returns | the walk continues after the inserted fragment and leaves mark contents alone, so every text node is replaced once | high (not executed) | Rescan.AsWrittenDiverges | Rescan.CorrectedEnds |
| services/textProcessor.ts:170-244 | matches of different rules may overlap. `replaceTextInNode` places every sorted match, even one that starts before `lastIndex`, so text is duplicated | the rules `ann` → `bea` and `ann lee` → `bea lee` on the text `ann lee`: two marks whose originals read `annann lee` | a match that starts inside text already replaced is passed over, so the runs and originals spell the text exactly | medium (not executed) | TextMatching.OverlapAsWritten | TextMatching.OverlapCorrected |
