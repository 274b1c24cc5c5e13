# A model of the deterministic CSS-selector resolver

The resolver takes an HTML page and a short Portuguese instruction, such as
`clico no botão Acessar` or `preencho o campo Login com o valor qapablo`. It
returns a CSS selector that matches exactly one element of the page, and that
element must be of the kind the action needs. It works in these steps:

1. `parse_task` turns the instruction into a task: an action (click, fill,
   select or enable), a normalised target name and an optional value.
2. `find_candidates` walks the document. It keeps the elements the action's
   filter accepts and whose score is positive. A score is the sum of the
   weights the element's text, attributes, labels and nearby texts earn
   against the target.
3. The candidates are sorted by score, highest first. Ties keep document order.
4. The resolver drops candidates of the wrong element type.
5. For each of the best 80 candidates, in order, it tries to build a unique
   selector. It first tries the element's own attributes (id, test
   attributes, name, descriptive attributes, classes). It then tries a
   structural chain: `tag:nth-of-type(k)` steps climbing towards the nearest
   ancestor that has a unique attribute selector.

The model has one module per concern. Each is a file of the same name:

| module | file | contents |
|---|---|---|
| `Wrappers` | `wrappers.dfy` | `Option` and the first position of an entry in a sequence |
| `Text` | `text.dfy` | `norm`, substring tests, the CSS identifier check, the attribute-equality text and its escaping |
| `Tasks` | `tasks.dfy` | the instruction patterns with whole-word keywords, and `parse_task` |
| `TaskRegex` | `taskregex.dfy` | the same patterns as written, matched character by character the way Python's regex engine backtracks |
| `Dom` | `dom.dfy` | the document and the `element_is_*` predicates |
| `Hints` | `hints.dfy` | `label_text_for_field`, `nearby_text_hints` |
| `Scoring` | `scoring.dfy` | the four `candidate_score_*` functions |
| `Candidates` | `candidates.dfy` | `find_candidates` and its stable sort |
| `Selectors` | `selectors.dfy` | selectors, what they match (`soup.select`), their text |
| `Synthesis` | `synthesis.dfy` | `build_selector_from_attrs`, `build_structural_selector`, `build_unique_selector` |
| `Resolver` | `resolver.dfy` | `matches_task_type` filtering and `resolve_selector` |

Most of the model is written in two forms:

- Code that computes values is written as functions.
- Code that loops and accumulates (the scorers, the label and hint collectors,
  the candidate walk, the selector builders, the resolver's loop) is written as
  methods with loop invariants. Each method is proved equal to the function
  that specifies it.

### How the document is represented

The parsed document is an arena, `Dom.Doc`:

- Node 0 is the parser's root, named `[document]`.
- Every other node is an element.
- An element's parent has a smaller index.
- Node indices follow document order, the order in which `find_all(True)` visits
  the elements. `Dom.Valid` enforces this. A node's children are listed in index
  order, and each element's parent is the node just before it or one of that
  node's ancestors, so every subtree occupies a contiguous run of indices.

### How selectors are represented

A selector is a sequence of compound steps joined by `>`. `Selectors.Query`
plays the part of `soup.select`: it returns the elements the selector matches,
in document order.

## Model

All source paths below are in `__init__.py`.

| member | source | states |
|---|---|---|
| `Text.Norm` | __init__.py:37-49 | models `norm`: strip, lower-case, collapse whitespace runs, then the accent replacements; its guarantees are `NormIsNormal` and `NormIdempotent` |
| `Text.Collapse` | __init__.py:40 | models `re.sub(r"\s+", " ", s)`; its guarantees are the `Collapse*` lemmas |
| `Text.SafeIdentAsWritten` | __init__.py:54-55 | models `safe_css_ident` as written: a letter or `_`, then letters, digits, `-`, `_`, `:` or `.` |
| `Text.SafeIdent` | __init__.py:54-55 | the corrected check, without `:` and `.`; `ReadIdentRoundTrip` is its guarantee |
| `Text.Lower` | __init__.py:38 | `lower()` leaves no capital letter, keeps whitespace as whitespace and changes nothing else |
| `Text.FoldAccent` | __init__.py:42-48 | the accent replacements leave no listed accent, keep whitespace and introduce no capital |
| `Text.TrimLeft` | __init__.py:38 | leading whitespace is removed and the first character left is not whitespace |
| `Text.TrimRight` | __init__.py:38 | trailing whitespace is removed; the result is a prefix of the input |
| `Text.Strip` | __init__.py:38 | `strip()` leaves no outer whitespace, is the identity on stripped text and adds no character |
| `Text.LowerStr` | __init__.py:38 | `lower()` maps every character through `Lower` |
| `Text.FoldAccents` | __init__.py:42-48 | the replace chain maps every character through `FoldAccent` |
| `Text.NormIsNormal` | __init__.py:37-49 | the output of `norm` is stripped, lower-case, accent-free, has single spaces only and no whitespace runs |
| `Text.CollapseEnds` | __init__.py:40 | the whitespace collapse keeps emptiness and keeps a non-space first and last character |
| `Text.CollapseChars` | __init__.py:40 | the collapse emits only single spaces and the input's own non-space characters |
| `Text.CollapseNoRuns` | __init__.py:40 | the collapse never leaves two whitespace characters in a row |
| `Text.CollapseFixed` | __init__.py:40 | text with only isolated single spaces is left unchanged by the collapse |
| `Text.NormFixed` | __init__.py:37-49 | every normal string is a fixed point of `norm` |
| `Text.NormIdempotent` | __init__.py:37-49 | `norm(norm(s)) == norm(s)` |
| `Text.NormEmpty` | __init__.py:38 | `norm("") == ""` |
| `Text.PlainWordNormal` | __init__.py:37-49 | a lower-case ASCII word is its own normal form |
| `Text.ReadIdent` | __init__.py:54-55 | after `#` or `.`, a CSS reader takes the longest run of identifier characters |
| `Text.ReadIdentRoundTrip` | __init__.py:54-55 | an identifier accepted by the corrected check reads back whole, whatever follows it |
| `Text.SafeIdentAdmitsClassDot` | __init__.py:54-55 | the check as written accepts `a.b`, which CSS reads as the identifier `a` |
| `Text.EscapeQuotes` | __init__.py:58 | as written, every `"` in the escaped value is preceded by a backslash |
| `Text.AttrEqualsAsWritten` | __init__.py:57-59 | `css_attr_equals` as written gives `[attr="…"]` |
| `Text.EscapeCss` | __init__.py:58 | the corrected escaping also precedes every `"` by a backslash |
| `Text.AttrEquals` | __init__.py:57-59 | the corrected `css_attr_equals` gives `[attr="…"]` |
| `Text.EscapeCssRoundTrip` | __init__.py:57-59 | with the corrected escaping, a CSS string reader returns the value exactly and stops at its closing quote |
| `Text.EscapeQuotesClosesEarly` | __init__.py:57-59 | as written, the value `\"` is read back as `\` and the string closes early |
| `Tasks.TakeWord` | __init__.py:74-76 | a word is the longest whitespace-free prefix |
| `Tasks.Tokenize` | __init__.py:108 | a stripped instruction splits into non-empty words |
| `Tasks.Join` | __init__.py:76 | a captured group of words is non-empty text without outer whitespace |
| `Tasks.Match` | __init__.py:72-105 | a successful match yields one non-empty capture per group, each made of words of the instruction |
| `Tasks.TryAlts` | __init__.py:72-105 | trying alternatives in order keeps the capture shape |
| `Tasks.TryGroup` | __init__.py:72-105 | a lazy group tried shortest first keeps the capture shape |
| `Tasks.Words` | __init__.py:108 | the stripped instruction's words are all non-empty |
| `Tasks.TaskOf` | __init__.py:110-128 | the task takes the group's action and a non-empty normal target; a value exactly for select and fill, stripped and non-empty |
| `Tasks.MatchShape` | __init__.py:72-105 | a match of the select or fill pattern has two captures and a match of the others has one |
| `Tasks.TryGroupOf` | __init__.py:110-128 | a group gives a task exactly when its pattern matches, with the shape `TaskOf` promises |
| `Tasks.ParseTask` | __init__.py:107-137 | a parsed task has a non-empty normal target and a value exactly for select and fill |
| `Tasks.PatternCaptures` | __init__.py:72-105 | the select and fill patterns capture twice; click and enable capture once |
| `Tasks.NormNonEmpty` | __init__.py:37-49 | `norm` of non-empty stripped text is non-empty |
| `Tasks.ReqHead` | __init__.py:72-105 | a required phrase matches only when one of its alternatives starts the words |
| `Tasks.VerbsDisjoint` | __init__.py:72-105 | no verb belongs to two actions, and `eu` is no verb |
| `Tasks.VerbLeads` | __init__.py:72-105 | a pattern matches only if its verb is the first word, or the second after `eu` |
| `Tasks.HeadLeads` | __init__.py:72-105 | an optional `eu` followed by a required one-word verb puts the verb first or second |
| `Tasks.GroupsExclusive` | __init__.py:72-105 | no instruction matches two groups, so the order in which groups are tried does not matter |
| `Tasks.ParseTaskAction` | __init__.py:107-128 | `parse_task` yields an action exactly when that action's pattern matches |
| `Tasks.ParseTaskRejects` | __init__.py:130-137 | `parse_task` raises exactly when no pattern matches |
| `Tasks.TakeWordOf` | __init__.py:108 | a word ends at the first whitespace character |
| `Tasks.TrimLeftOf` | __init__.py:108 | leading whitespace before a word is dropped and nothing else |
| `Tasks.TokenizeStep` | __init__.py:108 | a word followed by whitespace becomes one token that carries that whitespace |
| `Tasks.TokenizeLast` | __init__.py:108 | the last word becomes a token with nothing after it |
| `Tasks.FourWords` | __init__.py:108 | four words separated by single spaces become four tokens |
| `Tasks.KeywordsAbsent` | __init__.py:88-95 | an optional phrase none of whose alternatives starts the words is skipped |
| `Tasks.IntendedField` | __init__.py:91-92 | with whole-word keywords, a three-letter target is neither an article nor a field kind, and is captured whole |
| `Tasks.IntendedMatch` | __init__.py:88-95 | with whole-word keywords, `seleciono <w> com <v>` captures `<w>` and `<v>` |
| `Tasks.YearWords` | __init__.py:108 | `seleciono Ano com 2020` splits into four words |
| `Tasks.SelectYearIntended` | __init__.py:88-95 | with whole-word keywords, `seleciono Ano com 2020` selects `2020` in the field `ano` |
| `TaskRegex.Regex` | __init__.py:72-105 | models the four compiled patterns, element by element, with `bot[aã]o` and `op[cç][aã]o` spelt out |
| `TaskRegex.Match` | __init__.py:88-95 | a match of the pattern as written yields one capture per group, each non-empty and free of newlines |
| `TaskRegex.TryLit` | __init__.py:88-95 | matching from a keyword group on keeps the capture shape: one non-empty, newline-free capture per group |
| `TaskRegex.TryWs` | __init__.py:88-95 | matching from `\s*` or `\s+` on keeps the same capture shape |
| `TaskRegex.TryLazy` | __init__.py:88-95 | the capture `(.+?)` takes is non-empty and never crosses a newline |
| `TaskRegex.RegexCaptures` | __init__.py:72-105 | the select and fill patterns capture twice; click and enable capture once |
| `TaskRegex.TaskFrom` | __init__.py:107-128 | the task takes the group's action and a normal target, with a value exactly for select and fill |
| `TaskRegex.TryRegex` | __init__.py:107-128 | a group's pattern, when it matches, gives a task of that group's action with a normal target |
| `TaskRegex.ParseTaskAsWritten` | __init__.py:107-128 | `parse_task` as written: a parsed task has a normal target and a value exactly for select and fill |
| `TaskRegex.WsExact` | __init__.py:88-95 | whitespace taking exactly the run ahead moves on past it |
| `TaskRegex.WsGreedy` | __init__.py:88-95 | `\s*` takes the whole run when the rest then matches |
| `TaskRegex.WsMissing` | __init__.py:88-95 | `\s+` fails where no whitespace follows |
| `TaskRegex.TrailFails` | __init__.py:93 | `\s*$` fails before a character that is neither whitespace nor the final newline |
| `TaskRegex.TrailHolds` | __init__.py:93 | `\s*$` holds at the end of the text |
| `TaskRegex.LitHit` | __init__.py:88-95 | the first keyword alternative that fits and lets the rest match decides |
| `TaskRegex.LitMiss` | __init__.py:88-95 | a keyword group none of whose alternatives fits fails |
| `TaskRegex.MaybeSkip` | __init__.py:88-95 | an optional group whose keyword does not fit is skipped |
| `TaskRegex.MaybeTake` | __init__.py:88-95 | an optional group is taken when taking it lets the rest match |
| `TaskRegex.YearField` | __init__.py:91 | on `seleciono Ano com 2020`, `(?:o\|a)?` takes the `A` of `Ano` and no field kind follows |
| `TaskRegex.YearTail` | __init__.py:92-93 | from the `n` of `Ano`, `(.+?)` stops at the first ` com` and the value takes the rest |
| `TaskRegex.YearMatch` | __init__.py:88-95 | the select pattern as written captures `no` and `2020` from `seleciono Ano com 2020` |
| `TaskRegex.SelectYearAsWritten` | __init__.py:107-112 | as written, `seleciono Ano com 2020` selects `2020` in the field `no` |
| `Dom.IsClickable` | __init__.py:149-162 | models `element_is_clickable` branch by branch; the `*Clickable` lemmas state its promises |
| `Dom.IsField` | __init__.py:164-174 | models `element_is_field`; `UntypedInputIsText` and `InvalidTypeIsNoField` state its promises |
| `Dom.IsSelect` | __init__.py:176-184 | models `element_is_select`: a `select`, or the `combobox` or `listbox` role |
| `Dom.IsEnableTarget` | __init__.py:186-195 | models `element_is_enable_target`; `EnableTargetIff` states it as an iff |
| `Dom.Eligible` | __init__.py:356-362 | the per-action filter of `find_candidates` |
| `Dom.MatchesTaskType` | __init__.py:503-514 | models `matches_task_type`; `EligibleIsTypeMatch` relates it to the walk's filter |
| `Dom.ParentOf` | __init__.py:212 | an element's parent precedes it and lists it as a child |
| `Dom.ParentBelow` | __init__.py:233 | every node but the root has a parent with a smaller index |
| `Dom.ChildrenIn` | __init__.py:237 | a node's children are elements that name it as their parent, listed in document order |
| `Dom.UntypedInputIsText` | __init__.py:157-174 | an `input` without `type` counts as `text`: a field, not clickable |
| `Dom.InvalidTypeIsNoField` | __init__.py:170-173 | an `input` of a non-textual type is never a field |
| `Dom.ButtonIsClickable` | __init__.py:153-154 | a `button` is always clickable |
| `Dom.AnchorClickable` | __init__.py:155-156 | an anchor is clickable exactly when it has an `href` or the button role |
| `Dom.EnableTargetIff` | __init__.py:186-195 | enable targets are exactly checkbox inputs and the switch or checkbox roles |
| `Dom.EligibleIsTypeMatch` | __init__.py:503-514 | the filter `find_candidates` applies and `matches_task_type` agree for every action |
| `Wrappers.FirstIndex` | __init__.py:221 | the first position of an entry: of a text among the hints, of an element among its parent's children |
| `Hints.Labels` | __init__.py:201-221 | models `label_text_for_field`: the `for` labels, then the wrapping label, deduplicated; `LabelsShape` states its promises |
| `Hints.HintTexts` | __init__.py:223-245 | models `nearby_text_hints`; `HintsShape` states its promises |
| `Hints.DedupeSpec` | __init__.py:221 | `dict.fromkeys` keeps each text once, every text of the input survives, and the survivors keep their first-occurrence order |
| `Hints.NearestLabel` | __init__.py:212-219 | the upward search stops at a `label` ancestor |
| `Hints.CollectForLabels` | __init__.py:204-209 | the `label[for=id]` texts, in document order, empty ones skipped |
| `Hints.FindWrapLabel` | __init__.py:211-219 | the text of the nearest wrapping `label`, if non-empty |
| `Hints.LabelTexts` | __init__.py:201-221 | `label_text_for_field` returns deduplicated, non-empty, normal texts |
| `Hints.LabelsShape` | __init__.py:201-221 | the labels are distinct, non-empty and normal |
| `Hints.ForLabelsNormal` | __init__.py:204-209 | every `for` label text is non-empty and normal |
| `Hints.SourcesNormal` | __init__.py:204-219 | every collected label text is non-empty and normal |
| `Hints.CollectSiblingTexts` | __init__.py:237-243 | the loop over the parent's children computes the sibling texts |
| `Hints.NearbyHints` | __init__.py:223-245 | hints are distinct, non-empty, normal, at most `max_len` long, and each is the text of a sibling other than the field |
| `Hints.SiblingTextsFrom` | __init__.py:237-243 | every sibling text comes from a child other than the field and fits the length bound |
| `Hints.HintsShape` | __init__.py:223-245 | the hints are distinct, short, normal texts of the field's siblings |
| `Scoring.ClickScore` | __init__.py:251-279 | models `candidate_score_click`; `ClickScorePositive` and the bound lemmas state its promises |
| `Scoring.FieldScore` | __init__.py:281-313 | models `candidate_score_field`; `FieldScorePositive` states when it is positive |
| `Scoring.EnableScore` | __init__.py:315-346 | models `candidate_score_enable`; `EnableScorePositive` states when it is positive |
| `Scoring.SelectScore` | __init__.py:348-350 | models `candidate_score_select`, the field score plus 5 |
| `Scoring.Score` | __init__.py:356-387 | the scorer `find_candidates` uses for each action |
| `Scoring.Signal` | __init__.py:256-259 | a text earns a positive weight exactly when it names the target, and at most the larger of the two weights |
| `Scoring.WeighAttrs` | __init__.py:261-274 | the attribute loop computes the table's total |
| `Scoring.WeighTexts` | __init__.py:301-311 | the label and hint loops compute their totals |
| `Scoring.ScoreClick` | __init__.py:251-279 | the click scorer returns the text signal, the attribute table and the button bonus, summed as `ClickScore` specifies |
| `Scoring.ScoreLabelled` | __init__.py:281-346 | the field and enable scorers return the attribute table, the label and the hint totals, summed as `LabelledScore` specifies |
| `Scoring.ScoreTask` | __init__.py:356-387 | each action is scored by its own scorer, select by the field score plus 5 |
| `Scoring.AttrsScorePositive` | __init__.py:261-274 | a table scores above zero exactly when some non-empty attribute names the target |
| `Scoring.AttrsScoreWitness` | __init__.py:261-274 | a positive table score names the row that fired |
| `Scoring.AttrsScoreFires` | __init__.py:261-274 | one firing row makes the table score positive |
| `Scoring.AttrSignalPositive` | __init__.py:268-274 | an empty attribute is skipped; otherwise the row fires exactly when the value names the target |
| `Scoring.TextsScorePositive` | __init__.py:301-311 | label or hint texts score above zero exactly when one of them names the target |
| `Scoring.TextsScoreExact` | __init__.py:302-303 | a text equal to the target earns at least the exact weight |
| `Scoring.ClickScorePositive` | __init__.py:251-279 | the click score is positive exactly when the text or an attribute names the target |
| `Scoring.LabelledScorePositive` | __init__.py:281-346 | a field or enable score is positive exactly when an attribute, a label or a hint names the target |
| `Scoring.FieldScorePositive` | __init__.py:281-313 | the same, for fields |
| `Scoring.EnableScorePositive` | __init__.py:315-346 | the same, for enable targets |
| `Scoring.SelectScorePositive` | __init__.py:348-350 | the select score is the field score plus 5, so always positive |
| `Scoring.ExactLabelScore` | __init__.py:301-303 | a label equal to the target gives at least 120 |
| `Scoring.AttrsScoreBound` | __init__.py:271-274 | each attribute adds its exact or its substring weight, never both, so a table awards at most the sum of the larger weights |
| `Scoring.TextsScoreBound` | __init__.py:301-311 | each label or hint adds one weight, never both |
| `Candidates.Discovered` | __init__.py:352-387 | the candidate list before sorting; `DiscoveredSpec` states its contents |
| `Candidates.SortByScore` | __init__.py:389 | the stable descending sort; `SortPerm`, `SortRanked` and `SortIsRanking` state its promises |
| `Candidates.InsertPerm` | __init__.py:389 | insertion keeps every entry |
| `Candidates.InsertRanked` | __init__.py:389 | insertion keeps the order ranked |
| `Candidates.SortPerm` | __init__.py:389 | the sort is a permutation |
| `Candidates.SortRanked` | __init__.py:389 | the sort orders by score, highest first, and keeps document order on ties (a stable sort) |
| `Candidates.RankedUnique` | __init__.py:389 | two ranked arrangements of the same entries are equal |
| `Candidates.SortIsRanking` | __init__.py:389 | the sorted list is the one ranked arrangement of the discovered entries |
| `Candidates.GatherSpec` | __init__.py:356-387 | the walk records the accepted elements, in document order |
| `Candidates.DiscoveredSpec` | __init__.py:356-387 | before sorting, the list holds exactly the eligible elements with a positive score, in document order |
| `Candidates.Visit` | __init__.py:357-362 | one step of the walk: the filter, then the score, kept when positive |
| `Candidates.Walk` | __init__.py:352-387 | the walk loop computes the unsorted list |
| `Candidates.FindCandidates` | __init__.py:352-390 | the result is ranked and holds exactly the eligible elements with positive scores |
| `Selectors.TypeIndex` | __init__.py:474-480 | the 1-based position among the parent's children with the same tag |
| `Selectors.ChainMatches` | __init__.py:398-402 | what `soup.select` tests per element: the last step on the element, the others on its ancestors through `>` |
| `Selectors.Query` | __init__.py:398-402 | models `soup.select`; `QueryUpToSpec` states its promises |
| `Selectors.IsUnique` | __init__.py:404-406 | models `selector_is_unique`; `UniqueFromMatches` and `MatchesFromUnique` state it in terms of matching |
| `Selectors.Render` | __init__.py:485 | `" > ".join(...)` of the steps' texts |
| `Selectors.TypeIndexFollowsOrder` | __init__.py:474-480 | `nth-of-type` counts in document order: of two same-tag siblings, the one with the smaller index has the smaller type index |
| `Selectors.TypeIndexOrder` | __init__.py:474-480 | of two same-tag siblings, the earlier has the smaller `nth-of-type` index |
| `Selectors.SiblingsDiffer` | __init__.py:474-480 | distinct same-tag siblings have distinct indices |
| `Selectors.QueryUpToSpec` | __init__.py:398-402 | the query returns exactly the matching elements, in document order, each once |
| `Selectors.UniqueFromMatches` | __init__.py:404-406 | a selector that the element matches and no other element matches is unique |
| `Selectors.MatchesFromUnique` | __init__.py:404-406 | a unique selector matches the element and nothing else |
| `Selectors.RootStepMatchesNothing` | __init__.py:470-473 | no chain containing the `[document]` step matches in a document without a `document` attribute |
| `Selectors.NatToString` | __init__.py:481 | `str(idx)` is a non-empty string of digits |
| `Synthesis.FirstUnique` | __init__.py:408-450 | the first tried selector that is unique; `FirstUniqueSpec` and `FirstUniqueIndex` state its promises |
| `Synthesis.Anchor` | __init__.py:408-450 | models `build_selector_from_attrs`, with the corrected identifier check and escaping |
| `Synthesis.Climb` | __init__.py:457-483 | the corrected climb, which writes no step for the document root |
| `Synthesis.ClimbAsWritten` | __init__.py:457-483 | the climb as written, which writes `[document]` on reaching the root |
| `Synthesis.StructuralAsWritten` | __init__.py:452-488 | `build_structural_selector` as written; `RootStepNeverUnique` states its defect |
| `Synthesis.IdCandidates` | __init__.py:411-418 | the id selectors match the element |
| `Synthesis.TestCandidates` | __init__.py:420-428 | the test-attribute selectors match the element; there are none exactly when every test attribute is empty |
| `Synthesis.NameCandidates` | __init__.py:430-434 | the name selector matches the element |
| `Synthesis.SemanticCandidates` | __init__.py:436-441 | the descriptive-attribute selectors match the element; there are none exactly when every such attribute is empty |
| `Synthesis.ClassCandidates` | __init__.py:443-448 | the class selectors match the element and use checked identifiers |
| `Synthesis.AttrCandidates` | __init__.py:408-450 | every attribute selector tried matches the element and is an id, attribute or class selector |
| `Synthesis.NoAttrsNoCandidates` | __init__.py:408-450 | an element without attributes, and the root, has no attribute selector |
| `Synthesis.FirstUniqueSpec` | __init__.py:408-450 | the selector returned is one of those tried and is unique; `None` exactly when none is unique |
| `Synthesis.FirstUniqueIndex` | __init__.py:408-450 | every selector tried before the one returned was not unique |
| `Synthesis.BuildFromAttrs` | __init__.py:408-450 | the method returns the first unique attribute selector |
| `Synthesis.AnchorsSound` | __init__.py:464-467 | every anchor matches its element, is unique, and the root has none |
| `Synthesis.AnchorFits` | __init__.py:464-467 | one anchor matches its element and is unique |
| `Synthesis.RootAnchor` | __init__.py:464-473 | the root has no anchor |
| `Synthesis.Structural` | __init__.py:485-488 | a structural selector returned is unique for the element |
| `Synthesis.ClimbShape` | __init__.py:461-483 | the chain has at most 7 `nth-of-type` steps, plus one anchor only in front, and no root step |
| `Synthesis.ClimbMatches` | __init__.py:461-483 | the element matches its own structural chain |
| `Synthesis.AnchoredOnly` | __init__.py:461-483 | no other element matches a chain that ends at an anchor |
| `Synthesis.AnchoredIsUnique` | __init__.py:452-488 | a chain that reaches an anchor is always unique, so the structural builder then succeeds |
| `Synthesis.RootStepMisses` | __init__.py:469-473 | as written, a chain that reaches the root does not match its own element |
| `Synthesis.RootStepNeverUnique` | __init__.py:469-488 | as written, the structural builder returns `None` whenever the climb reaches the root |
| `Synthesis.NthIndex` | __init__.py:474-480 | the sibling loop computes the element's `nth-of-type` index |
| `Synthesis.Reversed` | __init__.py:485 | `reversed` keeps the length and mirrors every position |
| `Synthesis.FindAnchor` | __init__.py:464 | the anchor computed at a climb step is the one in the anchor table |
| `Synthesis.CollectChain` | __init__.py:457-483 | the climb loop collects the chain, innermost step first |
| `Synthesis.BuildStructural` | __init__.py:452-488 | the method returns the climbed chain when it is unique and `None` otherwise, with the root step corrected |
| `Synthesis.UniqueSelector` | __init__.py:490-497 | with the corrected climb, any selector returned is unique for the element |
| `Synthesis.BuildUnique` | __init__.py:490-497 | the method computes `UniqueSelector`, the builder with the corrected climb |
| `Synthesis.ExampleRootStep` | __init__.py:469-473 | on `<div><input></div>` the builder as written finds nothing, while the corrected one returns `div:nth-of-type(1) > input:nth-of-type(1)` |
| `Synthesis.ExampleUnique` | __init__.py:452-488 | that corrected selector matches the `input` and nothing else |
| `Synthesis.ExampleClimbs` | __init__.py:461-483 | the two chains of the example, with and without the root step |
| `Resolver.Pipeline` | __init__.py:525-543 | `resolve_selector` after parsing, for any table of built selectors |
| `Resolver.Resolution` | __init__.py:521-543 | `resolve_selector` with the intended parser and the corrected selector builders |
| `Resolver.OfType` | __init__.py:530 | the type filter keeps exactly the candidates of the action's type |
| `Resolver.Best` | __init__.py:535 | `cands[:80]` is the prefix of at most 80 entries |
| `Resolver.SelectorsSound` | __init__.py:490-497 | every selector `build_unique_selector` yields is unique for its element |
| `Resolver.FirstResolvedSpec` | __init__.py:535-541 | the loop returns the first candidate that has a selector; it finds none exactly when no candidate has one |
| `Resolver.Ranking` | __init__.py:525 | the ranked candidates are elements of the document |
| `Resolver.RankedCandidates` | __init__.py:525 | the ranked candidates are ranked and are exactly the eligible elements with positive scores |
| `Resolver.OfTypeRanked` | __init__.py:530 | filtering keeps the ranked order |
| `Resolver.OfTypeKeepsAll` | __init__.py:530 | a list already of the action's type passes the filter unchanged |
| `Resolver.TypeFilterKeepsAll` | __init__.py:525-530 | the type filter drops no candidate |
| `Resolver.NeverTypeMismatch` | __init__.py:531-532 | the "no candidate of the right type" error never occurs |
| `Resolver.ParseErrorIff` | __init__.py:523 | the resolver fails on parsing exactly when no pattern matches |
| `Resolver.RankingEmptyIff` | __init__.py:525-527 | the candidate list is empty exactly when no element is eligible with a positive score |
| `Resolver.NoCandidatesIff` | __init__.py:525-527 | "no candidates" is raised exactly when the instruction parses and no element is eligible with a positive score |
| `Resolver.PipelineResolved` | __init__.py:525-541 | a resolved selector is the first one found among the best 80 and is unique for its element |
| `Resolver.PipelineNoSelector` | __init__.py:535-543 | the final error is raised exactly when none of the best 80 has a selector |
| `Resolver.ResolvedSpec` | __init__.py:521-541 | a resolved selector matches exactly one element, which is one of the first 80 ranked candidates, of the action's type, eligible with a positive score, with no better-ranked candidate having a selector |
| `Resolver.NoUniqueSelectorIff` | __init__.py:535-543 | "no unique selector" exactly when there are candidates and none of the best 80 has a unique selector |
| `Resolver.PickSelector` | __init__.py:535-541 | the loop over `cands[:80]` returns the first candidate with a selector |
| `Resolver.Resolve` | __init__.py:521-543 | the method follows `Resolution`, which uses the corrected builders: a parse error, no candidates, a type mismatch, the first unique selector among the best 80, or no unique selector |

## Left out

- HTML parsing is left out. The model starts from the parsed document (`Dom.Doc`). Tag and attribute names are assumed lower-case, as the parser delivers them, so the source's `.lower()` on tag names is the identity.
- `get_text(" ", strip=True)` is left out. Each node carries its visible text as a field, and `visible_text` is `norm` of it.
- `soup.select` is modelled only for the selector shapes the resolver writes. Matching is on selector values, not on their text. The text is produced by `Selectors.Render`.
- The model assumes a CSS reader recovers the intended selector from that text. `Text.ReadIdentRoundTrip` and `Text.EscapeCssRoundTrip` prove this for the corrected identifier check and the corrected escaping, with the exception in the next line.
- `Text.EscapeCssRoundTrip`: its string reader accepts a raw `\n`, `\r` or `\f` inside the quotes, but CSS and `soupsieve` reject such a string. So the round trip is not established for attribute values containing a line break. In the source such a selector makes `soup.select` raise, `unique_select` returns `[]`, and that attribute is skipped. The model's `Selectors.IsUnique` works on selector values and accepts the selector instead.
- `unique_select`'s fallback to an empty list on a parse error is not modelled.
- `Text.Lower`: case folding is modelled for ASCII and the Latin-1 capitals only. Python's `lower()` covers all of Unicode.
- `Text.IsSpace` lists the characters Python treats as whitespace. Multi-character case mappings are not modelled.
- The resolver uses `Tasks.ParseTask`, which matches the instruction patterns word by word, so an optional keyword must be a whole word. The patterns as written are modelled character by character in `TaskRegex`. They differ in three ways:
  - A keyword can glue onto the next word; see Findings.
  - As written, `(.+?)` never crosses a newline (`TaskRegex.TryLazy`). So `clico no Acessar\nagora` makes `parse_task` raise, while `Tasks.ParseTask` gives the target `acessar agora`.
  - As written, a capture can consist of whitespace only. `seleciono   com SP` (three spaces) gives `Task(select, "", "SP")`. Every `select` element then scores 5, and the first one with a unique selector is returned. `Tasks.ParseTask` rejects that instruction, so the model's resolution is a parse error.
- `TaskRegex.Match`: only the regular-expression constructs the four patterns use are modelled (keyword alternatives, `\s*`, `\s+`, optional groups, the lazy `(.+?)`, `^` and `$`). Case-insensitive matching uses `Text.Lower`, so it covers ASCII and the Latin-1 capitals only.
- `Resolver.Resolution`: with `Resolver.Resolve`, `Synthesis.UniqueSelector` and `Synthesis.BuildUnique`, it models `resolve_selector` and `build_unique_selector` with the corrected builders. The structural climb writes no root step, identifiers are checked with `Text.SafeIdent`, and values are escaped with `Text.EscapeCss`. As written, `build_structural_selector` returns `None` whenever the climb reaches the document root without finding an anchor (`Synthesis.RootStepNeverUnique`), for example `html > body > form > input` with no ids. `resolve_selector` then skips such an element, while the model can resolve it. No as-written resolution is stated.
- `Resolver.Resolve`: follows `Resolver.Resolution`, so it uses the corrected builders, as the previous line says.
- `Synthesis.UniqueSelector`: uses the corrected climb, identifier check and escaping, as above.
- `Synthesis.BuildUnique`: computes `Synthesis.UniqueSelector`, so the same holds.
- `Resolve` does not repeat the check `len(matches) == 1 and matches[0] is el` in its loop. `Synthesis.UniqueSelector` proves that every selector it returns passes that check, so the check never rejects one.
- `find_candidates`' third tuple field (`{"match": …}`) is not modelled; nothing reads it.
- `main` (command line, file and standard-input reading, printing) is not part of this model.
- The HTTP request files are not part of this model.
- `Synthesis.BuildFromAttrs` computes the list of attribute selectors before trying them. The source builds each selector text just before testing it. Both try the same selectors in the same order.
- The anchors the structural climb consults (`Synthesis.Anchors`) are a table over all nodes, so that the climb can be stated as a function. The method computes only the anchors the climb reaches.

## Findings

| source | as written | input that shows it | evidently intended | confidence | as-written member | corrected member |
|---|---|---|---|---|---|---|
| __init__.py:57-59 | `css_attr_equals` escapes `"` but not `\` | the value `\"` becomes `\\"`, which a CSS reader takes as `\` followed by the end of the string | escape `\` as well, so the value reads back exactly | high, not executed | `Text.EscapeQuotesClosesEarly` | `Text.EscapeCssRoundTrip` |
| __init__.py:54-55 | `safe_css_ident` admits `.` and `:` | the id `a.b` gives `#a.b`, which CSS reads as id `a` with class `b` | accept only identifier characters | high, not executed | `Text.SafeIdentAdmitsClassDot` | `Text.ReadIdentRoundTrip` |
| __init__.py:469-473 | the climb writes the root's name `[document]` as a step when it reaches the root | `<div><input></div>` gives `[document] > div:nth-of-type(1) > input:nth-of-type(1)`, which matches nothing, so the builder returns `None` | write no step for the document root, so the chain starts at the top element; the selector `div:nth-of-type(1) > input:nth-of-type(1)` is then unique | high, not executed | `Synthesis.ExampleRootStep` | `Synthesis.AnchoredIsUnique` |
| __init__.py:88-95 | the optional article `(?:o\|a)?` and field kind are followed by `\s*`, so they can take the first letters of the target | `seleciono Ano com 2020`: the article takes the `A`, the target is `no` | keywords are whole words (`(?:(?:o\|a)\s+)?`), so the target is `ano` | high, not executed | `TaskRegex.SelectYearAsWritten` | `Tasks.SelectYearIntended` |
