# lit-fork template compiler, modelled in Dafny

This project models the template compiler of lit-fork, together with the two small classes around it.

- **`HTMLTemplate`** (`src/lib/html-template.ts`). Its constructor makes one depth-first walk over a template element's content. The walk descends into the content of nested TEMPLATE elements. It finds `{{expr}}` markers in attribute values, text nodes and comments, and appends part descriptors to `parts`. It also edits the tree: it inserts marker comments and text nodes, rewrites node data, removes bound attributes, and removes scheduled nodes after the walk. Together these keep every part's `index` equal to the number of its node in the final tree. `update` wraps the template in an `HTMLTemplateResult`.
- **`HTMLTemplateInstance`** (`src/lib/html-template-instance.ts`). `update(values)` makes two passes over the instance's parts. The first sets each bound part's value. The second commits every part.
- **`HTMLTemplateResult`** (`src/lib/html-template-result.ts`). A record of a template, a values object and the default processor.

Files:

- `dom.dfy` (module `Dom`). The content as a forest of `Node`s and as its document-order token form. A `Close` token ends an element and an `EndContent` token ends a template's content. The module proves that reading the node tokens left to right is the walk's pre-order, with a nested template's content directly after the template. It also proves that the token form is balanced, and defines `Kept`: the tokens that survive the removals.
- `marker.dfy` (module `Marker`). The global RegExp `/{{(.+)}}/g`, written out as a leftmost-greedy scanner.
  - `.+` does not cross a line terminator. So `"{{x}} and {{y}}"` on one line is one match, with capture `x}} and {{y`.
  - Also here: `exec` and `test` with the shared `lastIndex`, `split` with its captures, and `indexOf`.
- `template_rules.dfy` (module `TemplateRules`). The element, text and comment rules as pure functions of the node and of the counters `index`, `lastPartIndex`, `partIndex` and `lastIndex`, with what each rule makes.
- `text_rule_examples.dfy` (module `TextRuleExamples`). The text rule worked out on `{{x}}` and `a{{x}}`.
- `numbering.dfy` (module `Numbering`). The numbering invariant: after each visit, the parts made so far resolve against the nodes walked so far that survive the removals. Every rule keeps it.
- `walk.dfy` (module `Walk`). The walk's state, which every step keeps, and the removal loop after the walk. Also the walk's trace: for each node of the original content, in document order, the visit its rule made, from the counters the visit before it left.
- `html_template.dfy` (module `HtmlTemplate`). The imperative compiler:
  - a `TemplateElement` with its mutable content;
  - the three node rules as methods, each proved equal to its rule in `TemplateRules`;
  - the class `HTMLTemplate`, with `Traverse` (the `_traverse` loop, with cursor, stack, counters and `nodesToRemove`) and `Update`.
- `html_template_result.dfy` (module `HtmlTemplateResult`). The result record and the values object.
- `html_template_instance.dfy` (module `HtmlTemplateInstance`). The instance and its two-pass `Update`. Each pass is recorded as the calls it makes on the parts.

A comment `<!--{{item}}-->` never reaches the sentinel rule. The test that selects that rule (`src/lib/html-template.ts:127`) compares the comment's data, a string, with `marker`, the RegExp object `/{{(.+)}}/g` declared at line 4. A string is never `===` to an object (`SentinelTestAsWritten`). Such a comment therefore goes to the other branch. That branch searches for the text `"/{{(.+)}}/g"` and yields no part for `{{item}}`. The sentinel rule is still modelled and proved, with its test as the parameter `isSentinel`.

Other behaviour of the code that the model keeps as written:

- `strIndex` is never advanced. Each match that does not start the string gets the whole prefix of the data up to the match as its text node, so the `createMarker()` alternative for an empty prefix is never taken.
- `test` and `exec` share `marker.lastIndex`. The attribute count can therefore fall short of the number of marked attributes (`TestAllUndercounts`).
- A visit that reaches a non-null assertion on a null value (`exec(...)![2]`, `getAttribute(...)!`) throws a TypeError. The model records this as `threw`: `Traverse` returns `completed == false` and `NewHTMLTemplate` returns `None`.

## Model

| member | source | states |
|---|---|---|
| Dom.SerializePreorder | src/lib/html-template.ts:83-86 | The node tokens of one node's token form are its walk order: the node, then a template's content, then its children. |
| Dom.SerializeAllPreorder | src/lib/html-template.ts:20-24 | The node tokens of a forest's token form are its pre-order over elements, text and comments, which is the order the walker visits them in. |
| Dom.SerializeAllBalanced | src/lib/html-template.ts:33-42 | Every template content in the token form is closed, and none is closed before it opens. So a `null` from `nextNode()` inside a nested content always has a template on the stack. |
| Dom.KeptSplice | src/lib/html-template.ts:103-119 | Inserting nodes before the current node and rewriting it, or scheduling it, extends the surviving prefix by exactly the inserted nodes and, if kept, the node. |
| Marker.LastClose | src/lib/html-template.ts:4 | Finds the last `}}` in a range, or proves that there is none. |
| Marker.MatchAt | src/lib/html-template.ts:4 | A match anchored at `i` starts at `i`, spans at least `{{x}}`, and stays inside the string. |
| Marker.MatchAtMeaning | src/lib/html-template.ts:4 | The anchored match is a match of `{{(.+)}}` with the right capture and is the longest (greedy) one. It is absent only when the pattern cannot match at `i`. |
| Marker.FindMarker | src/lib/html-template.ts:4 | A found match lies at or after the search start and inside the string. |
| Marker.FindMarkerIsMatch | src/lib/html-template.ts:4 | The scanner returns only genuine matches. |
| Marker.FindMarkerLeftmost | src/lib/html-template.ts:4 | The match found is the leftmost after the search start and the longest there. When none is found, the pattern matches nowhere after the start. |
| Marker.FoundFromStart | src/lib/html-template.ts:90 | A string that matches from some `lastIndex` also matches from 0. |
| Marker.RegExpExec | src/lib/html-template.ts:99 | Global `exec`: it fails exactly when nothing matches from `lastIndex` (or `lastIndex` is past the end), and then resets `lastIndex` to 0. On success it returns the scanner's match and sets `lastIndex` to its end. |
| Marker.RegExpExecMeaning | src/lib/html-template.ts:99 | A successful `exec` returns the leftmost genuine match at or after `lastIndex` and moves `lastIndex` strictly forward. A failed one means no match exists there. |
| Marker.ExecNext | src/lib/html-template.ts:99 | Inside the `exec` loop, a success returns the next of the successive matches and a failure ends them. |
| Marker.Matches | src/lib/html-template.ts:99-113 | The successive matches are in range, disjoint and in increasing order. They are empty exactly when the first search fails. |
| Marker.MatchesAreLeftmost | src/lib/html-template.ts:99-113 | Every successive match is genuine, each is the leftmost one after the previous, and no match follows the last. |
| Marker.MatchesStep | src/lib/html-template.ts:99-113 | The successive matches are the one found first followed by those after it. |
| Marker.TailStart | src/lib/html-template.ts:92-93 | The text after the last match starts within the string. |
| Marker.TailStartAfterMatches | src/lib/html-template.ts:92-93 | That text starts at the end of the last successive match, or at the start when there is none. |
| Marker.Split | src/lib/html-template.ts:92 | `split` with a capturing pattern gives `2k+1` strings for `k` matches, and the last one is the text after the last match. |
| Marker.SplitStep | src/lib/html-template.ts:92 | `split` and the `exec` loop consume the same first match and continue after it. |
| Marker.SplitCaptures | src/lib/html-template.ts:92 | Slot `2k+1` of `split` is the capture of the k-th match of the `exec` loop. |
| Marker.SplitPieces | src/lib/html-template.ts:92 | Slot `2k` of `split` is the literal text between match `k-1` and match `k`. |
| Marker.IndexOf | src/lib/html-template.ts:150 | `indexOf` returns the first occurrence at or after `from`, or -1 exactly when there is none. |
| Marker.IndexOfLoopCountsOccurrences | src/lib/html-template.ts:149-156 | The `indexOf` loop runs once per occurrence of the search text, overlapping occurrences included. |
| Marker.MarkerRegExp.constructor | src/lib/html-template.ts:4 | A new global RegExp has `lastIndex` 0. |
| Marker.MarkerRegExp.Exec | src/lib/html-template.ts:99 | `exec` returns the match and updates `lastIndex` as `RegExpExec` says. |
| Marker.MarkerRegExp.Test | src/lib/html-template.ts:90 | `test` reports whether `exec` matches and moves `lastIndex` exactly as `exec` does. |
| TemplateRules.Chunk | src/lib/html-template.ts:100-112 | One match inserts one or two nodes, each with one part. Its exact layout is stated by `LaidOutLast`. |
| TemplateRules.Rewrite | src/lib/html-template.ts:99-113 | The `exec` loop inserts one node per part, makes between `k` and `2k` node parts for `k` matches, numbers them consecutively from `index + 1`, and inserts only text and comments. The exact count and layout are stated by `RewriteLaidOut`. |
| TemplateRules.LaidOutKeeps | src/lib/html-template.ts:98-113 | One more round of the `exec` loop leaves every earlier match's marker comment, expression part, prefix text and expression-less part where they were. |
| TemplateRules.LaidOutLast | src/lib/html-template.ts:100-112 | The new round's match gets a marker comment and a part with its capture at its slot, numbered one past its position. Directly before them come its prefix text `data.slice(0, match.index)` and an expression-less part, exactly when the match does not start the data. |
| TemplateRules.LaidOutStep | src/lib/html-template.ts:98-113 | One more round of the `exec` loop keeps the exact layout of `LaidOut` for one more match. |
| TemplateRules.RewriteLaidOut | src/lib/html-template.ts:98-113 | For `k` matches, of which `p` do not start the data, the loop makes exactly `k + p` parts and nodes. For each match `j` in both directions: an expression part with its capture at slot `j + (number of matches up to j not starting the data)`, after a marker comment; and directly before it an expression-less part for the text `data[..start]` if and only if the match does not start the data. |
| TemplateRules.RewriteRound | src/lib/html-template.ts:99-113 | One more match extends the inserted nodes and the parts by that match's chunk. |
| TemplateRules.RewriteMarkers | src/lib/html-template.ts:103-112 | A part carries an expression exactly when the node inserted for it is a marker comment. |
| TemplateRules.ChunkPrefixes | src/lib/html-template.ts:100-109 | One more chunk keeps the shape of `PrefixesBeforeExprs`: an expression-less part is directly followed by an expression part, and its text node holds a non-empty prefix of the data. The converse and the exact prefix are stated by `LaidOutStep`. |
| TemplateRules.RewritePrefixes | src/lib/html-template.ts:98-110 | Because `strIndex` stays 0, every expression-less part is directly followed by an expression part, and its text node holds a non-empty prefix of the data. The last part carries an expression. The converse and the exact prefix `data[..start]` are stated by `RewriteLaidOut`. |
| TemplateRules.RewriteExprs | src/lib/html-template.ts:112 | The expressions of the parts are the captures of the matches, in order. |
| TemplateRules.TextVisitShape | src/lib/html-template.ts:87-125 | A marked text node's visit keeps the loop's parts and inserted nodes and leaves exactly one more node after them. |
| TemplateRules.TextVisitUnmarked | src/lib/html-template.ts:90 | A text node the test rejects is left alone and yields no part, and `lastIndex` is reset. |
| TemplateRules.TextVisitParts | src/lib/html-template.ts:92-124 | A marked text node yields at least one part per match. Each part is bound and numbered `index + 1 + t`, and the expressions are the captures in order. `index` ends at the last part, `partIndex` grows by `strings.length - 1 = 2k`, and `lastIndex` ends at 0. |
| TemplateRules.MarkedVisitParts | src/lib/html-template.ts:114-124 | The same facts for the marked rule, given what the `exec` loop made and the `2k + 1` pieces of `split`. |
| TemplateRules.TextVisitCount | src/lib/html-template.ts:98-113 | A marked text node yields exactly one part per match plus one per match that does not start the data. |
| TemplateRules.TextVisitLaidOut | src/lib/html-template.ts:92-124 | The nodes inserted before a marked text node and its parts have the exact layout of `RewriteLaidOut`, followed by one surviving node. |
| TextRuleExamples.TextVisitExamples | src/lib/html-template.ts:92-124 | `{{x}}` yields exactly one part, with expression `x`, and is replaced by two marker comments. `a{{x}}` yields an expression-less part for `a`, then the part for `x`. |
| TemplateRules.TextVisitMarked | src/lib/html-template.ts:90-125 | A marked text node's visit is the marked rule applied to `split`'s pieces and the `exec` loop's output. |
| TemplateRules.MarkedVisitShape | src/lib/html-template.ts:115-124 | The marked rule keeps the loop's parts and nodes, adds exactly one surviving node, and moves `partIndex` on by `lastIndex`. |
| TemplateRules.MarkedVisitTail | src/lib/html-template.ts:117-122 | The node is scheduled for removal exactly when the last piece is empty. A marker comment then comes last; otherwise the node's data becomes the last piece. |
| TemplateRules.TextVisitTail | src/lib/html-template.ts:115-122 | A marked text node is scheduled for removal exactly when its last match ends the data. |
| TemplateRules.TextVisitDoomed | src/lib/html-template.ts:117-119 | When the node is removed, a marker comment is inserted last in its place. |
| TemplateRules.TextVisitKept | src/lib/html-template.ts:120-122 | When the node is kept, its data becomes the text after its last match. |
| TemplateRules.InertParts | src/lib/html-template.ts:155 | `count` copies of the inert part `{type: 'node', index: -1}`. |
| TemplateRules.SentinelVisit | src/lib/html-template.ts:127-147 | A sentinel comment yields one expression-less part. A marker is inserted first exactly when there is no previous sibling or `index == lastPartIndex`, so the part never reuses `lastPartIndex`. With no next sibling the comment is kept and emptied; otherwise it is scheduled and `index` steps back. `partIndex` grows by one. |
| TemplateRules.PlainCommentVisit | src/lib/html-template.ts:148-157 | A comment that is not the sentinel is unchanged and yields one inert part per occurrence of `"/{{(.+)}}/g"`, overlapping ones included. |
| TemplateRules.TestAll | src/lib/html-template.ts:55-61 | The counting loop counts at most one per attribute. |
| TemplateRules.TestAllBounds | src/lib/html-template.ts:55-61 | The count never exceeds the number of marked attributes. From `lastIndex` 0 it is positive exactly when some attribute is marked. A zero count leaves `lastIndex` at 0. |
| TemplateRules.TestAllUndercounts | src/lib/html-template.ts:56-61 | With the shared `lastIndex`, the attributes `{{a}}` and `{{b}}` count as one, not two. |
| TemplateRules.ToLower | src/lib/html-template.ts:74 | Lower-casing keeps the length. |
| TemplateRules.ToLowerMeaning | src/lib/html-template.ts:74 | Each character is lower-cased on its own, and no upper-case letter remains. |
| TemplateRules.ToLowerIdempotent | src/lib/html-template.ts:74 | Lower-casing twice is lower-casing once. |
| TemplateRules.GetAttributeMeaning | src/lib/html-template.ts:75-76 | `getAttribute` ASCII-lowercases its argument, as on an HTML element. It is null exactly when no attribute has the lowercased name, and is otherwise the value of the first one that has it. |
| TemplateRules.RemoveAttributeMeaning | src/lib/html-template.ts:79 | `removeAttribute` ASCII-lowercases its argument. Removing a missing name changes nothing. Otherwise exactly the attribute `getAttribute` read is taken out. |
| TemplateRules.RemoveAttributeShrinks | src/lib/html-template.ts:79 | Removing a present name takes out one attribute and never adds one. |
| TemplateRules.StringForPart | src/lib/html-template.ts:65 | `result.strings[partIndex]`, with `"undefined"` outside the array. |
| TemplateRules.AttributeRound | src/lib/html-template.ts:65-80 | A round that finds its attribute removes exactly one attribute and moves `partIndex` on by `strings.length - 1`. |
| TemplateRules.BindAttributesCount | src/lib/html-template.ts:62-81 | The binding loop makes at most `count` parts, exactly `count` unless it throws, and each part removes one attribute. |
| TemplateRules.BindAttributesParts | src/lib/html-template.ts:78 | Every part it makes is an attribute part carrying the element's own `index`. |
| TemplateRules.BindAttributesGrowth | src/lib/html-template.ts:80 | `partIndex` grows by the sum of `strings.length - 1` over the parts made. |
| TemplateRules.BindAttributesRemoves | src/lib/html-template.ts:79 | The loop only takes attributes away. |
| TemplateRules.ElementVisitParts | src/lib/html-template.ts:46-86 | An element is never moved, removed or renamed. It yields only attribute parts with its own index, at most one per marked attribute, each removing one attribute. `partIndex` grows by the splits. `index` and `lastPartIndex` are unchanged. |
| TemplateRules.SentinelTestAsWritten | src/lib/html-template.ts:127 | The sentinel test as written, a string `===` the RegExp object, is always false. |
| Numbering.ResolvesStep | src/lib/html-template.ts:25-28 | Appending a visit's parts and surviving nodes keeps every part resolving, and keeps bound node parts strictly increasing, so no two parts share an index. |
| Numbering.ResolvesFinal | src/lib/html-template.ts:25-28 | When no part is left pending, the walk's numbering is the finished template's numbering. |
| Numbering.NumberingStep | src/lib/html-template.ts:44-146 | After a visit, the parts resolve against the surviving nodes walked so far, and `index + 1` is their number. Only a removed sentinel with a next sibling leaves its part pending. |
| Numbering.RewriteAdvances | src/lib/html-template.ts:107-112 | The parts of the `exec` loop advance the numbering past every earlier bound part. Each expression part names the node right after its marker comment. |
| Numbering.RewriteStepOk | src/lib/html-template.ts:103-124 | A visit shaped like a marked text node's keeps the numbering. |
| Numbering.TextStepOk | src/lib/html-template.ts:87-125 | The text rule keeps the numbering. |
| Numbering.CommentStepOk | src/lib/html-template.ts:126-157 | The comment rule keeps the numbering, for either outcome of the sentinel test. |
| Numbering.SentinelStepOk | src/lib/html-template.ts:133-146 | The sentinel rule's one bound part comes after every earlier one. It is left pending only when the comment is removed and has a next sibling. |
| Numbering.ElementStepOk | src/lib/html-template.ts:46-86 | The element rule keeps the numbering. |
| Numbering.TextLeavesNodes | src/lib/html-template.ts:103-121 | A text visit leaves only text and comment nodes in the tree. |
| Numbering.VisitLeavesNodes | src/lib/html-template.ts:46-158 | Any visit leaves only nodes in the tree. |
| Numbering.VisitStepOk | src/lib/html-template.ts:44-158 | Every rule keeps the numbering, and an element keeps its place and tag. |
| Numbering.VisitKeepsNumbering | src/lib/html-template.ts:44-158 | The visit the walk makes keeps the numbering and leaves only nodes behind. |
| Walk.Splice | src/lib/html-template.ts:103-121 | Visiting a node grows the content by the inserted nodes. |
| Walk.Scheduled | src/lib/html-template.ts:119 | `nodesToRemove` grows by one exactly when the node is scheduled. |
| Walk.WalkBegins | src/lib/html-template.ts:28-30 | The counters' start values (`index` -1, `lastPartIndex` 0, nothing walked) satisfy the walk state. |
| Walk.WalkSkips | src/lib/html-template.ts:32-43 | Climbing out of an element, or ending a nested template's content, passes no node and keeps the walk state. |
| Walk.WalkPopSafe | src/lib/html-template.ts:33-42 | In balanced content, an exhausted nested content always has a template on the stack to pop. |
| Walk.WalkEnds | src/lib/html-template.ts:33-38 | At the end, every original node has been visited in order, the stack depth is 0, and the parts resolve against the surviving nodes. |
| Walk.ScheduledStep | src/lib/html-template.ts:119 | Scheduled positions stay increasing and behind the cursor, and a doomed node's final position joins them. |
| Walk.KeptStep | src/lib/html-template.ts:103-121 | After a visit, the surviving prefix grows by exactly what the visit leaves. |
| Walk.WalkedStep | src/lib/html-template.ts:103-121 | The surviving walked nodes grow by exactly what the visit leaves. |
| Walk.WalkAdvances | src/lib/html-template.ts:44-158 | A visit that keeps the numbering and leaves only nodes keeps the whole walk state. |
| Walk.KeptLength | src/lib/html-template.ts:161-164 | Each scheduled position removes exactly one token. |
| Walk.RemoveStep | src/lib/html-template.ts:161-164 | Once the earlier scheduled nodes are removed, the `j`-th sits `j` places before its recorded position, and removing it gives the content without the first `j + 1`. |
| Walk.RemoveStepBefore | src/lib/html-template.ts:161-164 | Before its removal, the `j`-th scheduled node follows `r[j] - j` survivors. |
| Walk.RemoveStepAfter | src/lib/html-template.ts:161-164 | After its removal, the survivors in front are followed by the tokens after it. |
| Walk.KeptPastRemoved | src/lib/html-template.ts:161-164 | No token after the `j`-th scheduled position is among the first `j + 1` scheduled positions. |
| Walk.KeptUpToRemoved | src/lib/html-template.ts:161-164 | Up to the `j`-th scheduled position, the first `j + 1` scheduled positions remove what the first `j` do, plus that position. |
| Walk.VisitReplacementKind | src/lib/html-template.ts:44-158 | No rule turns an element into a non-element or the reverse, and none leaves an `EndContent` where the node was. |
| Walk.SiblingsAgree | src/lib/html-template.ts:133-141 | At the cursor, `previousSibling === null` and `nextSibling === null` answer as they do at the same node in the original content. |
| Walk.PrevAgreesSkip | src/lib/html-template.ts:33-42 | Passing a `Close` or an `EndContent` keeps the previous-sibling agreement. |
| Walk.PrevAgreesVisit | src/lib/html-template.ts:44-158 | After a visit, the token before the cursor is the rewritten node, of the same kind as the original. |
| Walk.TraceGrows | src/lib/html-template.ts:44-158 | A visit that does not throw extends the trace by one step. It extends the trace's parts by its parts and the surviving nodes by its surviving nodes, and the next visit starts from its counters. |
| Walk.TracedBegins | src/lib/html-template.ts:25-30 | The walk starts with an empty trace and the counters `index = -1`, `lastPartIndex = 0`, `partIndex = 0`. |
| Walk.TracedSkips | src/lib/html-template.ts:33-42 | Passing a token that is not a node adds no step. |
| Walk.TracedVisits | src/lib/html-template.ts:44-158 | A visit adds the step of the node at its original position, visited by its rule from the current counters. |
| HtmlTemplate.TemplateElement.constructor | src/lib/html-template.ts:20-24 | A template element's content is the token form of a forest, and is balanced. |
| HtmlTemplate.TemplateElement.RemoveNodes | src/lib/html-template.ts:161-164 | Removing each scheduled node in turn leaves exactly the unscheduled tokens. |
| HtmlTemplate.ExecLoopBegins | src/lib/html-template.ts:95-98 | Before the first `exec`, the loop state is empty. |
| HtmlTemplate.ExecLoopStep | src/lib/html-template.ts:99-113 | A successful `exec` moves `lastIndex` forward and extends the loop state by one chunk. |
| HtmlTemplate.ExecLoopEnds | src/lib/html-template.ts:99 | A failed `exec` means every match has been taken. |
| HtmlTemplate.InsertForMatch | src/lib/html-template.ts:100-112 | One round of the loop, with `strIndex` 0, inserts and numbers that match's chunk. |
| HtmlTemplate.InsertMarkers | src/lib/html-template.ts:95-113 | The `exec` loop, started at `lastIndex` 0, makes `Rewrite` of all matches and leaves `lastIndex` at 0. |
| HtmlTemplate.VisitText | src/lib/html-template.ts:87-125 | The text branch computes `TextVisit` and leaves the RegExp's `lastIndex` as `TextVisit` says. |
| HtmlTemplate.VisitComment | src/lib/html-template.ts:126-157 | The comment branch, including its `indexOf` loop, computes `CommentVisit`. |
| HtmlTemplate.BindRound | src/lib/html-template.ts:62-81 | A round that finds its attribute makes one part and leaves the rest to the remaining rounds. |
| HtmlTemplate.BindThrows | src/lib/html-template.ts:67-77 | A round with no name, or no attribute, throws, keeping what was already made. |
| HtmlTemplate.BindEnds | src/lib/html-template.ts:62 | With no rounds left, the binding is what was made. |
| HtmlTemplate.VisitElement | src/lib/html-template.ts:46-86 | The element branch, with its counting loop and its binding loop, computes `ElementVisit` and its `lastIndex`. |
| HtmlTemplate.VisitNode | src/lib/html-template.ts:46-158 | The dispatch on node type applies the element, text or comment rule. |
| HtmlTemplate.HTMLTemplate.constructor | src/lib/html-template.ts:8-12 | The element is stored and `parts` starts empty. |
| HtmlTemplate.HTMLTemplate.VisitStep | src/lib/html-template.ts:44-158 | The visit `v` is the node's rule applied to the node, its sibling tests, the incremented `index`, the counters and the marker's `lastIndex`, and `lastIndex` ends at the visit's. If it does not throw, the whole new state is stated: `parts` gets `v`'s parts appended, the content is spliced, the node is scheduled when doomed, the counters come from `v`, a template is pushed, the cursor moves past the node, and the walk state is kept. |
| HtmlTemplate.HTMLTemplate.TracedStep | src/lib/html-template.ts:44-158 | A visit that does not throw keeps the walk state and adds exactly one step to the trace. |
| HtmlTemplate.HTMLTemplate.PassToken | src/lib/html-template.ts:33-42 | Passing a `Close` or an `EndContent` moves the cursor by one and pops the stack only at an `EndContent`. The walk state and the trace are kept. |
| HtmlTemplate.HTMLTemplate.ApplyVisit | src/lib/html-template.ts:44-158 | States the whole new state after a visit: `parts == old(parts) + v.parts`, the content spliced, `nodesToRemove` scheduled, the counters taken from `v`, a template pushed on the stack and the cursor past the node. The walk state is kept. |
| HtmlTemplate.HTMLTemplate.Traverse | src/lib/html-template.ts:16-165 | A completed walk visits every original node in document order. Each node's visit is its rule applied from the counters the visit before it left (`Trace`). `parts` is the visits' parts concatenated, so it is only ever appended to. The remaining nodes are the visits' surviving nodes. The parts resolve against them: attribute parts name an element, expression parts the node after a marker comment, and bound node parts distinct nodes in increasing order. |
| HtmlTemplate.HTMLTemplate.Update | src/lib/html-template.ts:167-169 | `update(data)` returns a result holding this very template, the very values object, and the default processor. |
| HtmlTemplate.NewHTMLTemplate | src/lib/html-template.ts:11-14 | Construction stores the element and runs the walk once. A successful construction has the parts of a full trace of the walk, one step per original node, and those parts resolve. A throwing one yields no template. |
| HtmlTemplateResult.NewHTMLTemplateResult | src/lib/html-template-result.ts:9-12 | The result holds the given template, the given values object itself (not a copy), and the default processor. |
| HtmlTemplateInstance.SetPhase | src/lib/html-template-instance.ts:24-28 | The first loop makes at most one call per entry, and only `setValue` calls. |
| HtmlTemplateInstance.CommitPhase | src/lib/html-template-instance.ts:29-33 | The second loop makes at most one call per entry, and only `commit` calls. |
| HtmlTemplateInstance.SetPhaseCounts | src/lib/html-template-instance.ts:24-28 | `setValue(values[p.expr])` is called once per entry holding `p` when `p.expr` is truthy. No other `setValue` call is made. |
| HtmlTemplateInstance.CommitPhaseCounts | src/lib/html-template-instance.ts:29-33 | `commit` is called on `p` exactly once per entry holding `p`, and never for `undefined` entries. |
| HtmlTemplateInstance.SetBeforeCommit | src/lib/html-template-instance.ts:23-34 | Every `setValue` of an `update` comes before every `commit`. |
| HtmlTemplateInstance.ExprlessCommittedNeverSet | src/lib/html-template-instance.ts:25-31 | A held part whose `expr` is falsy is committed but never set. |
| HtmlTemplateInstance.HTMLTemplateInstance.constructor | src/lib/html-template-instance.ts:9-16 | The template and processor are stored, and `_parts` starts empty. |
| HtmlTemplateInstance.HTMLTemplateInstance.Update | src/lib/html-template-instance.ts:23-34 | `update` makes the first loop's calls and then the second loop's, in `_parts` order. With no parts it makes no call, and it changes none of the instance's fields. |

## Left out

- DOM and TreeWalker APIs (`createTreeWalker`, `createComment`, `createTextNode`, `insertBefore`, `removeChild`, `removeAttribute`) are not called. They are replaced by a token sequence, a cursor and a stack of positions.
- The walker's `nextNode()` is modelled by the document-order token form. Its filter `133` is modelled as "elements, text and comments". Other node types (CDATA, processing instructions) do not occur in the model.
- `Traverse`, `NewHTMLTemplate`: require balanced content. Every DOM fragment is balanced, and `TemplateElement`'s constructor proves it.
- Attribute order: `NamedNodeMap` order is taken as the given sequence, as the source's comment allows. Browser quirks (Edge and IE parameters) are not modelled.
- The names the attribute branch uses but does not declare (`result.strings`, `lastAttributeNameRegex`, `boundAttributeSuffix`, `markerRegex`) are the inputs `Externals.resultStrings`, `lastAttributeName`, `boundAttributeSuffix` and `splitAttribute`. The sentinel test is the input `isSentinel`.
- Exceptions other than a visit's TypeError (a ReferenceError for the undeclared names, exceptions inside `setValue` or `commit`) are not modelled.
- The general regular-expression engine is not modelled. Only the fixed pattern `{{(.+)}}` is written out. Strings are sequences of characters, not UTF-16 code units.
- `ToLower`: only ASCII letters are lower-cased, not the full Unicode case mapping of `toLowerCase`.
- `HTMLTemplateInstance._clone` delegates to `TemplateInstance.prototype._clone`, and template-instance.js is not part of this model.
- `Part.setValue` and `Part.commit` live in part.js, which is not part of this model. `Update` records the calls it makes rather than their effect. `Part.expr` is treated as fixed.
- `TemplateProcessor` and `defaultTemplateProcessor` live in files that are not part of this model. A processor is known only by its name.
- `HtmlTemplateResult.Lookup`: `values[part.expr]` reads own properties only. JavaScript would also read through the prototype chain, for instance `toString` on a plain object, and that is not modelled.
- `TemplateRules.BindAttributesRemoves`: states only that the remaining attributes are among the original ones. The exact attribute removed per round is stated by `RemoveAttributeMeaning`.
- `HtmlTemplate.HTMLTemplate.Traverse`: when the walk throws, nothing is stated about the partial `parts` or the edited content. `VisitStep` does not apply a visit that throws, whereas the source has already pushed the parts and removed the attributes of the rounds before the throw. The construction fails either way.
