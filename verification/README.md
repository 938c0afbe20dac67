# Proofs about writ-agent's algorithms and small protocols

A Dafny model of the self-contained algorithms of writ-agent, the self-hosted browser-automation worker, with
proofs of what they do on every input, for every reply of the browser and over every interleaving. The browser, the
network, the clock and the language model appear as arbitrary parameters.

`dafny verify dfyconfig.toml` checks the whole project.

| file | component |
|---|---|
| `Text.dfy` | strings as sequences of Unicode scalar values; `find`, `replace`, `trim` |
| `Substitution.dfy` | lists of replacements applied to one text: what they do together |
| `Utf8.dfy` | UTF-8 and the cut at a character boundary |
| `NetworkCapture.dfy` | held credentials become placeholders; sanitized calls |
| `CredentialOrder.dfy` | what replacing the longest credential first achieves |
| `AccessibilityTree.dfy` | the pruned semantic tree and its node cap |
| `GatewayClient.dfy` | the request/response multiplexer |
| `ElementPicker.dfy` | CSS selectors for a picked element; top-level elements of a region |
| `JsonRepair.dfy` | missing final closers of JSON answers |
| `BatchRunner.dfy` | the deadline-bounded batch of page actions |
| `IntelligentMode.dfy` | budgets and failure tracking of the decision loop |
| `InFlight.dfy` | the clamped counter of requests in flight |
| `StepNavigate.dfy` | session tokens carried forward under any map order |
| `Iframes.dfy` | brace matching and script rewriting |
| `Selectors.dfy` | selector text printed and read back |
| `FieldNumbering.dfy` | two numberings of the same form fields |

## Modelling decisions

- Rust text is a `string` of Unicode scalar values. Substring search and replacement on UTF-8 bytes and on
  characters agree, because UTF-8 is self-synchronizing; byte lengths and byte cuts go through the encoding.
- A hash map's iteration order is a parameter; results are stated for every order, or the dependence on it is.
- Loops and objects with fields are methods and classes proved against specification functions, and the properties
  are lemmas about these functions. The multiplexer is a state machine whose steps are the atomic actions of
  callers, listeners and closers; `close` and a lost connection read the map's keys once and then fail them one by
  one, a removed sender is used in a later step, and all of this interleaves freely.
- Time in the batch runner is a real number of seconds. Each browser operation has an arbitrary duration and is cut
  at its cap, as `tokio::time::timeout` does.
- Action names of the batch runner are trimmed and parsed into a datatype beforehand.
- In the element picker an element carries the tag name the script goes by, and the local name and namespace that make
  its type, because they differ for mixed-case and prefixed SVG names.
- A needle keeps clear of double braces if it neither begins nor ends with a brace and has no brace twice in a row.

## Where the code falls short of its comments

- A credential whose value occurs in a credential's name stays visible, and so does one whose value is its own
  placeholder (`Substitution.NameWithNeedleLeaks`, `Substitution.OwnPlaceholderStays`). The exact condition on the
  credentials, for values that keep clear of double braces, is `NetworkCapture.NothingEverLeaksIff`.
- Sorting by length is meant to keep a credential from shadowing a longer one. It sorts by the stored values but searches
  for trimmed and for form-encoded ones, so blanks behind a value, or a value that is part of an encoded one, defeat it
  (`CredentialOrder.PaddedValueShadows`, `CredentialOrder.EncodedValueShadows`). `CredentialOrder.NeverShadowedIff` says
  exactly when it works.
- Sanitizing prefers the raw headers so that held credentials can be recognised, but filters them first, which
  redacts the four secret-value headers: a held credential in `Authorization` is never shown as a placeholder
  (`NetworkCapture.SecretValueHeadersAreNeverRevealed`; `NetworkCapture.HeldRawHeaderIsRevealedIff` says when one is). URL and response body are passed on as they are.
- A body is cut to 10,240 bytes before anything searches it: of a held credential across the cut a prefix stays visible
  (`NetworkCapture.CutCredentialIsLeft`).
- After three investigations in a row the decision loop says that it forces an action. It only skips the fourth, so a
  model that always inspects goes on inspecting (`IntelligentMode.OnlyInspecting`); `IntelligentMode.EveryRunIsFine` has
  the exact number.
- The batch runner is meant to answer within 120 seconds. The caps allow just under 134.5; `AlwaysWithin120Iff` says
  for which batches 120 holds.
- The semantic tree is said to keep nodes with direct text; a plain wrapper with text and one subtree is still
  flattened (`AccessibilityTree.TextWrapperVanishes`). `AccessibilityTree.TextKeepsItsNodeIff` says exactly when the node is kept.
- The element picker prints lower-cased tag names and counts siblings by tag name, while CSS compares local names and
  counts by type. A selector can miss the picked element or be unique for another (`ElementPicker.MixedCaseNameIsMissed`,
  `ElementPicker.OtherTagNameIsSelected`); `ElementPicker.EveryCandidateMatchesIff` has the exact condition.
- The stub that `adapt_script_for_iframe` puts in is itself rewritten by the next step (`Iframes.NoGetDocLeft`).

## Model

| member | source | states |
|---|---|---|
| Utf8.BoundariesAreCharacterPrefixes | src/automation/network_capture.rs:15 | the byte positions the boundary test accepts are exactly the ends of encoded character prefixes |
| Utf8.TruncateBytes | src/automation/network_capture.rs:10-19 | the cut is the encoding of the longest prefix of whole characters that fits, and walks back at most three bytes |
| Utf8.TruncatedKeeps | src/automation/network_capture.rs:10-19 | a prefix of whole characters is kept exactly if it fits |
| Utf8.EncodeCharIsUtf8 | src/automation/network_capture.rs:14-18 | every character is encoded by the syntax of the standard, with its own number in the free bits |
| Substitution.ApplyAroundPlaceholder | src/automation/network_capture.rs:32-51 | later replacements act on the text before a placeholder, on its key and on the text after it separately |
| Substitution.CoverSpellsInput | src/automation/network_capture.rs:32-51 | reading each hidden occurrence back as its needle gives exactly the input, for any needles and keys |
| Substitution.CoverSpellsOutput | src/automation/network_capture.rs:32-51 | for needles that keep clear of double braces the output is the same cut with each hidden occurrence shown as its placeholder, whose key is what later replacements made of it |
| Substitution.CoverFacts | src/automation/network_capture.rs:32-51 | the parts that stay hold no needle, and a needle is hidden only if no earlier needle is inside it |
| Substitution.OutputCleanIff | src/automation/network_capture.rs:32-51 | for every text, the output is free of needles exactly if the final keys of the placeholders used are |
| Substitution.EveryOutputCleanIff | src/automation/network_capture.rs:32-51 | no text at all comes out with a needle exactly if the final key of every live needle has none |
| Substitution.NeedleSurvivesIff | src/automation/network_capture.rs:37-42 | after one replacement its needle is still there exactly if it was there and is in the key |
| Substitution.NameWithNeedleLeaks | src/automation/network_capture.rs:37-42 | the value `pass` of the credential `password` stays visible |
| Substitution.OwnPlaceholderStays | src/automation/network_capture.rs:37-42 | a value that is its own placeholder is never hidden, whatever the text |
| Substitution.PlaceholdersStay | src/automation/network_capture.rs:32-51 | with needle-free keys no later replacement touches a placeholder |
| Substitution.MatchedIff | src/automation/network_capture.rs:28-56 | no replacement fires exactly if no needle occurs in the text, and then the text is unchanged |
| NetworkCapture.FormRoundTrip | src/automation/network_capture.rs:46 | form-encoding is undone by form-parsing, so different values never share an encoded needle |
| NetworkCapture.FormSerializeIff | src/automation/network_capture.rs:46 | the serializer gives the one text the standard has for the bytes: letters, digits and four marks as they are, `+` for a blank, `%` and two upper-case hex digits for every other byte |
| NetworkCapture.LongestFirstSorts | src/automation/network_capture.rs:30-31 | the order of replacement is a permutation of the map's entries by descending byte length |
| NetworkCapture.ReplaceIfPresent | src/automation/network_capture.rs:39-42 | the guarded replacement is the replacement, and reports whether the needle occurred |
| NetworkCapture.RevealHeldCredentials | src/automation/network_capture.rs:26-57 | the loop over the sorted entries computes the specified list of replacements and match flag |
| NetworkCapture.NoHeldCredentialSurvives | src/automation/network_capture.rs:21-57 | for every map, order and text: nothing is returned exactly if no held credential, raw or in the standard's form encoding, occurs; for plain credentials none occurs in what the caller goes on with |
| NetworkCapture.RewriteIsLossless | src/automation/network_capture.rs:26-57 | for plain credentials the output is the input with some occurrences shown as their own untouched placeholders; reading these back gives the input, and the rest holds no credential |
| NetworkCapture.NothingEverLeaksIff | src/automation/network_capture.rs:26-57 | for values that keep clear of double braces, no text comes out with a held credential exactly under a condition on the credentials alone |
| CredentialOrder.NeverShadowedIff | src/automation/network_capture.rs:29-51 | for a needle of a credential, raw or form-encoded: in every iteration order no earlier replacement breaks it, exactly if every other credential with a needle inside it is shorter as stored and its own raw value is not inside it |
| CredentialOrder.UnpaddedValuesAreSafe | src/automation/network_capture.rs:29-33 | among values without outer whitespace the sort keeps every raw value from being broken, in every iteration order |
| CredentialOrder.OwnNeedleIsShownIff | src/automation/network_capture.rs:21-51 | in one iteration order, a needle of one credential alone comes out as that credential's placeholder if nothing replaced before breaks it, and with brace-free names only then |
| CredentialOrder.OwnNeedleIsAlwaysShownIff | src/automation/network_capture.rs:21-51 | the same for all iteration orders, in terms of the stored lengths |
| CredentialOrder.PaddedValueShadows | src/automation/network_capture.rs:29-42 | a value with blanks behind it is replaced inside a longer value, which comes out as `{{short}}x` |
| CredentialOrder.EncodedValueShadows | src/automation/network_capture.rs:46-50 | without any whitespace, the encoded form of a longer value can come out as `{{short}}x` too |
| NetworkCapture.SanitizedCallsAreClean | src/automation/network_capture.rs:336-399 | no held credential in a sanitized request body or header value, but for the redaction text itself; raw headers are dropped, URL and response body unchanged |
| NetworkCapture.SanitizingDropsNothing | src/automation/network_capture.rs:366-399 | besides the skipped names and the raw headers nothing is dropped: calls in order, names of headers, bodies where there are any, unheld bodies as they were, and everything else |
| NetworkCapture.OtherRawHeadersAreCleaned | src/automation/network_capture.rs:379-388 | a raw header that is neither skipped nor a secret-value one is cleaned as it stands |
| NetworkCapture.IsAuthNameIff | src/automation/network_capture.rs:353-357 | a header's name is one of authentication exactly if it contains one of twelve words |
| NetworkCapture.CutOccurrence | src/automation/network_capture.rs:142-148 | an occurrence in a body is still there after the cut exactly if its end is within the limit, and is cut itself exactly if its first character is and its end is not |
| NetworkCapture.CutCredentialIsLeft | src/automation/network_capture.rs:142-148 | of a held credential the cut goes through, a prefix is left in the sanitized body where nothing else is held |
| NetworkCapture.CleanHeadersAreClean | src/automation/network_capture.rs:342-368 | a cleaned header value holds a credential exactly if it is the redaction text and a credential occurs in that |
| NetworkCapture.HeaderIsRedactedIff | src/automation/network_capture.rs:350-364 | a header comes out redacted exactly if it holds no held credential and its name or value marks it as secret, or it carried the redaction text; any other comes out as the search shows it |
| NetworkCapture.SecretValueHeadersAreNeverRevealed | src/automation/network_capture.rs:379-388 | the four secret-value headers come out the same whatever they carry: redacted, or as a credential found in the filter's own mark |
| NetworkCapture.HeldRawHeaderIsRevealedIff | src/automation/network_capture.rs:374-390 | where no credential occurs in the filter's own mark, a held credential in a raw header is revealed exactly if the name is neither a skipped nor a secret-value one |
| AccessibilityTree.TreeBuilder.BuildTree | js/accessibility_tree.js:342-413 | the recursion with its shared counter computes the specified tree and counter |
| AccessibilityTree.CounterIsSize | js/accessibility_tree.js:365-385 | the counter grows by exactly the size of the result |
| AccessibilityTree.CounterBound | js/accessibility_tree.js:343-385 | once the cap trips only the ancestors still open are counted |
| AccessibilityTree.RootBound | js/accessibility_tree.js:2-6 | from the root the counter and the tree never exceed 313 nodes |
| AccessibilityTree.RootBoundIsReached | js/accessibility_tree.js:343-385 | a page of twelve nested landmarks around 301 others reaches 313 |
| AccessibilityTree.NodesAreReached | js/accessibility_tree.js:343-350 | every node of the tree stands for a visible element that is none of the ten noise tags, reached through such elements at depth 12 or less |
| AccessibilityTree.SemanticElementsSurvive | js/accessibility_tree.js:342-413 | the surviving interactive, landmark, heading and table elements are, in document order and each with exactly its semantic ancestors, a prefix of all visible ones within depth 12, and all of them unless the cap tripped |
| AccessibilityTree.BuiltIffYields | js/accessibility_tree.js:342-383 | while the cap is not passed, an element leaves something in the tree exactly if it or something visible below it is semantic or has direct text |
| AccessibilityTree.OwnNodeIff | js/accessibility_tree.js:370-413 | while the cap is not passed, an element has a node of its own exactly if it leaves something and has a role, a name or a state, or the number of its children that leave something is not one |
| AccessibilityTree.TextKeepsItsNodeIff | js/accessibility_tree.js:370-383 | direct text keeps its element's node exactly if the element has a role or a name, or the number of its children that leave something is not one |
| AccessibilityTree.TextWrapperVanishes | js/accessibility_tree.js:370-383 | a plain wrapper with text around one button comes out as the button alone |
| AccessibilityTree.WithinCapIff | js/accessibility_tree.js:343-385 | read from the page alone: the counter stays within the cap exactly if there is room for all elements that have a node of their own, and then it has counted exactly these |
| AccessibilityTree.SmallPageIsComplete | js/accessibility_tree.js:342-413 | a page with at most 300 such elements loses no semantic element |
| GatewayClient.InvStep | src/ai/client.rs:566-642 | every atomic step of callers, listeners and closers keeps the invariant on senders, callers, messages and drains |
| GatewayClient.ReturnedCallersAreSettled | src/ai/client.rs:626-642 | in every run a returned caller has as its value a good received frame with its own id, or a failure: with a received frame of its own that has an error text, or that of a pass of a close or a lost connection which read its key, or one without message; it has no entry left in the map and never saw its channel close without a message |
| GatewayClient.FailuresHaveCauses | src/ai/client.rs:580-642 | in every run a caller fails for lack of a connection or a sink exactly if there was none when its request began, and with a timeout or a send error only after its own |
| GatewayClient.PendingCallersAreInside | src/ai/client.rs:594-640 | every entry of the map belongs to a caller still inside the call |
| GatewayClient.AtMostOneReply | src/ai/client.rs:831-854 | a message in a channel and the outcome of a caller never change once there |
| GatewayClient.OwnStepsAreFew | src/ai/client.rs:566-642 | a caller returns after at most five steps of its own, whatever the others do |
| GatewayClient.CallerIsNeverStuck | src/ai/client.rs:625-642 | in every reachable state a caller that has not returned has a step to take |
| GatewayClient.FrameReachesItsCaller | src/ai/client.rs:626-632 | once a listener has read a frame for a waiting request, over every interleaving its caller can return only with that frame as its value, or as a failure exactly if it has an error text, or with a timeout if its own came first; while it waits the frame is not lost |
| GatewayClient.GoodRequestSucceeds | src/ai/client.rs:589-632 | on a live connection, with a good frame coming back, a request that is let run ends with that frame |
| GatewayClient.FinishedDrainWakesEveryone | src/ai/client.rs:468-476 | after a finished pass over the map every waiting caller that was in it has its reply ready |
| GatewayClient.PassReachesEveryone | src/ai/client.rs:468-476 | a pass reaches everyone who was in the map when it began, whatever happens while it runs |
| ElementPicker.IndexAmongSiblings | js/element_picker.js:73-76 | the index in the sibling list is the number of earlier siblings of the type, its length the number of all |
| ElementPicker.BuildSelector | js/element_picker.js:37-84 | the result is the first unique candidate in order of preference, or the longest path if none is unique |
| ElementPicker.CandidatesAre | js/element_picker.js:37-84 | exactly which selectors are tried: the id, the six stable attributes with 1 to 79 code units, the first one to three lasting classes, and the paths as far up as the walk goes |
| ElementPicker.PreferenceIs | js/element_picker.js:37-84 | an id is preferred to attributes, these to classes, and these to paths |
| ElementPicker.LastingClassesAreKept | js/element_picker.js:51-54 | exactly the classes with none of the eight generated prefixes and none of seven marks are kept, in their order |
| ElementPicker.PathLengthIs | js/element_picker.js:58-83 | the path goes up to an id, below body and html, and takes at most eight steps |
| ElementPicker.BuildPath | js/element_picker.js:58-83 | the walk tries each ancestor path once, shortest first, and ends at an id, below the body or after eight steps |
| ElementPicker.PathMatchesIff | js/element_picker.js:62-82 | after each round the element matches the path so far exactly if each step has an id, or a regular tag name and the index the standard counts |
| ElementPicker.TagNamesShowTypes | js/element_picker.js:73-76 | the script's index is the one of `:nth-of-type` where siblings share the tag name exactly if they share the type |
| ElementPicker.ReadBackIff | js/element_picker.js:43-45 | a quoted attribute value is read back exactly if it has no line end and no NUL; where it cannot be read the selector is skipped |
| ElementPicker.RegularCandidatesMatch | js/element_picker.js:37-84 | where names, indexes and attribute values are regular the element matches every selector that can be returned |
| ElementPicker.EveryCandidateMatchesIff | js/element_picker.js:37-84 | for every element that condition is exact |
| ElementPicker.MixedCaseNameIsMissed | js/element_picker.js:39-84 | a `foreignObject` is missed by its own selector |
| ElementPicker.OtherTagNameIsSelected | js/element_picker.js:73-79 | with one type under two tag names the selector returned is unique for another element |
| ElementPicker.PickedElementIsSelected | js/element_picker.js:29-84 | the returned selector matches the element and selects nothing else, unless no candidate is unique |
| ElementPicker.InRegion | js/element_picker.js:121-130 | exactly the accepted descendants of the body, in document order |
| ElementPicker.HasAncestorIn | js/element_picker.js:135-139 | the walk to the body finds an element of the region exactly if one is an ancestor |
| ElementPicker.TopLevel | js/element_picker.js:133-141 | exactly the elements of the region with no ancestor in it, in document order |
| ElementPicker.TopLevelCovers | js/element_picker.js:131-141 | the picks are no ancestors of each other, and every element of the region is or lies below one |
| JsonRepair.CloseMissingEofDelimiters | src/ai/json_parser.rs:83-106 | the scanner and the closing loop compute the specified repair, the pop in the guard included |
| JsonRepair.RepairIsTheOnlyCompletion | src/ai/json_parser.rs:83-106 | the repair appends a string of closers exactly if it is not empty and balances the text |
| JsonRepair.RepairedIff | src/ai/json_parser.rs:83-106 | there is a repair exactly if closers alone can balance the text; the result is balanced and not repaired again |
| JsonRepair.TruncationIsUndone | src/ai/json_parser.rs:17-20 | any balanced text comes back from the loss of a non-empty run of its final closers |
| JsonRepair.JsonTextPasses | src/ai/json_parser.rs:87-101 | the scanner passes over any JSON text, with any whitespace and any escapes, and is where it was |
| JsonRepair.JsonTextIsRestored | src/ai/json_parser.rs:83-106 | any JSON text without a run of its final closers is repaired to that text |
| JsonRepair.LostEndIsRestored | src/ai/json_parser.rs:83-106 | a balanced text that lost any end made of closers and whitespace comes back without the whitespace of that end, whatever whitespace stands before the cut |
| JsonRepair.AnswerIsRead | src/ai/json_parser.rs:9-81 | with a parser that accepts nothing but JSON texts and to which whitespace among final closers does not matter, an answer that lost any end made of closers and whitespace, the whitespace before it trimmed, is read as the parser reads the whole text |
| JsonRepair.OutermostIff | src/ai/json_parser.rs:50-73 | the candidate is exactly the part from the first opening to the last closing bracket |
| JsonRepair.FencedIff | src/ai/json_parser.rs:28-48 | the candidate is exactly the trimmed text between the first opening fence and the first fence after it |
| JsonRepair.ObjectIsRead | src/ai/json_parser.rs:50-60 | an object with anything around it is read where nothing before is |
| JsonRepair.ArrayIsRead | src/ai/json_parser.rs:62-72 | so is an array |
| JsonRepair.TaggedFenceIsRead | src/ai/json_parser.rs:28-37 | so is what a fence marked as JSON holds |
| JsonRepair.BareFenceIsRead | src/ai/json_parser.rs:39-48 | and what a bare fence holds |
| JsonRepair.OnlyCandidatesAreRead | src/ai/json_parser.rs:9-81 | an answer is read only as itself, its repair, what a fence holds or an outermost part |
| JsonRepair.ObjectInProseIsRead | src/ai/json_parser.rs:9-60 | with a JSON parser, prose in front and no fence, the object in an answer is read |
| JsonRepair.FenceInProseIsRead | src/ai/json_parser.rs:9-37 | with prose in front, what a fence marked as JSON holds is read |
| BatchRunner.RunAgentActions | src/automation/agent_actions.rs:83-142 | the loop gives the specified result per action, for min(n, 25) actions in order, and takes the specified time |
| BatchRunner.ResultsMean | src/automation/agent_actions.rs:102-122 | an action is skipped, done or timed out exactly by when it began, its cap, what was left of the 95 seconds and how long it took |
| BatchRunner.WaitHasTime | src/automation/agent_actions.rs:203-213 | a wait has five seconds more than it asks for |
| BatchRunner.CapsAre | src/automation/agent_actions.rs:125-138 | the caps of all other actions, and what settling behind them can take |
| BatchRunner.SkippedToTheEnd | src/automation/agent_actions.rs:102-108 | once an action is skipped for lack of time every later one is |
| BatchRunner.ReplyBound | src/automation/agent_actions.rs:88-142 | however the operations hang, the reply comes before 134.5 seconds |
| BatchRunner.ReplyBoundIsTight | src/automation/agent_actions.rs:88-142 | three navigations can come as near to 134.5 seconds as one likes |
| BatchRunner.AlwaysWithin120Iff | src/automation/agent_actions.rs:91-95 | the reply is sure to come before 120 seconds exactly if, at each page-changing action, all caps so far sum to less than 100 |
| BatchRunner.WorstReaches | src/automation/agent_actions.rs:110-138 | the worst timings bring the batch to any point before the deadline its caps allow |
| IntelligentMode.GenerateWorkflow | src/ai/intelligent_mode.rs:70-399 | the loop with its counters computes the specified run |
| IntelligentMode.RunBatch | src/ai/intelligent_mode.rs:285-318 | a batch is executed up to and including its first failure |
| IntelligentMode.FailureRunStep | src/ai/intelligent_mode.rs:343-370 | the failure count stays the length of the longest run of failures on one key |
| IntelligentMode.EveryRunIsFine | src/ai/intelligent_mode.rs:263-370 | in every run: at most max_actions other decisions executed, and exactly that many where the loop gives up over them; of m decisions to investigate since the last other executed one exactly m - m / 4 executed, so never more than three without a skipped one between them, the skip counting as the break; and the abort exactly at the first run of five failures on one key |
| IntelligentMode.OnlyInspecting | src/ai/intelligent_mode.rs:268-275 | a model that always inspects has all but every fourth inspection executed and is never forced to act |
| IntelligentMode.VerdictsAreMeant | src/ai/intelligent_mode.rs:137-260 | in every run a verdict comes from a round that stands for it, and no earlier round ends the loop |
| IntelligentMode.SameKeyIff | src/ai/intelligent_mode.rs:343-348 | failures are compared by kind and field, a missing field standing for 999 |
| IntelligentMode.BatchStopsAtFailure | src/ai/intelligent_mode.rs:285-316 | a batch is executed through its first failure and no further |
| IntelligentMode.GenerateWithinLimits | src/ai/intelligent_mode.rs:77-399 | the log and the end of the whole loop keep these limits, a skipped investigation again counting as the break |
| InFlight.Counter.Bump | src/automation/inflight.rs:49-56 | after each change the counter is the sum of all changes less the least of their prefix sums |
| InFlight.PendingIsSumLessLeast | src/automation/inflight.rs:49-56 | after any changes the counter is their sum less the least of all prefix sums |
| InFlight.PendingIsClose | src/automation/inflight.rs:89-124 | it never exceeds the observed requests in flight and falls short by at most the ends whose start was missed |
| StepNavigate.CarryForwardSessionTokens | src/automation/step_navigate.rs:39-94 | the loop over the tokens computes the specified pairs and carried names, nothing for another host |
| StepNavigate.LiveTokensAre | src/automation/step_navigate.rs:44-53 | live are exactly the current URL's pairs with a token's name, each with the value of its last pair |
| StepNavigate.TokenNameIff | src/automation/step_navigate.rs:16-51 | a token has one of ten names, ASCII case aside |
| StepNavigate.CarriedAt | src/automation/step_navigate.rs:59-83 | number, order and names of the pairs are kept, and a pair changes exactly if it is a token's first match, to the value of the last such token visited |
| StepNavigate.OrderDoesNotMatterIff | src/automation/step_navigate.rs:45-83 | the pairs are independent of the map's order exactly if live tokens for one target parameter agree |
| StepNavigate.ReportedIff | src/automation/step_navigate.rs:65-83 | for agreeing tokens, a name is reported exactly if its token is stale on the target's own pairs and is the first visited for its parameter |
| StepNavigate.StaleTokensAreReported | src/automation/step_navigate.rs:65-83 | without rival tokens for one parameter, exactly the tokens stale on the target's own pairs are reported, each once |
| StepNavigate.OnlyListOrderDependsIff | src/automation/step_navigate.rs:45-87 | of the whole result only the listing order of the carried names depends on the map, exactly if no two live tokens are rivals for one target parameter |
| StepNavigate.DistinctNamesDecide | src/automation/step_navigate.rs:45-87 | where token names differ without case, every order of the map gives the same pairs and reports the same names, and a second application in any order changes and reports nothing |
| StepNavigate.SecondTimeIsNothing | src/automation/step_navigate.rs:65-87 | for agreeing tokens a second application, in any order, changes and reports nothing |
| Iframes.FindMatchingBrace | src/automation/iframes.rs:355-369 | the first closing brace after an opening at which the depth is zero, or none if there is no such brace |
| Iframes.ShortestBalancedBlock | src/automation/iframes.rs:354-369 | with no closing brace before the first opening one, the slice is balanced and no shorter one is |
| Iframes.OwnMatchIsFoundIff | src/automation/iframes.rs:354-369 | where the first opening brace has a match, the position found is that match exactly if no closing brace comes before |
| Iframes.AdaptScript | src/automation/iframes.rs:320-334 | the in-place rewriting computes the specified script, which keeps the net brace depth and has no call of getDoc left |
| Iframes.AdaptKeepsDepth | src/automation/iframes.rs:320-334 | adapting a script keeps its net brace depth |
| Iframes.StubIs | src/automation/iframes.rs:324-329 | the stub takes the place of the first `getDoc` function through its closing brace, and of nothing else |
| Iframes.FunctionTextIs | src/automation/iframes.rs:337-343 | what is extracted begins with the first `function name` and ends with the brace that closes it |
| Iframes.ExtractedIsBalanced | src/automation/iframes.rs:337-352 | an extracted function has net brace depth zero |
| Iframes.NoGetDocLeft | src/automation/iframes.rs:331-350 | neither result contains a call of getDoc, and the last step of an extraction never changes anything |
| Selectors.EscapedValueIsReadIff | js/helper_script.js:11-13 | a CSS string reader gets the value back and leaves the rest exactly if the value has no line end and no NUL |
| Selectors.NameIsReadIff | src/automation/selectors.rs:67-73 | the attribute reader gets the printed name back exactly if it has no quote, backslash or `][` |
| Selectors.RoleFormIsReadIff | src/automation/selectors.rs:22-37 | the printed role form is undone exactly if, besides that, the role has no `[` |
| Selectors.SimpleFormsAreRead | src/automation/selectors.rs:31-48 | the text and label forms give the text between the quotes, and a role without attributes the role |
| Selectors.OtherSelectorsPassThrough | src/automation/selectors.rs:50-56 | any other selector is passed on as it is, as CSS exactly if it has none of twelve pieces of driver syntax |
| FieldNumbering.ExtractFields | js/dom_fields_with_coords.js:79-272 | the scan with its counter and set of processed dates gives the specified fields, numbered by position |
| FieldNumbering.FieldsAre | js/dom_fields_with_coords.js:87-132 | exactly the elements that no test hides have a field, of the parts of one date only the first, under the date's name |
| FieldNumbering.OneFieldPerDate | js/dom_fields_with_coords.js:125-132 | each date with a visible part has exactly one field |
| FieldNumbering.DatePartsShareBase | js/dom_fields_with_coords.js:125-128 | the year, month and day parts of one date have one base, and it is the date's name |
| FieldNumbering.DateBaseIff | js/dom_fields_with_coords.js:125-128 | exactly the names made of a base without line ends and one of three endings are date parts, of that base |
| FieldNumbering.InspectField | js/inspect_field.js:2-13 | the lookup in the visible list, with its range check |
| FieldNumbering.ExtractionIndex | js/inspect_field.js:2-13 | an extracted element stands in the visible list later by the suppressed date parts before it |
| FieldNumbering.SameElementIff | js/inspect_field.js:2-13 | an index names the same element in both scans exactly if no date part was suppressed before it |

## Left out

- Browser driving, HTTP, WebSocket transport, command line, tracing and prompts: input and output, replaced by parameters.
- The class that moves captured calls from a pending map to a list, with its content-type test and prompt text: only easy members beside the cut of bodies, which is modelled.
- `GatewayClient`: the early returns on a failed serialization and dropped futures, which leave an entry in the map, are not modelled; neither are session messages and the direct transport.
- `GatewayClient`: callers, listeners and closers are steps on a state value, not tasks on shared objects.
- NetworkCapture.NoHeldCredentialSurvives: the exact condition is proved for values that keep clear of double braces; for other values there is only the counterexample.
- ElementPicker.PickedElementIsSelected: selectors are kept parsed; `CSS.escape` (with no NUL in an id or class) and the selector grammar are taken to be faithful, and the recorder's own selector, kept if unique, is not part of the model.
- The cut of region picks to twelve and the other fields reported for a pick.
- Accessible names, field states and visibility of page elements: what the script's helpers report is taken as given.
- Normalising the shapes of an agent-action message, and what a single action does on the page.
- Resetting and waiting in the in-flight registry (`attach`, `forget`, `settle_after_action`): bookkeeping and polling.
- URL parsing and printing: token carry-forward starts and ends with hosts and query pairs. Frame URL matching is left out with it.
- JavaScript strings and comments in brace matching, which the code does not tell apart either, and 32-bit overflow of the depth.
- Labels, coordinates and selectors of extracted fields, and the selector generator beyond escaping and the role form.
