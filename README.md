# Copilot code review extension: a Dafny model of its core

This project models the core of a VS Code extension that asks a language model
to review a git diff. The model covers:

- building the review prompt (`createReviewPromptV1`);
- turning the model's untrusted reply into typed review comments
  (`stripReasoning`, `parseComment`, `parseResponse`);
- arranging the comments for triage (`sortFileCommentsBySeverity`);
- the review panel's navigation list and the messages it posts (`CodeReviewPanel`);
- what the `@codeReview` chat participant writes into the chat (`review`,
  `handleChat`, `showReviewResults`, the `/commit` argument check, the
  `applyAdjustment` argument dispatch);
- the webview script's helpers and page state (`media/main.js`).

Modules, one per source file plus shared helpers:

| module | models |
|---|---|
| `Wrappers` | `Option` and `Result` |
| `Text` | the JavaScript string operations used: `trim`, substring search, `startsWith`/`endsWith`, decimal rendering of non-negative integers, `join` |
| `Json` | a parsed JSON value, JavaScript truthiness, `typeof`, `key in v` |
| `JsMap` | a JavaScript `Map` with insertion-ordered keys |
| `StableSort` | `Array.prototype.sort` with a numeric comparator, as a stable descending insertion sort |
| `ReviewTypes` | `ProposedAdjustment`, `ReviewComment`, the per-file and whole-review records, and the shared "visible comment" filter (severity at least the minimum and line above 0) |
| `Comment` | `src/review/comment.ts` |
| `PromptV1` | `src/review/promptV1.ts` |
| `Progress` | the `progress` object with `lastMessage`, shared by the panel and the chat |
| `CodeReviewPanel` | `src/vscode/CodeReviewPanel.ts`; the class `Panel` holds `_allComments`, `_currentCommentIndex`, and the messages posted and editor actions taken |
| `Extension` | `src/extension.ts`; the class `ChatStream` records the parts written to the chat response stream |
| `Webview` | `media/main.js`; the class `WebviewState` holds the page's module variables and the visibility flags of its sections |

Modelling choices:

- JavaScript numbers are `real`. Parsed JSON has no NaN or infinity, and the
  source only compares these numbers, subtracts one, or prints them.
- `trim` removes exactly the ECMAScript WhiteSpace and LineTerminator code
  points. They are listed in `Text.IsSpace`.
- Functions the model cannot see are parameters:
  - `parseAsJsonArray` is `string -> seq<Json>`;
  - `reasoningTag` and `JSON.stringify(responseExample, undefined, 2)` are strings;
  - `decodeURIComponent` and `JSON.parse` are `string -> Result<…, Thrown>`;
  - the git branch lists and the result of `reviewDiff` are inputs.
- The progress messages `reviewDiff` reports are an input sequence.
- The cancellation token is modelled as the point at which it is first read
  as cancelled. It never becomes uncancelled once cancelled.
- Everything the extension shows or posts is recorded as a sequence:
  - the panel's webview messages (`Panel.outbox`);
  - the editor actions (`Panel.editor`);
  - the chat stream parts (`ChatStream.parts`);
  - the page's requests (`WebviewState.posted`).
- A number printed inside chat markdown is kept as a value in the chat part
  (`LineLabel`, `CommentText`) rather than as text.

## Model

| member | source | states |
|---|---|---|
| `Comment.StripRemovesFirstBlock` | src/review/comment.ts:24-30 | When the trimmed reply holds an opening tag followed by a closing tag, exactly the span from the first opening tag to the nearest closing tag after it is cut out; the result is not trimmed again |
| `Comment.StripWithoutBlock` | src/review/comment.ts:24-30 | Without a complete block the reply is only trimmed |
| `Comment.StripCases` | src/review/comment.ts:24-30 | Every trimmed reply holds either a complete block or none, so the two lemmas above cover all replies |
| `Comment.CutFirstBlock` | src/review/comment.ts:26-29 | The result is the text with one contiguous stretch cut out of it; a text without the opening tag is returned unchanged |
| `Comment.StripReasoning` | src/review/comment.ts:24-30 | The result is the trimmed reply with at most one contiguous stretch removed |
| `Comment.PositiveNumber` | src/review/comment.ts:96-109 | An optional line of the adjustment is kept exactly when it is a number above 0, with that value |
| `Comment.ParseComment` | src/review/comment.ts:33-72 | Succeeds exactly on an object with a non-empty string `file` and a string `comment`; throws "Expected comment" exactly on a falsy or non-object value and "Missing `comment`" exactly when only `comment` is wrong; copies `file`, trims `comment`, and always yields a canonical comment |
| `Comment.CoerceLine` | src/review/comment.ts:48-55 | The line is never negative; it is the given number when that number is at least 0, and 1 when the field is missing, not a number or negative |
| `Comment.CoerceSeverity` | src/review/comment.ts:57-65 | The severity lies in [1, 5]; it is the given number when that number lies in [1, 5], and 1 otherwise |
| `Comment.ParseAdjustment` | src/review/comment.ts:74-111 | An adjustment is present exactly when `proposedAdjustment` is a truthy object with string `originalCode`, `adjustedCode` and `description`; these are copied from it, and `startLine`/`endLine` are present exactly when given as numbers above 0, with those values |
| `Comment.ParsedLine` | src/review/comment.ts:48-55 | `line` is the given number when it is at least 0 (an explicit 0 survives) and 1 when missing, negative or not a number |
| `Comment.ParsedSeverity` | src/review/comment.ts:57-65 | `severity` is the given number when it lies in [1, 5], fractions included, and 1 otherwise |
| `Comment.ParsedAdjustment` | src/review/comment.ts:75-111 | An adjustment is attached exactly when `proposedAdjustment` is an object with string `originalCode`, `adjustedCode` and `description`; those are copied, and `startLine`/`endLine` are present exactly when given as numbers above 0 |
| `Comment.ParseEncode` | src/review/comment.ts:33-114 | Every canonical comment, written as the JSON object the prompt asks for, parses back to itself |
| `Comment.EncodeParse` | src/review/comment.ts:33-114 | Every parsed comment is canonical and survives encoding and parsing unchanged |
| `Comment.ParsedIsDocumented` | src/types/ReviewComment.ts:11-18 | Every parsed comment meets the documented bounds (line not negative, severity in 0..5) and the tighter severity of at least 1 |
| `Comment.ParseAll` | src/review/comment.ts:11-21 | The list of parsed comments is never longer than the array |
| `Comment.SurvivorsParse` | src/review/comment.ts:11-21 | The k-th comment returned is the parse of the k-th element that parses |
| `Comment.SurvivorsIncrease` | src/review/comment.ts:11-21 | The elements that parse keep their original relative order |
| `Comment.SurvivorsComplete` | src/review/comment.ts:11-21 | An element is kept exactly when `parseComment` accepts it |
| `Comment.ParseAllAppend` | src/review/comment.ts:11-21 | Elements are parsed independently: parsing a concatenation concatenates the results |
| `Comment.ParseAllCanonical` | src/review/comment.ts:11-21 | Every comment returned is canonical, so its severity lies in [1, 5] |
| `Comment.ParseResponse` | src/review/comment.ts:7-22 | The loop returns the parses of the elements of `parseAsJsonArray(stripReasoning(response))` that parse, in order |
| `Comment.EntryIsStableSort` | src/review/comment.ts:121-135 | A file with comments contributes a worst-first permutation of its comments, with ties in their original order and `maxSeverity` the maximum severity |
| `Comment.Step` | src/review/comment.ts:121-135 | One iteration keeps every value of the map aggregated and stored under its own target; a file without comments changes nothing |
| `Comment.Collect` | src/review/comment.ts:120-136 | The map built by the loop has each key once and every value aggregated under its own target |
| `Comment.CollectMembership` | src/review/comment.ts:120-136 | A file is in the map exactly when some entry for it has comments |
| `Comment.CollectLastEntry` | src/review/comment.ts:131-135 | The value of a file is built from the last entry for it that has comments |
| `Comment.CollectReplaceKeepsPosition` | src/review/comment.ts:131-135 | A later entry for a file already present replaces its value and keeps its position |
| `Comment.CollectNewGoesLast` | src/review/comment.ts:131-135 | An entry for a new file with comments goes after all earlier files |
| `Comment.CollectSkipsEmpty` | src/review/comment.ts:126-128 | An entry without comments changes nothing |
| `Comment.CollectAggregated` | src/review/comment.ts:120-136 | Collecting files that are already aggregated and distinct rebuilds them in order |
| `Comment.AggregateShape` | src/review/comment.ts:120-143 | Every output file has comments, sorted worst first, with `maxSeverity` the first (and largest) severity; files come in non-increasing `maxSeverity`; no target appears twice |
| `Comment.AggregateMembership` | src/review/comment.ts:120-143 | A target appears in the output exactly when some input entry for it has comments |
| `Comment.AggregateLastWins` | src/review/comment.ts:120-143 | Each output file is the sorted form of the last non-empty input entry for its target |
| `Comment.AggregateFilesStable` | src/review/comment.ts:139-141 | Files with equal `maxSeverity` keep the map's insertion order |
| `Comment.AggregateIdempotent` | src/review/comment.ts:117-144 | Aggregating the output again yields it unchanged |
| `Comment.Aggregate` | src/review/comment.ts:117-144 | The files come out in non-increasing `maxSeverity` |
| `Comment.SortFileCommentsBySeverity` | src/review/comment.ts:117-144 | The loop over the entries computes the aggregate: every file aggregated, files in non-increasing `maxSeverity` |
| `StableSort.SortDesc` | src/review/comment.ts:123-124 | The sort returns a permutation of its input in non-increasing key order |
| `StableSort.SortStable` | src/review/comment.ts:123-124 | For every key, the elements with that key keep their relative order |
| `StableSort.SortIdempotent` | src/review/comment.ts:139-141 | Sorting a sorted list changes nothing |
| `StableSort.HeadIsMax` | src/review/comment.ts:129 | The first element of a sorted non-empty list carries the maximum key |
| `JsMap.Set` | src/review/comment.ts:131-135 | `Map.set` replaces the value of a present key in place and appends a new key at the end |
| `JsMap.Values` | src/review/comment.ts:139 | The values come in key insertion order |
| `JsMap.ValuesSetNew` | src/review/comment.ts:131-139 | Setting a new key appends its value to the iteration |
| `Text.Trim` | src/review/comment.ts:69 | `trim` removes whitespace from both ends and nothing else; the result neither starts nor ends with whitespace |
| `Text.TrimIdempotent` | src/review/comment.ts:29 | Trimming twice is trimming once |
| `ReviewTypes.VisibleComments` | src/vscode/CodeReviewPanel.ts:253-255 | The filter keeps exactly the comments with severity at least the minimum and line above 0 |
| `ReviewTypes.VisibleCommentsAppend` | src/extension.ts:409-412 | The filter keeps order: filtering a concatenation filters each part |
| `ReviewTypes.HasVisibleIff` | src/extension.ts:270-273 | A file has a visible comment exactly when its filtered list is non-empty |
| `PromptV1.CustomRules` | src/review/promptV1.ts:8 | Non-empty custom rules become their trimmed text plus one newline; empty ones add nothing |
| `PromptV1.CustomRulesWhitespaceOnly` | src/review/promptV1.ts:8 | Rules made only of whitespace still add a single newline, because the length test comes before the trim |
| `PromptV1.WrappedChangeDescription` | src/review/promptV1.ts:10-12 | The description block is present exactly for a non-empty description, wrapped in `<Change Description>` tags |
| `PromptV1.PromptStartsFixed` | src/review/promptV1.ts:14-31 | The prompt starts with the instructions before the custom rules, and that text is the same for every argument |
| `PromptV1.PromptCustomRulesPlace` | src/review/promptV1.ts:24-31 | The custom rules sit right after the built-in review rules and right before `</Review Rules>` |
| `PromptV1.PromptEndsWithDiff` | src/review/promptV1.ts:55-60 | The change description is followed by a blank line and the verbatim diff between `<Diff>` tags, which ends the prompt |
| `PromptV1.PromptSectionOrder` | src/review/promptV1.ts:14-59 | The sections appear in the order intro, Diff Format, Review Rules, Output Rules, Output Example, change description, Diff |
| `PromptV1.PromptStatesFormat` | src/review/promptV1.ts:20-44 | The prompt holds, at fixed places, the template's sentence that removed lines carry LINE NUMBER 0 and its lines naming the output fields and the adjustment's fields |
| `PromptV1.CreateReviewPromptV1` | src/review/promptV1.ts:3-61 | The prompt starts with the fixed introduction and ends with the diff between `<Diff>` tags |
| `Progress.ForwardedNoStutter` | src/vscode/CodeReviewPanel.ts:226-237 | No forwarded message is empty and none repeats the one before it |
| `Progress.ForwardedSubsequence` | src/vscode/CodeReviewPanel.ts:226-237 | Every forwarded message was reported, in the same order |
| `Progress.ForwardedOfClean` | src/vscode/CodeReviewPanel.ts:226-237 | Reports free of empties and repeats are all forwarded |
| `Progress.ForwardedIdempotent` | src/vscode/CodeReviewPanel.ts:226-237 | Forwarding what was forwarded changes nothing |
| `Progress.Reporter.constructor` | src/vscode/CodeReviewPanel.ts:226-227 | A new reporter has forwarded nothing and remembers `''` |
| `Progress.Reporter.Report` | src/vscode/CodeReviewPanel.ts:228-235 | A non-empty message different from the last one is forwarded and remembered; any other is dropped; the forwarded list stays the forwarding of all reports |
| `CodeReviewPanel.FirstPresent` | src/vscode/CodeReviewPanel.ts:97 | `find` returns a candidate that is present, or none when no candidate is present |
| `CodeReviewPanel.FirstPresentIsFirst` | src/vscode/CodeReviewPanel.ts:97 | No earlier candidate is present |
| `CodeReviewPanel.DefaultBaseSpec` | src/vscode/CodeReviewPanel.ts:96-101 | The default base is the first preferred branch present; otherwise the first branch; none exactly when there are no branches |
| `CodeReviewPanel.DefaultBase` | src/vscode/CodeReviewPanel.ts:96-101 | There is no default base exactly when there are no branches; a default base is one of the branches, and it is the first branch unless it is a preferred one |
| `CodeReviewPanel.FilterFile` | src/vscode/CodeReviewPanel.ts:251-256 | The filtered file keeps its target and original `maxSeverity` and exactly its visible comments |
| `CodeReviewPanel.FilteredResults` | src/vscode/CodeReviewPanel.ts:249-259 | No more files are posted than reviewed |
| `CodeReviewPanel.FilteredResultsMembership` | src/vscode/CodeReviewPanel.ts:249-259 | A file is posted exactly when it has a visible comment, and then it is posted filtered |
| `CodeReviewPanel.FilteredResultsShape` | src/vscode/CodeReviewPanel.ts:253-259 | Every posted file has comments, all of them visible |
| `CodeReviewPanel.EntriesOf` | src/vscode/CodeReviewPanel.ts:262-268 | One navigation entry per comment, in order, tagged with the file's target |
| `CodeReviewPanel.NavEntriesMembership` | src/vscode/CodeReviewPanel.ts:262-268 | The entries are exactly one per comment of the files |
| `CodeReviewPanel.NavigationListMembership` | src/vscode/CodeReviewPanel.ts:246-268 | The navigation list holds exactly the visible comments of the review |
| `CodeReviewPanel.ProcessedTextInjective` | src/vscode/CodeReviewPanel.ts:283 | Different files get different "Processed k/n files..." lines |
| `CodeReviewPanel.FileMessagesContent` | src/vscode/CodeReviewPanel.ts:258-284 | One iteration posts the filtered file only when it has comments, then always its progress line |
| `CodeReviewPanel.LoopMessagesContent` | src/vscode/CodeReviewPanel.ts:249-285 | The loop posts exactly the filtered results, in order, and the lines "Processed k/n files..." for k = 1 to n |
| `CodeReviewPanel.NextIndex` | src/vscode/CodeReviewPanel.ts:327 | The next index is a valid position |
| `CodeReviewPanel.PreviousIndex` | src/vscode/CodeReviewPanel.ts:329-331 | The previous index is a valid position |
| `CodeReviewPanel.NextPreviousInverse` | src/vscode/CodeReviewPanel.ts:326-332 | Next and previous undo each other |
| `CodeReviewPanel.FromNoSelection` | src/vscode/CodeReviewPanel.ts:326-332 | From no selection, next goes to the first comment and previous to the last |
| `CodeReviewPanel.NextVisitsInOrder` | src/vscode/CodeReviewPanel.ts:327 | From no selection, n steps forward visit every comment once, in order |
| `CodeReviewPanel.NextWraps` | src/vscode/CodeReviewPanel.ts:327 | Stepping forward wraps past the last comment to the first |
| `CodeReviewPanel.FindIndex` | src/vscode/CodeReviewPanel.ts:313-315 | The index of the first equal entry, or -1 exactly when there is none |
| `CodeReviewPanel.EditorLine` | src/vscode/CodeReviewPanel.ts:364 | The editor line is the comment's line minus one from line 1 on, and 0 below line 1, so it is never negative |
| `CodeReviewPanel.Panel.constructor` | src/vscode/CodeReviewPanel.ts:24-25 | The panel starts with no comments, no selection and nothing posted |
| `CodeReviewPanel.Panel.GetBranches` | src/vscode/CodeReviewPanel.ts:87-108 | Posts the branches, the current branch or `''`, and the default base |
| `CodeReviewPanel.Panel.ForwardReports` | src/vscode/CodeReviewPanel.ts:226-239 | The webview receives exactly the forwarded progress messages |
| `CodeReviewPanel.Panel.PushEntries` | src/vscode/CodeReviewPanel.ts:262-268 | Appends one navigation entry per comment of the file |
| `CodeReviewPanel.Panel.PostFile` | src/vscode/CodeReviewPanel.ts:250-284 | One iteration: the filtered file is recorded and posted when it has comments, and the progress line is posted |
| `CodeReviewPanel.Panel.PostFileResults` | src/vscode/CodeReviewPanel.ts:243-285 | The loop yields the filtered results, a navigation list of exactly their comments, and the loop's messages |
| `CodeReviewPanel.Panel.ReviewChanges` | src/vscode/CodeReviewPanel.ts:207-306 | On success: the navigation list is rebuilt, the selection resets to -1, and the messages are started, progress, per-file results and completed. On a throw: the list and selection are kept, and an error message is posted |
| `CodeReviewPanel.Panel.ShowCommentAtIndex` | src/vscode/CodeReviewPanel.ts:337-342 | An index outside the list shows nothing; otherwise its comment is shown at its editor line, numbered `index + 1` of the list length |
| `CodeReviewPanel.Panel.OpenFileWithComment` | src/vscode/CodeReviewPanel.ts:309-318 | The selection becomes the first equal entry, or -1, and only a found entry is shown |
| `CodeReviewPanel.Panel.NavigateToComment` | src/vscode/CodeReviewPanel.ts:320-335 | With no comments only an information message is shown; otherwise the selection moves circularly and that comment is shown; the selection stays in range |
| `Extension.CancellationParts` | src/extension.ts:384-390 | Nothing is appended unless cancelled; then "Cancelled, showing partial results." exactly when there are file results, else "Cancelled." |
| `Extension.ReportProgress` | src/extension.ts:375-380 | The chat's progress parts are always exactly the forwarded messages |
| `Extension.ForwardProgress` | src/extension.ts:373-383 | Over all reports, the chat receives exactly the forwarded messages as progress |
| `Extension.Review` | src/extension.ts:367-393 | `review` writes the forwarded progress, then the cancellation text, and returns the review result |
| `Extension.FilesWithVisible` | src/extension.ts:269-274 | The filter keeps exactly the files with a visible comment |
| `Extension.OpensPanelIff` | src/extension.ts:269-277 | The panel opens exactly when some comment is visible, which is exactly when the panel itself posts some file result |
| `Extension.PanelParts` | src/extension.ts:277-292 | The note and the button are written exactly when the panel opens, and then they are the panel note text and a button running `codeReview.openCodeReviewPanel` labelled "Open Code Review Panel" |
| `Extension.PromptTypeParts` | src/extension.ts:433-435 | A present, non-empty prompt type is written in bold followed by ": ", and nothing is written otherwise |
| `Extension.CommentParts` | src/extension.ts:418-437 | A comment is written as a bullet, then a location when the target is checked out and the line is above 0 (else a line label), and ends with its text and severity |
| `Extension.SummaryParts` | src/extension.ts:447-453 | "No problems found." exactly when nothing was written and there are no errors; otherwise the not-checked-out note exactly when the target is not checked out |
| `Extension.ErrorLines` | src/extension.ts:459-461 | One ` - ` line per error message |
| `Extension.ErrorSummary` | src/extension.ts:455-465 | An error is thrown exactly when there are errors |
| `Extension.ErrorSummaryLines` | src/extension.ts:455-465 | The thrown message starts with the error count, as a decimal that reads back as that count, and lists every message on its own line, in order |
| `Extension.ShowComment` | src/extension.ts:418-440 | One iteration of the inner loop writes the comment's parts |
| `Extension.ShowComments` | src/extension.ts:418-440 | The inner loop writes the parts of the shown comments in order and clears `noProblemsFound` exactly when it writes one |
| `Extension.ShowFile` | src/extension.ts:409-444 | One file is written as an anchor, its visible comments and a blank line, or not at all; `noProblemsFound` survives exactly when the file has no visible comment |
| `Extension.ShowFiles` | src/extension.ts:403-445 | The loop stops, unfinished, at the file before which the token reads cancelled; otherwise it writes every file, and `noProblemsFound` is "no file has a visible comment" |
| `Extension.ShowReviewResults` | src/extension.ts:395-466 | `showReviewResults` writes the files up to cancellation, then the summary line unless cancelled, and throws the error summary unless cancelled |
| `Extension.ShownParts` | src/extension.ts:395-466 | What is written is a prefix of what the uncancelled loop and its summary write, and "No problems found." appears only when the loop ran to the end, no comment was visible and there were no errors |
| `Extension.FilesPartsPrefix` | src/extension.ts:404-408 | Stopping the file loop early writes a prefix of what the whole loop writes |
| `Extension.ShowReview` | src/extension.ts:265-294 | `handleChat` after the request: progress, cancellation text, panel note and button exactly when the panel opens, then the results |
| `Extension.FilePartsContent` | src/extension.ts:409-444 | A file's parts are its anchor and blank line when it has a visible comment, plus the parts of its visible comments |
| `Extension.FileEmits` | src/extension.ts:418-440 | A file writes a comment exactly when it has a visible comment |
| `Extension.NoProblemsIffNothingWritten` | src/extension.ts:403-439 | `noProblemsFound` holds at the end exactly when no comment was written |
| `Extension.WrittenCommentsAreVisible` | src/extension.ts:404-440 | The comments written are exactly the visible comments of the files |
| `Extension.AnchoredFiles` | src/extension.ts:414-416 | A file is anchored exactly when it has a visible comment |
| `Extension.LocationsOnlyWhenCheckedOut` | src/extension.ts:419-431 | With the target checked out no comment gets a line label, and each location is a visible comment's line made 0-based; otherwise no location is written |
| `Extension.NoProblemsFoundIff` | src/extension.ts:447-449 | "No problems found." is written exactly when the loop finished, no comment was written and there are no errors |
| `Extension.CommitRefSpec` | src/extension.ts:306-320 | `/commit` fails exactly when two refs are given; a given target is used without asking; otherwise the picked commit is used; nothing picked means no review |
| `Extension.CommitRef` | src/extension.ts:306-320 | An error, with the `/commit` message, exactly when both a target and a base are given; no commit exactly when neither a target is given nor one is picked; otherwise the given target, or else the picked commit |
| `Extension.DispatchShapes` | src/extension.ts:121-177 | The argument shapes are tried in order: a single array or object, with a one-element array unwrapped; a single string, decoded and parsed as JSON, with a one-element array unwrapped; three or more strings; anything else is rejected with the invalid-format message |
| `Extension.DispatchArguments` | src/extension.ts:121-177 | The invalid-format error, with its message, exactly when the arguments match none of the accepted shapes; a single array or object gives its unwrapped value |
| `Extension.SeparateStrings` | src/extension.ts:149-168 | A failure is the throw of decoding one of the first five arguments; a success carries the decoded first argument as its file path |
| `Extension.SeparateStringsDecoded` | src/extension.ts:149-168 | The separate-strings shape uses the decoded first three arguments, and a 4th or 5th argument only when it is a non-empty string |
| `Extension.FailureText` | src/extension.ts:181-189 | The text is "Failed to apply adjustment: " followed by the invalid-format message, the thrown error's message, or "Unknown error" for a thrown value that is not an error |
| `Webview.GetFileName` | media/main.js:285-289 | The file name has no `/`, ends the path, and is the whole path or follows a `/` |
| `Webview.FileNameUnique` | media/main.js:285-289 | Those properties determine the file name: it is the part after the last `/` |
| `Webview.FileNameInDirectory` | media/main.js:285-289 | The name of `dir/name` is `name` |
| `Webview.FileNameOfName` | media/main.js:285-289 | A path without `/` is its own name |
| `Webview.GetStatusClass` | media/main.js:291-300 | The class is empty exactly for statuses other than A, M, D, R, C |
| `Webview.StatusClassInjective` | media/main.js:291-300 | Each known status has its own `status-` class |
| `Webview.FirstPrefix` | media/main.js:137-143 | The loop finds the first prefix in order that the name starts with |
| `Webview.FormatBranchDisplay` | media/main.js:129-152 | The loop with `break` computes the branch display |
| `Webview.RemotePrefixesExclusive` | media/main.js:133 | A name starts with at most one of the remote prefixes |
| `Webview.BranchDisplaySpec` | media/main.js:129-151 | An empty name is returned as it is. A name is remote exactly when it starts with a remote prefix, and then its display is the name without that prefix. Otherwise the display is the name itself |
| `Webview.BranchDisplayOf` | media/main.js:129-152 | An empty name is left unformatted. A formatted display is a suffix of the name; it is remote exactly when the name starts with a remote prefix, and is then the name with one such prefix removed; otherwise it is the name itself |
| `Webview.WebviewState.constructor` | media/main.js:28-33 | Nothing selected, no review running, dropdown closed, no results |
| `Webview.ButtonsUpdatedSpec` | media/main.js:233-255 | The buttons show exactly when both branches are chosen and differ, and then exactly one file-list request naming them is posted; otherwise the buttons and the preview, status and results sections are hidden and nothing is posted; no other field changes |
| `Webview.ReviewRequestedSpec` | media/main.js:306-324 | With a branch missing, the status shows the select-both-branches error and nothing is posted; otherwise the review runs, the main button is disabled and exactly one `reviewChanges` request with both branches and the review type is posted; branches, dropdown and results are unchanged |
| `Webview.WebviewState.UpdateReviewButtons` | media/main.js:233-255 | The new page state is the button gate applied to the old one, and the gate invariant holds afterwards |
| `Webview.WebviewState.BaseBranchSelected` | media/main.js:160-169 | The new page state is the old one with the base branch set, passed through the button gate |
| `Webview.WebviewState.TargetBranchSelected` | media/main.js:170-179 | The new page state is the old one with the target branch set, passed through the button gate |
| `Webview.WebviewState.PopulateBranches` | media/main.js:207-231 | The new page state stores the branch list, takes a given current branch as the target and a given default base as the base, and is then passed through the button gate |
| `Webview.WebviewState.SetDefaults` | media/main.js:208-229 | Only the branch list and the given current branch and default base change; the state is otherwise as before |
| `Webview.WebviewState.ShowError` | media/main.js:546-550 | The status section shows the message and nothing else changes |
| `Webview.WebviewState.StartReview` | media/main.js:306-324 | The new page state is the review request applied to the old one |
| `Webview.WebviewState.HandleReviewStarted` | media/main.js:326-345 | The review runs, the main button is disabled, the preview and status are hidden, the results are shown and cleared; nothing else changes |
| `Webview.WebviewState.HandleFileReviewCompleted` | media/main.js:365-378 | A missing result is ignored and any other is appended to the results; nothing else changes |
| `Webview.WebviewState.HandleReviewCompleted` | media/main.js:380-402 | The review stops, the main button is enabled, the results are shown and become the given ones, or empty; nothing else changes |
| `Webview.WebviewState.HandleReviewError` | media/main.js:404-413 | The review stops, the main button is enabled, and the results and everything else are kept |
| `Webview.WebviewState.ToggleDropdown` | media/main.js:104-116 | The dropdown flips and nothing else changes |
| `Webview.WebviewState.CloseDropdown` | media/main.js:118-123 | The dropdown closes and nothing else changes |
| `Webview.WebviewState.MainAreaClick` | media/main.js:52-59 | While a review runs the state is unchanged; otherwise it is the review request for committed changes applied to it |
| `Webview.WebviewState.ChevronClick` | media/main.js:61-68 | The dropdown flips unless the main button is disabled, and nothing else changes |
| `Webview.WebviewState.DropdownOptionClick` | media/main.js:71-81 | An option with an action requests its review unless a review runs; in every case the dropdown then closes |
| `Webview.WebviewState.OutsideClick` | media/main.js:84-88 | The dropdown is closed afterwards and nothing else changes |

## Left out

- The VS Code API (webview transport, comment threads, status bar, quick picks, commands, chat model selection) is left out. Its visible effects are recorded as sequences of messages, editor actions and chat parts.
- Comment-thread bodies, status bar texts and the catch block of `_showCommentAtIndex` are left out. `_showCommentAtIndex` is modelled only by its bounds check and by what it shows.
- `CodeReviewPanel.Panel.ReviewChanges`: runs as one atomic step, but in the source it is not. The 300 ms wait in its file loop (src/vscode/CodeReviewPanel.ts:277) is an `await`, so the panel's `nextComment`, `previousComment` and `openFile` handlers (src/vscode/CodeReviewPanel.ts:51-77) and the status-bar command `codeReview.nextComment` (src/extension.ts:51-55) can run while the navigation list is being rebuilt. The list was emptied at src/vscode/CodeReviewPanel.ts:246, but the index keeps its old value until the reset at src/vscode/CodeReviewPanel.ts:287, so in that window the index can point past the partly rebuilt list. The bounds check in `_showCommentAtIndex` then silently shows nothing. `Panel.Valid()` (index at least -1 and below the list length) is therefore proved only between whole messages, and the model does not capture this interleaving.
- Git calls are left out (`getBranchList`, `getReviewScope`, `getChangedFiles`, `isBranch`, `isSameRef`, `isInitialCommit`, `parseArguments`, `pickRef`/`pickRefs`/`pickCommit`). Their results are inputs; the `/review` and `/branch` paths of `getReviewRequest` are not modelled.
- `reviewDiff`, `parseAsJsonArray`, `reasoningTag` and `responseExample` live in files that are not part of this model, so they are parameters.
- `decodeURIComponent` and `JSON.parse` are parameters that may throw.
- `Comment.StripReasoning`: the tag is matched as literal text; the source builds a regular expression from it, which differs only if the tag holds regular-expression metacharacters.
- `Extension.SeparateStringsDecoded`: the decoded `startLine`/`endLine` strings are returned as they are, because `parseInt` is not applied.
- `Extension.DispatchShapes`: an `undefined` argument cannot be expressed, because arguments are JSON values.
- `codeReviewPanel.applyAdjustment` and `displayChatReviewResults` are left out; both are in code outside this model.
- Number-to-text rendering inside chat markdown is kept as values, because JavaScript's number formatting is not modelled.
- HTML produced by `formatBranchDisplay`, `updateResultsUI`, `handleFilesListLoaded` and the other DOM code is left out, and so are `escapeHtml` and `getNonce`.
- The visibility changes made by two webview handlers are left out, because the file list and chat-review messages are not modelled on `WebviewState`. `handleFilesListLoaded` shows the preview section (media/main.js:258), and it is the only place `previewHidden` becomes false. `handleChatReviewDisplaying` hides the preview and status sections and shows the results section (media/main.js:351-356). In the model, therefore, `previewHidden` never becomes false after construction.
- `handleChat`'s unknown-command help text and its "Reviewing …" header are left out; `ShowReview` starts where the request is settled.
- The panel's `_getFilesList`, `_selectBaseBranch` and `_selectTargetBranch` are left out. They only relay git results.
- The cancellation token of `showReviewResults` is modelled as the index of the first file before which it reads cancelled. This loses nothing, because the source reads the token once per file.
- Throws from `getReviewScope` and from `reviewDiff` are one `Thrown` outcome of the review, which is handled the same way in both cases.
