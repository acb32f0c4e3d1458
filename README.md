# Stress-test report popup, modelled in Dafny

The popup of the stress-test report extension reads the Jira issue feed. From
the comments that the two stress-test accounts left since midnight, it builds
the nightly report mail:

- a greeting with the run date;
- an indented summary of two lines per reported issue;
- one detail block per issue, showing the log body of the comment;
- a fixed footer that tells where the logs are kept.

This project models the report-building core of `popup.js` over already-parsed
data. Its inputs are:

- the feed items (title, link, optional assignee, comments oldest first);
- the cutoff instant (midnight today);
- the fallback date string;
- the raw text of the keyword box.

Its output is a `Report`. That is either the fixed notice for an empty feed,
or the header markup, the detail blocks in feed order and the footer markup.

Modules:

- `Wrappers`: `Option`.
- `Strings`: the JavaScript string operations the core uses, with their
  properties:
  - `indexOf` and `includes`;
  - `split` / `join` on a non-empty separator;
  - `trim` over the ECMAScript white-space set;
  - ASCII `toLowerCase`;
  - the `split('\n').map(trim).filter(x => x)` pipeline (`TrimmedLines`).
- `Feed`: the parsed items and comments, the configuration constants (watched
  authors, request phrases, the log-share marker `\172.22.48.92\`) and the
  qualifying-comment rule. This rule is the same in all three passes.
- `DateProcessor`: `extractDateFromPath`. The leftmost match of
  `Demo_stress_Test_log\2024\` plus eight digits after the first marker,
  formatted as `YYYY/MM/DD`.
- `Keywords`: the keyword filter.
- `Titles`: title cleaning, `replace(/\[[^\]]*\]/g, '').trim()`.
- `HtmlGenerator`: the three templates and the inline markup of the summary
  lines and the keyword span.
- `Passes`: what each of the three passes of `updateDisplay` computes, as
  functions:
  - the header date;
  - the summary entry of an item;
  - the detail scan of an item, newest comment first;
  - the detail block;
  - the page.
- `JiraDisplayApp`: `updateDisplay` and the zero-item branch of `init`, as
  methods. They keep the source's loops: items in feed order, comments by a
  decreasing index, and the `break`s where the source puts them. Each method
  is proved equal to the `Passes` function for its pass.
- `PassProperties`: what the passes mean:
  - where the header date comes from;
  - when an item gets summary lines;
  - which comment a detail block shows;
  - when the summary and the detail blocks disagree about an item.

Quirks the model keeps, and proves as lemmas:

- A qualifying comment without a date does not stop the date scan of its item.
- The summary uses the newest qualifying comment that carries the marker.
- The detail pass flags an item on any qualifying comment. So without keywords,
  an item whose qualifying comments all lack the marker gets a detail block but
  no summary lines.
- An empty processed body lets an older marked comment decide the detail block.
- The body is split and trimmed only when it has an "image" line.
- `updateDisplay` on an empty feed still renders a page. `init` with no items
  shows the notice instead.

## Model

| member | source | states |
|---|---|---|
| Strings.IndexOfSpec | popup.js:44 | `indexOf` gives the first occurrence of the pattern; none means the pattern occurs nowhere |
| Strings.ContainsIff | popup.js:194 | `includes` holds exactly when the pattern occurs at some position |
| Strings.SplitPieces | popup.js:168 | no piece of `split` contains the separator |
| Strings.JoinSplit | popup.js:311-315 | joining the pieces of a split with the same separator gives back the text |
| Strings.SplitJoin | popup.js:311-315 | splitting a join on a one-character separator that no piece contains gives back the pieces |
| Strings.SplitAppend | popup.js:168 | splitting on a one-character separator distributes over an occurrence of it |
| Strings.TrimSlice | popup.js:244 | `trim` keeps a slice of the text; only white space lies outside it, and neither end of it is white space |
| Strings.TrimIdempotent | popup.js:222 | trimming twice is trimming once |
| Strings.NonBlankClean | popup.js:168 | every entry kept by `map(trim).filter(x => x)` is non-empty and trimmed; with no line feed in the pieces, none in the entries |
| Strings.NonBlankAppend | popup.js:168 | the trim-and-drop-empties step works piece by piece, keeping order and repeats |
| Strings.NonBlankMembers | popup.js:168 | an entry is kept exactly when it is the non-empty trimming of some piece |
| Strings.NonBlankOfClean | popup.js:168 | pieces that are already trimmed and non-empty are kept unchanged, in order |
| Strings.TrimmedLinesClean | popup.js:168 | every keyword (every body line) read is non-empty, trimmed and free of line feeds |
| Strings.TrimmedLinesOfLine | popup.js:168 | a text without a line feed reads as its trimmed self, or as nothing when blank |
| Strings.TrimmedLinesAppend | popup.js:168 | the lines of two texts joined by a line feed are the lines of the first, then those of the second |
| Strings.TrimmedLinesJoin | popup.js:311-315 | clean lines joined by line feeds read back as the same lines |
| Strings.TrimmedLinesIdempotent | popup.js:311-315 | reading the lines of the joined lines gives the same lines |
| Feed.Qualifies | popup.js:192-194 | the qualifying-comment rule of all three passes (also popup.js:236-238 and 292-294), by definition: a watched author (JIRAUSER50632 or JIRAUSER51966), a parseable created instant at or after the cutoff, and one of the two request phrases in the text |
| Feed.AssigneeOrDefault | popup.js:261 | the assignee shown is never empty: a present non-empty assignee is shown as is, otherwise 'Unassigned'; the detail block falls back the same way (popup.js:77) |
| Keywords.MatchKeywordsSpec | popup.js:247-249 | the matched keywords are exactly the keywords found in the bracket text, ignoring case: the same members, each repeat kept, in the user's order |
| Titles.StripBracketTagsSpec | popup.js:222 | every character of the result occurs in the text, and the result has no `[` followed later by a `]` |
| Titles.StripTag | popup.js:222 | the replacement works tag by tag: the text before the first `[` is kept, that `[` and everything up to the first `]` after it are dropped, and the rest is stripped the same way |
| Titles.StripBracketTagsIdentity | popup.js:222 | a text with no `[` followed later by a `]` is unchanged by the replacement |
| Titles.TrimKeepsNoBracketPair | popup.js:222 | trimming keeps the absence of bracket pairs |
| Titles.CleanTitleSpec | popup.js:222 | a cleaned title has no bracket pair and no white space at either end |
| Titles.CleanTitleIdempotent | popup.js:222 | cleaning a cleaned title changes nothing |
| DateProcessor.FindDigitsAfterSpec | popup.js:48 | the search for a folder prefix followed by eight digits finds the leftmost such match; none means there is no match |
| DateProcessor.FindDateTokenSpec | popup.js:48 | the regex search finds the leftmost log folder followed by eight digits; none means there is no such match |
| DateProcessor.FormatDateSpec | popup.js:51-52 | the date is the eight digits in order, with a `/` after the 4th and after the 6th |
| DateProcessor.ExtractDateFromPathSpec | popup.js:43-53 | the result is null without the marker, and null exactly when no log folder with eight digits follows the first marker; otherwise it is the leftmost match's digits formatted as a `YYYY/MM/DD` string |
| Passes.NewestDated | popup.js:186-209 | the newest comment of an item that qualifies and yields a date; none means no comment does |
| Passes.ItemDate | popup.js:186-209 | an item has no date exactly when none of its comments yields one |
| Passes.ItemDateIs | popup.js:186-209 | the item's date is that of the newest comment that yields one |
| Passes.FeedDate | popup.js:183-212 | the feed has no date exactly when none of its items has one |
| Passes.FeedDateIs | popup.js:183-212 | the feed's date is that of the first item, in feed order, that has one |
| Passes.FindImageLineSpec | popup.js:312 | `findIndex` gives the first line mentioning "image" in any ASCII case; none means no line does |
| Passes.ProcessBodySpec | popup.js:310-316 | without an "image" line the body is the raw text from the marker on; otherwise its lines are exactly the clean lines before the first "image" line, joined by single line feeds; no line of the body mentions "image"; a non-empty tail gives an empty body exactly when its first line mentions "image" |
| Passes.NewestMarked | popup.js:229-265 | the newest qualifying comment that carries the marker; none means no comment does |
| HtmlGenerator.BreakAfter | popup.js:68 | the first `<br>` of `a + "<br>" + b` is the one after `a` when `a` has none |
| HtmlGenerator.IndentSegmentsNoBreak | popup.js:68 | a summary text without a `<br>` is one segment and gets a single INDENT in front |
| HtmlGenerator.IndentSegmentsAppend | popup.js:68 | each `<br>` closes a segment of the summary: the text before it gets one INDENT, and the rest is indented on its own |
| HtmlGenerator.IndentSummaryLines | popup.js:68 | in the header, the two summary lines of an issue and the empty line after them each get one INDENT, and the rest of the summary is indented on its own, when the shown texts hold no `<br>` |
| HtmlGenerator.SummaryHtml | popup.js:63-72 | by definition, the header template: the greeting with the date, the results heading, the indented summary and the detail-log heading, in the report font |
| HtmlGenerator.TitleOrDefault | popup.js:77 | the title shown in a detail block is never empty: a non-empty title as is, otherwise 'No title' |
| HtmlGenerator.CommentRow | popup.js:80 | by definition, the comment row of a detail block: the body in a table cell when it is non-empty (truthy), otherwise nothing |
| HtmlGenerator.IssueHtml | popup.js:74-84 | by definition, the detail-block template: the display text, the title (or 'No title') and assignee (or 'Unassigned'), the link, and the comment row |
| HtmlGenerator.EndingHtml | popup.js:86-99 | by definition, the fixed footer: the plan heading, the red note and the log share location |
| HtmlGenerator.DisplayText | popup.js:252-254 | by definition, the matched keywords joined by ', ' in a red span, or the bracket text when none matched (also popup.js:333-335) |
| JiraDisplayApp.ScanItemDate | popup.js:186-209 | the inner loop of the date pass yields the item's date, or the empty string when the item has none |
| JiraDisplayApp.ScanHeaderDate | popup.js:183-217 | the date pass yields the header date, which is the feed's date or the fallback string |
| JiraDisplayApp.AppendSummaryEntry | popup.js:221-267 | the body of the summary pass appends exactly the item's summary entry to the text so far |
| JiraDisplayApp.CollectSummary | popup.js:220-269 | the summary pass yields the entries of the items in feed order |
| JiraDisplayApp.RenderDetails | popup.js:275-341 | the detail pass yields the detail blocks of the items in feed order |
| JiraDisplayApp.UpdateDisplay | popup.js:167-347 | the display update renders the header with the header date and the summary, the detail blocks, then the footer |
| JiraDisplayApp.Init | popup.js:154-160 | an empty feed shows only the no-issues notice; otherwise the display update's page |
| PassProperties.ItemDateWitness | popup.js:186-209 | a dated item has a newest dated comment, and the item's date is that comment's |
| PassProperties.FeedDateWitness | popup.js:183-212 | a dated feed has a first dated item, and the feed's date is that item's |
| PassProperties.HeaderDateSource | popup.js:183-217 | a header date not taken from the fallback comes from the newest dated comment of the first item that has one; that comment qualifies and carries the marker, and the date is what `extractDateFromPath` gives for it, a `YYYY/MM/DD` string |
| PassProperties.HeaderDateFallback | popup.js:214-216 | without a dated qualifying comment anywhere, the header shows the fallback date |
| PassProperties.HeaderDateShape | popup.js:183-217 | the header date is the fallback or a `YYYY/MM/DD` string |
| PassProperties.MatchedSomeIff | popup.js:247-257 | some keyword matched exactly when a keyword occurs in the bracket text, ignoring case |
| PassProperties.BracketTextSpec | popup.js:244 | the bracket text has no white space at either end and never contains the marker |
| PassProperties.SummaryEntryShown | popup.js:229-265 | an item has summary lines exactly when it has a marked comment and the newest one's bracket text passes the keyword filter (no keywords, or one of them found) |
| PassProperties.SummaryEntryWithoutMarker | popup.js:241-265 | qualifying comments without the marker never give summary lines |
| PassProperties.SummaryTextAppend | popup.js:220-269 | the summary of a feed is the summary of its first part followed by that of the rest |
| PassProperties.DetailScanHas | popup.js:296 | the detail pass flags an item exactly when one of its comments qualifies, marker or not |
| PassProperties.DetailScanNoMarker | popup.js:298-320 | without a marked comment the bracket text, the matched keywords and the body stay empty |
| PassProperties.DetailScanEmptyBodies | popup.js:298-318 | while every marked comment has an empty body, the body taken stays empty |
| PassProperties.DetailScanTakes | popup.js:298-318 | the bracket text, the matched keywords and the body of a detail block come from the newest marked comment whose body is non-empty |
| PassProperties.DetailScanOldestMarked | popup.js:298-318 | when every marked body is empty, the oldest marked comment's bracket text and keywords are the ones kept, with an empty body |
| PassProperties.DetailBlockNeedsQualifying | popup.js:296-328 | an item without a qualifying comment gets no detail block, whatever the keywords |
| PassProperties.DetailsAppend | popup.js:275-341 | the detail blocks of a feed are those of its first part followed by those of the rest |
| PassProperties.DetailsBound | popup.js:325-341 | each item gives at most one detail block, and a feed in which no comment qualifies gives none |
| PassProperties.MarkerlessItemOnlyInDetails | popup.js:296-337 | without keywords, an item whose qualifying comments all lack the marker gets no summary lines but a detail block with an empty display text and no comment row |
| PassProperties.MarkerlessItemHiddenByKeywords | popup.js:325-328 | with keywords, an item without a marked comment gets neither summary lines nor a detail block |
| PassProperties.SummaryAndDetailAgree | popup.js:229-337 | when the newest marked comment has a non-empty body, the item has summary lines exactly when it has a detail block, and the block shows that comment's keywords (or bracket text) and body |
| PassProperties.EmptyBodyLetsOlderCommentDecide | popup.js:298-337 | when the newest marked comment's body is empty, it still decides the summary lines, but an older marked comment with a non-empty body decides the detail block |
| PassProperties.EmptyFeedPage | popup.js:167-347 | the display update over an empty feed renders the header with the fallback date and an empty summary, no detail blocks, then the footer |

## Left out

- The fetch of the feed, the XML parsing and `handleFetchError` (popup.js:14-38) are I/O. The parsed items are an input.
- Reads and writes of the keyword text and of `filterVisible` in `chrome.storage` (popup.js:115-128, 137, 171) are external storage. The keyword text is a parameter.
- The debounced input listener (popup.js:141-145) is timer and event-loop behaviour.
- The toggle button (popup.js:131-138) is UI only.
- The DOM: `innerHTML`, `createElement`, `appendChild` and the `issue` class of each block's wrapper `div` (popup.js:272, 329-345). The report is the header markup, the sequence of block markups and the footer markup.
- The clock (popup.js:55-58, 179-180): the cutoff instant and the fallback date string are parameters. A `created` attribute that `new Date` cannot parse is `None` and never qualifies.
- The error panel of `handleError` (popup.js:349-359) wraps an exception message from the I/O layer.
- background.js is not part of this model. It only schedules fetches and storage writes.
- Strings.LowerChar: `toLowerCase` is modelled over ASCII letters only. Unicode case mapping is left out.
- Strings.Trim: uses the ECMAScript white-space and line-terminator characters, listed one by one. No Unicode category lookup is modelled.
- Feed.Item: a missing title is not modelled, since the summary pass throws on it. The title is always a string, and an empty one shows as 'No title' in the detail block. A missing link, which would render as `undefined`, is not modelled either.
- JiraDisplayApp.ScanItemDate, JiraDisplayApp.AppendSummaryEntry: the inner comment loops of the date and summary passes are methods of their own. The source's inner `break` is a `return` there, after which nothing else is done for the item.
