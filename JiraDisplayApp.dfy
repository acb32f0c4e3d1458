/**
 * `JiraDisplayApp.updateDisplay` and the zero-item branch of `init`, as
 * methods over the parsed items. The clock, the textarea, the storage and the
 * DOM are outside: the cutoff instant, the fallback date string and the
 * keyword text come in as parameters, and the issues panel comes out as a
 * `Report`. Each of the three passes of `updateDisplay` keeps the source's
 * loops: items in feed order, comments by a decreasing index, stopping where
 * the source breaks. The inner loops of the date and summary passes are
 * methods of their own (`ScanItemDate`, `AppendSummaryEntry`); a `return`
 * there is the source's inner `break`, after which nothing else of the item
 * is done.
 */
module JiraDisplayApp {
  import opened Wrappers
  import opened Strings
  import opened Feed
  import opened DateProcessor
  import opened Keywords
  import opened Titles
  import opened HtmlGenerator
  import opened Passes

  /**
   * The date pass: items in feed order, stopping at the first one whose
   * comments yield a date; `today` when none does.
   */
  method ScanHeaderDate(items: seq<Item>, cutoff: int, today: string) returns (dateStr: string)
    ensures dateStr == HeaderDate(items, cutoff, today)
  {
    dateStr := "";
    var n := 0;
    while n < |items|
      invariant 0 <= n <= |items|
      invariant dateStr == ""
      invariant forall k :: 0 <= k < n ==> ItemDate(items[k].comments, cutoff).None?
    {
      dateStr := ScanItemDate(items[n].comments, cutoff);
      if dateStr != "" {
        FeedDateIs(items, cutoff, n);
        break;
      }
      n := n + 1;
    }
    if dateStr == "" {
      dateStr := today;
    }
  }

  /**
   * The inner loop of the date pass for one item: its comments newest first,
   * stopping at the first qualifying one whose log path yields a date (the
   * body of extractDateFromPath is written out here, as the source does);
   * the empty string when none does.
   */
  method ScanItemDate(comments: seq<Comment>, cutoff: int) returns (dateStr: string)
    ensures ItemDate(comments, cutoff).None? ==> dateStr == ""
    ensures ItemDate(comments, cutoff).Some? ==> dateStr == ItemDate(comments, cutoff).value && dateStr != ""
  {
    dateStr := "";
    var i := |comments|;
    while i > 0
      invariant 0 <= i <= |comments|
      invariant forall k :: i <= k < |comments| ==> CommentDate(comments[k], cutoff).None?
    {
      i := i - 1;
      var comment := comments[i];
      if Qualifies(comment, cutoff) {
        var pathIndex := IndexOf(comment.text, Marker);
        if pathIndex.Some? {
          var pathLine := comment.text[pathIndex.value..];
          var dateMatch := FindDateToken(pathLine, 0);
          if dateMatch.Some? {
            dateStr := FormatDate(TokenDigits(pathLine, dateMatch.value));
            ItemDateIs(comments, cutoff, i);
            return;
          }
        }
      }
    }
  }

  /**
   * The summary pass: for each item, its newest marked comment decides the
   * item's two summary lines.
   */
  method CollectSummary(items: seq<Item>, keywords: seq<string>, cutoff: int) returns (summaryText: string)
    ensures summaryText == SummaryText(items, keywords, cutoff)
  {
    summaryText := "";
    for n := 0 to |items|
      invariant summaryText == SummaryText(items[..n], keywords, cutoff)
    {
      summaryText := AppendSummaryEntry(summaryText, items[n], keywords, cutoff);
      assert items[..n + 1][..n] == items[..n] && items[..n + 1][n] == items[n];
    }
    assert items[..|items|] == items;
  }

  /**
   * The body of the summary pass for one item: the comments newest first,
   * stopping at the first marked one, whose bracket text decides whether the
   * two summary lines are appended; qualifying comments without the marker
   * are passed over.
   */
  method AppendSummaryEntry(summaryText: string, item: Item, keywords: seq<string>, cutoff: int) returns (newText: string)
    ensures newText == summaryText + SummaryEntry(item, keywords, cutoff)
  {
    newText := summaryText;
    var cleanTitle := CleanTitle(item.title);
    var comments := item.comments;
    var hasTargetUserCommentToday := false;
    var bracketText := "";
    var matchedKeywords: seq<string> := [];
    var i := |comments|;
    while i > 0
      invariant 0 <= i <= |comments|
      invariant newText == summaryText
      invariant forall k :: i <= k < |comments| ==> !Marked(comments[k], cutoff)
    {
      i := i - 1;
      var comment := comments[i];
      if Qualifies(comment, cutoff) {
        hasTargetUserCommentToday := true;
        var pathIndex := IndexOf(comment.text, Marker);
        if pathIndex.Some? {
          NewestMarkedIs(comments, cutoff, i);
          bracketText := Trim(comment.text[..pathIndex.value]);
          matchedKeywords := MatchKeywords(keywords, bracketText);
          var displayText := DisplayText(matchedKeywords, bracketText);
          if hasTargetUserCommentToday && (|keywords| == 0 || |matchedKeywords| > 0) {
            var titleLine := TitleLine(displayText, cleanTitle);
            newText := newText + titleLine;
            var assignee := AssigneeOrDefault(item.assignee);
            var linkLine := LinkLine(item.link, assignee);
            newText := newText + linkLine;
            assert newText == summaryText + (titleLine + linkLine);
          } else {
            assert newText == summaryText + "";
          }
          return;
        }
      }
      assert !Marked(comment, cutoff);
    }
    assert NewestMarked(comments, cutoff) == None;
    assert newText == summaryText + "";
  }

  /**
   * The detail pass: for each item, all its comments newest first (no
   * `break`); a qualifying comment sets the flag, and while the body taken so
   * far is empty a marked comment replaces the bracket text, the matched
   * keywords and the body. The item gets a block when the flag is set and it
   * passes the keyword filter.
   */
  method RenderDetails(items: seq<Item>, keywords: seq<string>, cutoff: int) returns (blocks: seq<string>)
    ensures blocks == Details(items, keywords, cutoff)
  {
    blocks := [];
    for n := 0 to |items|
      invariant blocks == Details(items[..n], keywords, cutoff)
    {
      var item := items[n];
      var comments := item.comments;
      var lastTargetComment := "";  // null in the source: falsy, as is ''
      var hasTargetUserCommentToday := false;
      var bracketText := "";
      var matchedKeywords: seq<string> := [];
      var i := |comments|;
      while i > 0
        invariant 0 <= i <= |comments|
        invariant DetailState(hasTargetUserCommentToday, bracketText, matchedKeywords, lastTargetComment)
                  == DetailScan(comments[i..], keywords, cutoff)
      {
        i := i - 1;
        var comment := comments[i];
        if Qualifies(comment, cutoff) {
          hasTargetUserCommentToday := true;
          if lastTargetComment == "" {
            var pathIndex := IndexOf(comment.text, Marker);
            if pathIndex.Some? {
              bracketText := Trim(comment.text[..pathIndex.value]);
              matchedKeywords := MatchKeywords(keywords, bracketText);
              var processedText := comment.text[pathIndex.value..];
              var lines := TrimmedLines(processedText);
              var imageLineIndex := FindImageLine(lines, 0);
              if imageLineIndex.Some? {
                processedText := Join(lines[..imageLineIndex.value], "\n");
              }
              lastTargetComment := processedText;
            }
          }
        }
        assert comments[i..][0] == comments[i] && comments[i..][1..] == comments[i + 1..];
      }
      assert comments[0..] == comments;
      var hasMatchingKeywords := |keywords| == 0 || |matchedKeywords| > 0;
      if hasTargetUserCommentToday && hasMatchingKeywords {
        var displayText := DisplayText(matchedKeywords, bracketText);
        blocks := blocks + [IssueHtml(displayText, item.title, item.assignee, item.link, lastTargetComment)];
      }
      assert items[..n + 1][..n] == items[..n];
    }
    assert items[..|items|] == items;
  }

  /** `updateDisplay`: the keywords, the three passes, then header, blocks and footer. */
  method UpdateDisplay(items: seq<Item>, cutoff: int, today: string, keywordText: string) returns (report: Report)
    ensures report == PageOf(items, cutoff, today, keywordText)
  {
    var keywords := TrimmedLines(keywordText);
    var dateStr := ScanHeaderDate(items, cutoff, today);
    var summaryText := CollectSummary(items, keywords, cutoff);
    var summaryHtml := SummaryHtml(dateStr, summaryText);
    var issueHtml := RenderDetails(items, keywords, cutoff);
    report := Page(summaryHtml, issueHtml, EndingHtml());
  }

  /** `init` once the feed is parsed: the fixed notice for an empty feed, otherwise the display update. */
  method Init(items: seq<Item>, cutoff: int, today: string, keywordText: string) returns (report: Report)
    ensures |items| == 0 ==> report == Notice(NoIssuesMessage)
    ensures |items| > 0 ==> report == PageOf(items, cutoff, today, keywordText)
  {
    if |items| == 0 {
      report := Notice(NoIssuesMessage);
      return;
    }
    report := UpdateDisplay(items, cutoff, today, keywordText);
  }
}
