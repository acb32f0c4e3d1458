/**
 * What the three passes of the display update mean, proved about the
 * functions of module Passes: where the header date comes from, when an item
 * gets summary lines, which comment a detail block shows, and how the
 * summary and the detail blocks can disagree about the same item.
 */
module PassProperties {
  import opened Wrappers
  import opened Strings
  import opened Feed
  import opened DateProcessor
  import opened Keywords
  import opened HtmlGenerator
  import opened Passes

  // ------------------------------------------------------------ date pass

  /** A dated item has a newest dated comment, and its date is that comment's. */
  lemma ItemDateWitness(comments: seq<Comment>, cutoff: int) returns (j: nat)
    requires ItemDate(comments, cutoff).Some?
    ensures j < |comments| && ItemDate(comments, cutoff) == CommentDate(comments[j], cutoff)
    ensures forall k :: j < k < |comments| ==> CommentDate(comments[k], cutoff).None?
  {
    j := NewestDated(comments, cutoff).value;
  }

  /** The first item that yields a date, or `|items|` when none does. */
  lemma FirstDatedItem(items: seq<Item>, cutoff: int) returns (i: nat)
    ensures i <= |items|
    ensures forall k :: 0 <= k < i ==> ItemDate(items[k].comments, cutoff).None?
    ensures i < |items| ==> ItemDate(items[i].comments, cutoff).Some?
  {
    i := 0;
    while i < |items| && ItemDate(items[i].comments, cutoff).None?
      invariant i <= |items|
      invariant forall k :: 0 <= k < i ==> ItemDate(items[k].comments, cutoff).None?
    {
      i := i + 1;
    }
  }

  /** A dated feed has a first dated item, and its date is that item's. */
  lemma FeedDateWitness(items: seq<Item>, cutoff: int) returns (i: nat)
    requires FeedDate(items, cutoff).Some?
    ensures i < |items| && FeedDate(items, cutoff) == ItemDate(items[i].comments, cutoff)
    ensures forall k :: 0 <= k < i ==> ItemDate(items[k].comments, cutoff).None?
  {
    i := FirstDatedItem(items, cutoff);
    FeedDateIs(items, cutoff, i);
  }

  /**
   * When some qualifying comment yields a date, the header date is the date
   * of the newest dated comment of the first item that has one; that comment
   * carries the marker, and the date is a `YYYY/MM/DD` string.
   */
  lemma HeaderDateSource(items: seq<Item>, cutoff: int, today: string) returns (i: nat, j: nat)
    requires FeedDate(items, cutoff).Some?
    ensures i < |items| && j < |items[i].comments|
    ensures forall k :: 0 <= k < i ==> ItemDate(items[k].comments, cutoff).None?
    ensures forall k :: j < k < |items[i].comments| ==> CommentDate(items[i].comments[k], cutoff).None?
    ensures Marked(items[i].comments[j], cutoff)
    ensures ExtractDateFromPath(items[i].comments[j].text) == Some(HeaderDate(items, cutoff, today))
    ensures IsDateString(HeaderDate(items, cutoff, today))
  {
    i := FeedDateWitness(items, cutoff);
    j := ItemDateWitness(items[i].comments, cutoff);
    ExtractDateFromPathSpec(items[i].comments[j].text);
  }

  /** Without a dated qualifying comment anywhere in the feed, the header shows the fallback date. */
  lemma HeaderDateFallback(items: seq<Item>, cutoff: int, today: string)
    requires forall i, j :: 0 <= i < |items| && 0 <= j < |items[i].comments| ==>
      CommentDate(items[i].comments[j], cutoff).None?
    ensures HeaderDate(items, cutoff, today) == today
  {
    forall i | 0 <= i < |items| ensures ItemDate(items[i].comments, cutoff).None? {
      assert forall j :: 0 <= j < |items[i].comments| ==> CommentDate(items[i].comments[j], cutoff).None?;
    }
  }

  /** The header date is the fallback or a `YYYY/MM/DD` string. */
  lemma HeaderDateShape(items: seq<Item>, cutoff: int, today: string)
    ensures HeaderDate(items, cutoff, today) == today || IsDateString(HeaderDate(items, cutoff, today))
  {
    if FeedDate(items, cutoff).Some? {
      var _, _ := HeaderDateSource(items, cutoff, today);
    }
  }

  // --------------------------------------------------------- keyword filter

  /** Some keyword matched exactly when one of the keywords occurs in the bracket text, ignoring ASCII case. */
  lemma MatchedSomeIff(keywords: seq<string>, bracketText: string)
    ensures |MatchKeywords(keywords, bracketText)| > 0 <==>
      exists k :: k in keywords && KeywordMatches(k, bracketText)
  {
    MatchKeywordsSpec(keywords, bracketText);
    var r := MatchKeywords(keywords, bracketText);
    if |r| > 0 {
      assert r[0] in r;
    }
  }

  /** The bracket text has no white space at either end and never contains the marker. */
  lemma BracketTextSpec(text: string)
    requires Contains(text, Marker)
    ensures Trim(BracketText(text)) == BracketText(text)
    ensures !Contains(BracketText(text), Marker)
  {
    var p := IndexOf(text, Marker).value;
    IndexOfSpec(text, Marker);
    NoOccurrenceInPrefix(text, Marker, p);
    var before := text[..p];
    var lo := TrimSlice(before);
    NoOccurrenceInSlice(before, Marker, lo, lo + |Trim(before)|);
    TrimIdempotent(before);
  }

  /** The filter an item passes: no keywords at all, or one of them in the bracket text. */
  ghost predicate PassesFilter(keywords: seq<string>, bracketText: string) {
    |keywords| == 0 || exists k :: k in keywords && KeywordMatches(k, bracketText)
  }

  // --------------------------------------------------------- summary pass

  /**
   * An item has summary lines exactly when it has a marked comment and the
   * newest one's bracket text passes the keyword filter.
   */
  lemma SummaryEntryShown(item: Item, keywords: seq<string>, cutoff: int)
    ensures SummaryEntry(item, keywords, cutoff) != "" <==>
      NewestMarked(item.comments, cutoff).Some? &&
      PassesFilter(keywords, BracketText(item.comments[NewestMarked(item.comments, cutoff).value].text))
  {
    match NewestMarked(item.comments, cutoff)
    case None =>
    case Some(j) =>
      MatchedSomeIff(keywords, BracketText(item.comments[j].text));
  }

  /** Qualifying comments without the marker never give summary lines. */
  lemma SummaryEntryWithoutMarker(item: Item, keywords: seq<string>, cutoff: int)
    requires forall k :: 0 <= k < |item.comments| ==> !Marked(item.comments[k], cutoff)
    ensures SummaryEntry(item, keywords, cutoff) == ""
  {
    assert NewestMarked(item.comments, cutoff).None?;
  }

  /** The summary of a feed is the summary of its first part followed by that of the rest. */
  lemma {:induction false} SummaryTextAppend(xs: seq<Item>, ys: seq<Item>, keywords: seq<string>, cutoff: int)
    decreases |ys|
    ensures SummaryText(xs + ys, keywords, cutoff) == SummaryText(xs, keywords, cutoff) + SummaryText(ys, keywords, cutoff)
  {
    if ys == [] {
      assert xs + ys == xs;
    } else {
      var n := |ys| - 1;
      assert (xs + ys)[..|xs + ys| - 1] == xs + ys[..n];
      assert (xs + ys)[|xs + ys| - 1] == ys[n];
      SummaryTextAppend(xs, ys[..n], keywords, cutoff);
    }
  }

  // ---------------------------------------------------------- detail pass

  /** The flag of the detail pass is set exactly when some comment qualifies. */
  lemma {:induction false} DetailScanHas(comments: seq<Comment>, keywords: seq<string>, cutoff: int)
    decreases |comments|
    ensures DetailScan(comments, keywords, cutoff).hasTargetComment <==>
      exists k :: 0 <= k < |comments| && Qualifies(comments[k], cutoff)
  {
    if comments != [] {
      DetailScanHas(comments[1..], keywords, cutoff);
      if exists k :: 0 <= k < |comments[1..]| && Qualifies(comments[1..][k], cutoff) {
        var k :| 0 <= k < |comments[1..]| && Qualifies(comments[1..][k], cutoff);
        assert comments[1..][k] == comments[k + 1];
      }
      if exists k :: 0 < k < |comments| && Qualifies(comments[k], cutoff) {
        var k :| 0 < k < |comments| && Qualifies(comments[k], cutoff);
        assert comments[1..][k - 1] == comments[k];
      }
    }
  }

  /** Without a marked comment, the detail pass keeps its starting bracket text, keywords and body. */
  lemma {:induction false} DetailScanNoMarker(comments: seq<Comment>, keywords: seq<string>, cutoff: int)
    requires forall k :: 0 <= k < |comments| ==> !Marked(comments[k], cutoff)
    decreases |comments|
    ensures DetailScan(comments, keywords, cutoff).bracketText == ""
    ensures DetailScan(comments, keywords, cutoff).matchedKeywords == []
    ensures DetailScan(comments, keywords, cutoff).lastTargetComment == ""
  {
    if comments != [] {
      assert forall k :: 0 <= k < |comments[1..]| ==> comments[1..][k] == comments[k + 1];
      DetailScanNoMarker(comments[1..], keywords, cutoff);
      assert !Marked(comments[0], cutoff);
    }
  }

  /** While every marked comment has an empty body, the body taken stays empty. */
  lemma {:induction false} DetailScanEmptyBodies(comments: seq<Comment>, keywords: seq<string>, cutoff: int)
    requires forall k :: 0 <= k < |comments| && Marked(comments[k], cutoff) ==> CommentBody(comments[k].text) == ""
    decreases |comments|
    ensures DetailScan(comments, keywords, cutoff).lastTargetComment == ""
  {
    if comments != [] {
      assert forall k :: 0 <= k < |comments[1..]| ==> comments[1..][k] == comments[k + 1];
      DetailScanEmptyBodies(comments[1..], keywords, cutoff);
      assert Marked(comments[0], cutoff) ==> CommentBody(comments[0].text) == "";
    }
  }

  /**
   * A detail block shows the newest marked comment whose body is non-empty:
   * the bracket text, the matched keywords and the body all come from it.
   */
  lemma {:induction false} DetailScanTakes(comments: seq<Comment>, keywords: seq<string>, cutoff: int, j: nat)
    requires j < |comments| && Marked(comments[j], cutoff) && CommentBody(comments[j].text) != ""
    requires forall k :: j < k < |comments| && Marked(comments[k], cutoff) ==> CommentBody(comments[k].text) == ""
    decreases |comments|
    ensures DetailScan(comments, keywords, cutoff).bracketText == BracketText(comments[j].text)
    ensures DetailScan(comments, keywords, cutoff).matchedKeywords == MatchKeywords(keywords, BracketText(comments[j].text))
    ensures DetailScan(comments, keywords, cutoff).lastTargetComment == CommentBody(comments[j].text)
  {
    var rest := comments[1..];
    assert forall k :: 0 <= k < |rest| ==> rest[k] == comments[k + 1];
    if j == 0 {
      DetailScanEmptyBodies(rest, keywords, cutoff);
    } else {
      DetailScanTakes(rest, keywords, cutoff, j - 1);
    }
  }

  /**
   * When every marked comment has an empty body, the oldest marked comment
   * is the last one taken: its bracket text and keywords decide, and the body
   * is empty.
   */
  lemma {:induction false} DetailScanOldestMarked(comments: seq<Comment>, keywords: seq<string>, cutoff: int, j: nat)
    requires j < |comments| && Marked(comments[j], cutoff)
    requires forall k :: 0 <= k < j ==> !Marked(comments[k], cutoff)
    requires forall k :: 0 <= k < |comments| && Marked(comments[k], cutoff) ==> CommentBody(comments[k].text) == ""
    decreases |comments|
    ensures DetailScan(comments, keywords, cutoff).bracketText == BracketText(comments[j].text)
    ensures DetailScan(comments, keywords, cutoff).matchedKeywords == MatchKeywords(keywords, BracketText(comments[j].text))
    ensures DetailScan(comments, keywords, cutoff).lastTargetComment == ""
  {
    var rest := comments[1..];
    assert forall k :: 0 <= k < |rest| ==> rest[k] == comments[k + 1];
    DetailScanEmptyBodies(rest, keywords, cutoff);
    if j > 0 {
      assert !Marked(comments[0], cutoff);
      DetailScanOldestMarked(rest, keywords, cutoff, j - 1);
    }
  }

  /** The detail blocks of a feed are those of its first part followed by those of the rest. */
  lemma {:induction false} DetailsAppend(xs: seq<Item>, ys: seq<Item>, keywords: seq<string>, cutoff: int)
    decreases |ys|
    ensures Details(xs + ys, keywords, cutoff) == Details(xs, keywords, cutoff) + Details(ys, keywords, cutoff)
  {
    if ys == [] {
      assert xs + ys == xs;
    } else {
      var n := |ys| - 1;
      assert (xs + ys)[..|xs + ys| - 1] == xs + ys[..n];
      assert (xs + ys)[|xs + ys| - 1] == ys[n];
      DetailsAppend(xs, ys[..n], keywords, cutoff);
    }
  }

  /** An item without a qualifying comment gets no detail block, whatever the keywords. */
  lemma DetailBlockNeedsQualifying(item: Item, keywords: seq<string>, cutoff: int)
    requires forall k :: 0 <= k < |item.comments| ==> !Qualifies(item.comments[k], cutoff)
    ensures DetailBlock(item, keywords, cutoff).None?
  {
    DetailScanHas(item.comments, keywords, cutoff);
  }

  /** Each item gives at most one detail block, and a feed in which no comment qualifies gives none. */
  lemma {:induction false} DetailsBound(items: seq<Item>, keywords: seq<string>, cutoff: int)
    ensures |Details(items, keywords, cutoff)| <= |items|
    ensures (forall i, k :: 0 <= i < |items| && 0 <= k < |items[i].comments| ==> !Qualifies(items[i].comments[k], cutoff))
      ==> Details(items, keywords, cutoff) == []
  {
    if items != [] {
      var n := |items| - 1;
      DetailsBound(items[..n], keywords, cutoff);
      DetailScanHas(items[n].comments, keywords, cutoff);
      assert forall i :: 0 <= i < n ==> items[..n][i] == items[i];
    }
  }

  // ------------------------------------------------ the passes side by side

  /**
   * An item with qualifying comments but none carrying the marker gets no
   * summary lines, yet, without keywords, it gets a detail block with an
   * empty display text and no comment row.
   */
  lemma MarkerlessItemOnlyInDetails(item: Item, cutoff: int)
    requires exists k :: 0 <= k < |item.comments| && Qualifies(item.comments[k], cutoff)
    requires forall k :: 0 <= k < |item.comments| ==> !Marked(item.comments[k], cutoff)
    ensures SummaryEntry(item, [], cutoff) == ""
    ensures DetailBlock(item, [], cutoff) == Some(IssueHtml("", item.title, item.assignee, item.link, ""))
  {
    SummaryEntryWithoutMarker(item, [], cutoff);
    DetailScanHas(item.comments, [], cutoff);
    DetailScanNoMarker(item.comments, [], cutoff);
  }

  /** With keywords, an item without a marked comment gets neither summary lines nor a detail block. */
  lemma MarkerlessItemHiddenByKeywords(item: Item, keywords: seq<string>, cutoff: int)
    requires |keywords| > 0
    requires forall k :: 0 <= k < |item.comments| ==> !Marked(item.comments[k], cutoff)
    ensures SummaryEntry(item, keywords, cutoff) == ""
    ensures DetailBlock(item, keywords, cutoff) == None
  {
    SummaryEntryWithoutMarker(item, keywords, cutoff);
    DetailScanNoMarker(item.comments, keywords, cutoff);
  }

  /**
   * When the newest marked comment has a non-empty body, the two passes
   * agree: the item has summary lines exactly when it has a detail block,
   * and the block shows that comment's keywords (or bracket text) and body.
   */
  lemma SummaryAndDetailAgree(item: Item, keywords: seq<string>, cutoff: int, j: nat)
    requires NewestMarked(item.comments, cutoff) == Some(j)
    requires CommentBody(item.comments[j].text) != ""
    ensures SummaryEntry(item, keywords, cutoff) != "" <==> DetailBlock(item, keywords, cutoff).Some?
    ensures var bracketText := BracketText(item.comments[j].text);
      DetailBlock(item, keywords, cutoff).Some? ==>
        DetailBlock(item, keywords, cutoff).value ==
          IssueHtml(DisplayText(MatchKeywords(keywords, bracketText), bracketText),
                    item.title, item.assignee, item.link, CommentBody(item.comments[j].text))
  {
    DetailScanTakes(item.comments, keywords, cutoff, j);
    DetailScanHas(item.comments, keywords, cutoff);
    assert Qualifies(item.comments[j], cutoff);
  }

  /**
   * When the newest marked comment's body is empty (its text after the marker
   * starts with an "image" line, say), the summary lines still come from it,
   * but the detail block is decided by the newest older marked comment with a
   * non-empty body: its bracket text, its keywords and its body.
   */
  lemma EmptyBodyLetsOlderCommentDecide(item: Item, keywords: seq<string>, cutoff: int, j: nat, m: nat)
    requires NewestMarked(item.comments, cutoff) == Some(j)
    requires CommentBody(item.comments[j].text) == ""
    requires m < j && Marked(item.comments[m], cutoff) && CommentBody(item.comments[m].text) != ""
    requires forall k :: m < k < |item.comments| && Marked(item.comments[k], cutoff) ==>
      CommentBody(item.comments[k].text) == ""
    ensures SummaryEntry(item, keywords, cutoff) != "" <==>
      PassesFilter(keywords, BracketText(item.comments[j].text))
    ensures DetailBlock(item, keywords, cutoff).Some? <==>
      PassesFilter(keywords, BracketText(item.comments[m].text))
    ensures var bracketText := BracketText(item.comments[m].text);
      DetailBlock(item, keywords, cutoff).Some? ==>
        DetailBlock(item, keywords, cutoff).value ==
          IssueHtml(DisplayText(MatchKeywords(keywords, bracketText), bracketText),
                    item.title, item.assignee, item.link, CommentBody(item.comments[m].text))
  {
    SummaryEntryShown(item, keywords, cutoff);
    DetailScanTakes(item.comments, keywords, cutoff, m);
    DetailScanHas(item.comments, keywords, cutoff);
    MatchedSomeIff(keywords, BracketText(item.comments[m].text));
    assert Qualifies(item.comments[m], cutoff);
  }

  // ------------------------------------------------------------- assembly

  /** An empty feed given to the display update still renders a page: header with the fallback date, no blocks, footer. */
  lemma EmptyFeedPage(cutoff: int, today: string, keywordText: string)
    ensures PageOf([], cutoff, today, keywordText) == Page(SummaryHtml(today, ""), [], EndingHtml())
  {
  }
}
