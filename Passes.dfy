/**
 * What `JiraDisplayApp.updateDisplay` computes, stated as functions of its
 * inputs: the parsed items, the cutoff instant (local midnight of today), the
 * fallback date string and the keyword textarea text. The methods of module
 * JiraDisplayApp run the source's loops and are proved to return these
 * values; module PassProperties proves what they mean.
 */
module Passes {
  import opened Wrappers
  import opened Strings
  import opened Feed
  import opened DateProcessor
  import opened Keywords
  import opened Titles
  import opened HtmlGenerator

  /**
   * The content of the issues panel: the fixed notice of an empty feed, or
   * the summary header, the detail blocks in feed order and the footer.
   */
  datatype Report =
    | Notice(message: string)
    | Page(summaryHtml: string, issueHtml: seq<string>, endingHtml: string)

  // ------------------------------------------------------------ date pass

  /** The date a comment contributes to the date scan: only a qualifying one is looked at. */
  function CommentDate(c: Comment, cutoff: int): Option<string> {
    if Qualifies(c, cutoff) then ExtractDateFromPath(c.text) else None
  }

  /** The position of the newest comment of an item that yields a date. */
  function NewestDated(comments: seq<Comment>, cutoff: int): (r: Option<nat>)
    decreases |comments|
    ensures r.Some? ==> r.value < |comments| && CommentDate(comments[r.value], cutoff).Some?
    ensures r.Some? ==> forall k :: r.value < k < |comments| ==> CommentDate(comments[k], cutoff).None?
    ensures r.None? ==> forall k :: 0 <= k < |comments| ==> CommentDate(comments[k], cutoff).None?
  {
    if comments == [] then None
    else
      var n := |comments| - 1;
      assert forall j :: 0 <= j < n ==> comments[..n][j] == comments[j];
      if CommentDate(comments[n], cutoff).Some? then Some(n)
      else NewestDated(comments[..n], cutoff)
  }

  /** The newest comment that yields a date is the one `NewestDated` finds. */
  lemma NewestDatedIs(comments: seq<Comment>, cutoff: int, j: nat)
    requires j < |comments| && CommentDate(comments[j], cutoff).Some?
    requires forall k :: j < k < |comments| ==> CommentDate(comments[k], cutoff).None?
    ensures NewestDated(comments, cutoff) == Some(j)
  {
  }

  /** The date of an item: that of its newest comment that yields one. */
  function ItemDate(comments: seq<Comment>, cutoff: int): (r: Option<string>)
    ensures r.None? <==> forall j :: 0 <= j < |comments| ==> CommentDate(comments[j], cutoff).None?
  {
    match NewestDated(comments, cutoff)
    case None => None
    case Some(j) => CommentDate(comments[j], cutoff)
  }

  /** When comment `j` yields a date and no newer one does, the item's date is comment `j`'s. */
  lemma ItemDateIs(comments: seq<Comment>, cutoff: int, j: nat)
    requires j < |comments| && CommentDate(comments[j], cutoff).Some?
    requires forall k :: j < k < |comments| ==> CommentDate(comments[k], cutoff).None?
    ensures ItemDate(comments, cutoff) == CommentDate(comments[j], cutoff)
  {
    NewestDatedIs(comments, cutoff, j);
  }

  /** The date of the feed: that of the first item, in feed order, that yields one. */
  function FeedDate(items: seq<Item>, cutoff: int): (r: Option<string>)
    ensures r.None? <==> forall i :: 0 <= i < |items| ==> ItemDate(items[i].comments, cutoff).None?
  {
    if items == [] then None
    else if ItemDate(items[0].comments, cutoff).Some? then ItemDate(items[0].comments, cutoff)
    else
      var r := FeedDate(items[1..], cutoff);
      assert forall i :: 0 < i < |items| ==> items[1..][i - 1] == items[i];
      r
  }

  /** When item `i` yields a date and no earlier item does, the feed's date is item `i`'s. */
  lemma {:induction false} FeedDateIs(items: seq<Item>, cutoff: int, i: nat)
    requires i < |items| && ItemDate(items[i].comments, cutoff).Some?
    requires forall k :: 0 <= k < i ==> ItemDate(items[k].comments, cutoff).None?
    ensures FeedDate(items, cutoff) == ItemDate(items[i].comments, cutoff)
  {
    if i > 0 {
      assert items[1..][i - 1] == items[i];
      assert forall k :: 0 <= k < i - 1 ==> items[1..][k] == items[k + 1];
      FeedDateIs(items[1..], cutoff, i - 1);
    }
  }

  /** The date in the report header: the feed's date, or the supplied string for today. */
  function HeaderDate(items: seq<Item>, cutoff: int, today: string): string {
    FeedDate(items, cutoff).GetOr(today)
  }

  // --------------------------------------------------- text of a comment

  /** The trimmed text before the first marker. */
  function BracketText(text: string): string
    requires Contains(text, Marker)
  {
    Trim(text[..IndexOf(text, Marker).value])
  }

  /** `lines.findIndex(line => line.toLowerCase().includes('image'))`, searching from `from`. */
  function FindImageLine(lines: seq<string>, from: nat): (r: Option<nat>)
    decreases |lines| - from
    ensures r.Some? ==> from <= r.value < |lines|
  {
    if from >= |lines| then None
    else if ContainsIgnoringCase(lines[from], "image") then Some(from)
    else FindImageLine(lines, from + 1)
  }

  /** The search finds the first line at or after `from` that mentions "image", and `None` means none does. */
  lemma {:induction false} FindImageLineSpec(lines: seq<string>, from: nat)
    decreases |lines| - from
    ensures FindImageLine(lines, from).Some? ==> ContainsIgnoringCase(lines[FindImageLine(lines, from).value], "image")
    ensures FindImageLine(lines, from).Some? ==>
      forall k :: from <= k < FindImageLine(lines, from).value ==> !ContainsIgnoringCase(lines[k], "image")
    ensures FindImageLine(lines, from).None? ==>
      forall k :: from <= k < |lines| ==> !ContainsIgnoringCase(lines[k], "image")
  {
    if from < |lines| && !ContainsIgnoringCase(lines[from], "image") {
      FindImageLineSpec(lines, from + 1);
    }
  }

  /**
   * The comment body of a detail block, from the text `tail` that starts at
   * the marker: the trimmed non-blank lines before the first one that
   * mentions "image", joined by line feeds, or `tail` itself when no line
   * does.
   */
  function ProcessBody(tail: string): string {
    var lines := TrimmedLines(tail);
    match FindImageLine(lines, 0)
    case None => tail
    case Some(k) => Join(lines[..k], "\n")
  }

  /**
   * When no trimmed non-blank line of `tail` mentions "image" (in any case),
   * the body is `tail`, unsplit and untrimmed; otherwise its lines are
   * exactly the lines before the first such line, joined by single line
   * feeds, and none of them mentions it. A non-empty `tail` gives an empty body exactly when its first line
   * mentions "image".
   */
  lemma ProcessBodySpec(tail: string)
    ensures FindImageLine(TrimmedLines(tail), 0).None? ==> ProcessBody(tail) == tail
    ensures FindImageLine(TrimmedLines(tail), 0).Some? ==>
      TrimmedLines(ProcessBody(tail)) == TrimmedLines(tail)[..FindImageLine(TrimmedLines(tail), 0).value]
    ensures forall k :: 0 <= k < |TrimmedLines(ProcessBody(tail))| ==>
      !ContainsIgnoringCase(TrimmedLines(ProcessBody(tail))[k], "image")
    ensures FindImageLine(TrimmedLines(tail), 0).Some? ==>
      ProcessBody(tail) == Join(TrimmedLines(ProcessBody(tail)), "\n")
    ensures tail != "" ==>
      (ProcessBody(tail) == "" <==> |TrimmedLines(tail)| > 0 && ContainsIgnoringCase(TrimmedLines(tail)[0], "image"))
  {
    var lines := TrimmedLines(tail);
    FindImageLineSpec(lines, 0);
    match FindImageLine(lines, 0)
    case None =>
    case Some(k) =>
      var kept := lines[..k];
      TrimmedLinesClean(tail);
      TrimmedLinesJoin(kept);
      assert k > 0 ==> Join(kept, "\n") != "" by {
        if k > 0 {
          if |kept| == 1 { assert Join(kept, "\n") == kept[0]; }
          else { assert Join(kept, "\n") == kept[0] + "\n" + Join(kept[1..], "\n"); }
        }
      }
  }

  /** The body a marked comment contributes: its text from the first marker on, processed. */
  function CommentBody(text: string): string
    requires Contains(text, Marker)
  {
    ProcessBody(text[IndexOf(text, Marker).value..])
  }

  // --------------------------------------------------------- summary pass

  /** The position of the newest qualifying comment that carries the marker. */
  function NewestMarked(comments: seq<Comment>, cutoff: int): (r: Option<nat>)
    decreases |comments|
    ensures r.Some? ==> r.value < |comments| && Marked(comments[r.value], cutoff)
    ensures r.Some? ==> forall k :: r.value < k < |comments| ==> !Marked(comments[k], cutoff)
    ensures r.None? ==> forall k :: 0 <= k < |comments| ==> !Marked(comments[k], cutoff)
  {
    if comments == [] then None
    else
      var n := |comments| - 1;
      assert forall j :: 0 <= j < n ==> comments[..n][j] == comments[j];
      if Marked(comments[n], cutoff) then Some(n)
      else NewestMarked(comments[..n], cutoff)
  }

  /** The newest marked comment is the one `NewestMarked` finds. */
  lemma NewestMarkedIs(comments: seq<Comment>, cutoff: int, j: nat)
    requires j < |comments| && Marked(comments[j], cutoff)
    requires forall k :: j < k < |comments| ==> !Marked(comments[k], cutoff)
    ensures NewestMarked(comments, cutoff) == Some(j)
  {
  }

  /**
   * The two summary lines of an item, or nothing: they come from its newest
   * marked comment and appear when there are no keywords or some keyword
   * matched that comment's bracket text.
   */
  function SummaryEntry(item: Item, keywords: seq<string>, cutoff: int): string {
    match NewestMarked(item.comments, cutoff)
    case None => ""
    case Some(j) =>
      var bracketText := BracketText(item.comments[j].text);
      var matchedKeywords := MatchKeywords(keywords, bracketText);
      if |keywords| == 0 || |matchedKeywords| > 0 then
        TitleLine(DisplayText(matchedKeywords, bracketText), CleanTitle(item.title))
          + LinkLine(item.link, AssigneeOrDefault(item.assignee))
      else ""
  }

  /** The accumulated summary text: the entries of the items in feed order. */
  function SummaryText(items: seq<Item>, keywords: seq<string>, cutoff: int): string {
    if items == [] then ""
    else SummaryText(items[..|items| - 1], keywords, cutoff) + SummaryEntry(items[|items| - 1], keywords, cutoff)
  }

  // ---------------------------------------------------------- detail pass

  /** The locals of the detail pass for one item. */
  datatype DetailState = DetailState(
    hasTargetComment: bool,
    bracketText: string,
    matchedKeywords: seq<string>,
    lastTargetComment: string)

  const DetailStart: DetailState := DetailState(false, "", [], "")

  /**
   * One comment of the detail pass: a qualifying comment sets the flag, and
   * while no non-empty body has been taken, a marked one replaces the bracket
   * text, the matched keywords and the body.
   */
  function DetailStep(st: DetailState, c: Comment, keywords: seq<string>, cutoff: int): DetailState {
    if !Qualifies(c, cutoff) then st
    else if st.lastTargetComment != "" || !Contains(c.text, Marker) then st.(hasTargetComment := true)
    else
      var bracketText := BracketText(c.text);
      DetailState(true, bracketText, MatchKeywords(keywords, bracketText), CommentBody(c.text))
  }

  /** The detail pass over the comments of one item, newest first. */
  function DetailScan(comments: seq<Comment>, keywords: seq<string>, cutoff: int): DetailState
    decreases |comments|
  {
    if comments == [] then DetailStart
    else DetailStep(DetailScan(comments[1..], keywords, cutoff), comments[0], keywords, cutoff)
  }

  /** The detail block of an item, shown when it has a qualifying comment and passes the keyword filter. */
  function DetailBlock(item: Item, keywords: seq<string>, cutoff: int): Option<string> {
    var st := DetailScan(item.comments, keywords, cutoff);
    if st.hasTargetComment && (|keywords| == 0 || |st.matchedKeywords| > 0) then
      Some(IssueHtml(DisplayText(st.matchedKeywords, st.bracketText), item.title, item.assignee, item.link, st.lastTargetComment))
    else None
  }

  /** The detail blocks of the items, in feed order. */
  function Details(items: seq<Item>, keywords: seq<string>, cutoff: int): seq<string> {
    if items == [] then []
    else
      var last := items[|items| - 1];
      Details(items[..|items| - 1], keywords, cutoff)
        + (match DetailBlock(last, keywords, cutoff) case Some(b) => [b] case None => [])
  }

  // ------------------------------------------------------------- assembly

  /** What `updateDisplay` leaves in the issues panel. */
  function PageOf(items: seq<Item>, cutoff: int, today: string, keywordText: string): Report {
    var keywords := TrimmedLines(keywordText);
    Page(SummaryHtml(HeaderDate(items, cutoff, today), SummaryText(items, keywords, cutoff)),
         Details(items, keywords, cutoff),
         EndingHtml())
  }
}
