/**
 * `HtmlGenerator`: the markup templates of the report (header with the
 * summary, one block per displayed issue, fixed footer), and the pieces of
 * markup the display update builds inline (the red keyword span and the two
 * summary lines of an issue).
 */
module HtmlGenerator {
  import opened Wrappers
  import opened Strings
  import opened Feed

  // The long literals of this module are written as concatenations of short
  // pieces, which keeps the verifier's work on them small.

  /** CONFIG.STYLES.FONT_FAMILY. */
  const FontFamily: string := "'Times New " + "Roman', " + "Times, serif"

  /** CONFIG.STYLES.INDENT: four non-breaking spaces at 10pt. */
  const Indent: string := "<span style=\"" + "font-size: " + "10pt;\">" + "&nbsp;&nbsp;" + "&nbsp;&nbsp;" + "</span>"

  const Br: string := "<br>"

  /** What the popup shows instead of a report when the feed has no items. */
  const NoIssuesMessage: string :=
    "No issues " + "found. " + "Please make " + "sure you are " + "logged into " + "Jira."

  function PrefixEach(prefix: string, parts: seq<string>): seq<string> {
    seq(|parts|, i requires 0 <= i < |parts| => prefix + parts[i])
  }

  /** `summaryText.split('<br>').map(line => INDENT + line).join('<br>')`. */
  function IndentSegments(summaryText: string): string {
    Join(PrefixEach(Indent, Split(summaryText, Br)), Br)
  }

  /** The first `<br>` of `a + "<br>" + b` is the one after `a`, when `a` has none: `<br>` cannot overlap itself. */
  lemma BreakAfter(a: string, b: string)
    requires !Contains(a, Br)
    ensures IndexOf(a + Br + b, Br) == Some(|a|)
  {
    var s := a + Br + b;
    assert s[|a|..|a| + 4] == Br;
    forall k | 0 <= k < |a| ensures !OccursAt(s, Br, k) {
      if k + 4 <= |a| {
        if OccursAt(s, Br, k) {
          assert a[k..k + 4] == s[k..k + 4];
          assert OccursAt(a, Br, k);
          ContainsIff(a, Br);
        }
      } else if k + 4 <= |s| {
        assert s[k..k + 4][|a| - k] == s[|a|] == '<';
      }
    }
    IndexOfIs(s, Br, |a|);
  }

  /** Text without a `<br>` is one segment: it gains one INDENT in front. */
  lemma IndentSegmentsNoBreak(s: string)
    requires !Contains(s, Br)
    ensures IndentSegments(s) == Indent + s
  {
  }

  /** Each `<br>` closes a segment: the text before it is indented on its own and the rest after it. */
  lemma IndentSegmentsAppend(a: string, b: string)
    requires !Contains(a, Br)
    ensures IndentSegments(a + Br + b) == Indent + a + Br + IndentSegments(b)
  {
    var s := a + Br + b;
    BreakAfter(a, b);
    assert s[..|a|] == a && s[|a| + 4..] == b;
    var rest := Split(b, Br);
    assert Split(s, Br) == [a] + rest;
    var p := PrefixEach(Indent, [a] + rest);
    assert p == [Indent + a] + PrefixEach(Indent, rest);
    assert p[1..] == PrefixEach(Indent, rest);
  }

  /** The opening tag of a report section: 20px bottom margin, the report font at `size`, after an optional colour. */
  function StyledDiv(color: string, size: string): string {
    "<div style=\"" + "margin-bottom: " + "20px; " + color + "font-family: " + FontFamily + "; font-size: " + size + ";\">"
  }

  /**
   * generateSummaryHtml: the greeting with the run date, the results heading,
   * the indented summary and the detail-log heading.
   */
  function SummaryHtml(dateStr: string, summaryText: string): string {
    "\n      " + StyledDiv("", "10pt") + "Hi all，<br>公版 " + dateStr + " stability " + "night run " +
    "results:<br>" + "<br></div>\n   " + "   " + StyledDiv("", "15pt") + "[壓測結果回報]</div>" +
    "\n      " + StyledDiv("", "12pt") + "\n        " + IndentSegments(summaryText) +
    "<br>\n      " + "</div>\n      " + StyledDiv("", "15pt") + "[壓測詳細分析log]" + "</div>\n    "
  }

  /** `title || 'No title'`. */
  function TitleOrDefault(title: string): (r: string)
    ensures r != ""
    ensures title != "" ==> r == title
  {
    if title == "" then "No title" else title
  }

  /** The comment row of an issue block, present only when the processed body is non-empty (truthy). */
  function CommentRow(lastTargetComment: string): string {
    if lastTargetComment != "" then "<tr>" + "<td class=\"" + "comment\">" + lastTargetComment + "</td></tr>" else ""
  }

  /** generateIssueHtml: the detail block of one displayed issue. */
  function IssueHtml(displayText: string, title: string, assignee: Option<string>, link: string, lastTargetComment: string): string {
    "\n      <div " + "class=\"bracket" + "-text\">" + Indent + displayText + "的jira題目</div>\n" +
    "      <div " + "class=\"title\">" + Indent + TitleOrDefault(title) + " - " +
    AssigneeOrDefault(assignee) + "</div>\n      " + "<div>" + Indent + "<span " +
    "class=\"link\">" + "<a href=\"" + link + "\" " + "target=\"_blank" + "\">" + link +
    "</a></span>" + "</div>\n      " + "<table " + "class=\"comment" + "-table\" " +
    "style=\"display" + ": " + "inline-block;" + "\">\n        " + CommentRow(lastTargetComment) +
    "\n      " + "</table>\n     " + " <br>\n    "
  }

  /** generateEndingHtml: the fixed footer with the plan heading and the log share location. */
  function EndingHtml(): string {
    "\n      " + StyledDiv("", "15pt") + "[壓測計畫-總表]" + "</div>\n      " +
    StyledDiv("color: red; ", "12pt") + "\n        " + "Note: " + "下表反灰項目為keep " + "set.<br><br>" +
    "<br>\n      " + "</div>\n      " + StyledDiv("", "12pt") + "\n        Log " + "存放位置：" +
    "\\172.22.48.92" + "\\nightrun_log" + "\\Demo_stress_T" + "est_log\\2024" + "<br>\n        " +
    "172.22.48.92 " + "這台是linux sever" + "<br>\n        " + "可以用帳號: rtk001 " + "密碼: 123456<br>" +
    "\n        " + "也可以用window 連線\n" + "      </div>\n " + "   "
  }

  /** The matched keywords in a red span, joined by ', ', or the bracket text when none matched. */
  function DisplayText(matchedKeywords: seq<string>, bracketText: string): string {
    if |matchedKeywords| > 0 then "<span style=\"" + "color: red;\">" + Join(matchedKeywords, ", ") + "</span>"
    else bracketText
  }

  /** The text of the first summary line: the display text and the cleaned title. */
  function TitleText(displayText: string, cleanTitle: string): string {
    displayText + ": " + cleanTitle
  }

  /** First summary line of an issue: the display text and the cleaned title. */
  function TitleLine(displayText: string, cleanTitle: string): string {
    TitleText(displayText, cleanTitle) + Br
  }

  /** The text of the second summary line: the link as an anchor, then the assignee. */
  function LinkText(link: string, assignee: string): string {
    "<a href=\"" + link + "\" " + "target=\"_blank" + "\">" + link + "</a> - " + assignee
  }

  /** Second summary line of an issue: the link and the assignee, then an empty line. */
  function LinkLine(link: string, assignee: string): string {
    LinkText(link, assignee) + Br + Br
  }

  lemma RegroupLines(a: string, br: string, b: string, rest: string)
    ensures (a + br) + (b + br + br) + rest == a + br + (b + br + ("" + br + rest))
  {
  }

  lemma RegroupIndents(ind: string, a: string, br: string, b: string, r: string)
    ensures ind + a + br + (ind + b + br + (ind + "" + br + r)) == ind + a + br + ind + b + br + ind + br + r
  {
  }

  /**
   * In the header, the two summary lines of an issue and the empty line after
   * them are indented one by one, the rest of the summary after them on its
   * own, as long as the texts shown contain no `<br>` of their own.
   */
  lemma IndentSummaryLines(displayText: string, cleanTitle: string, link: string, assignee: string, rest: string)
    requires !Contains(TitleText(displayText, cleanTitle), Br)
    requires !Contains(LinkText(link, assignee), Br)
    ensures IndentSegments(TitleLine(displayText, cleanTitle) + LinkLine(link, assignee) + rest) ==
      Indent + TitleText(displayText, cleanTitle) + Br + Indent + LinkText(link, assignee) + Br +
      Indent + Br + IndentSegments(rest)
  {
    var a := TitleText(displayText, cleanTitle);
    var b := LinkText(link, assignee);
    RegroupLines(a, Br, b, rest);
    IndentSegmentsAppend(a, b + Br + ("" + Br + rest));
    IndentSegmentsAppend(b, "" + Br + rest);
    assert !Contains("", Br);
    IndentSegmentsAppend("", rest);
    RegroupIndents(Indent, a, Br, b, IndentSegments(rest));
  }
}
