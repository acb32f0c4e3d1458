/**
 * The parsed feed the report is built from, the fixed configuration of the
 * popup (the watched authors, the request phrases and the log-share marker),
 * and the qualifying-comment rule shared by all three passes of the display
 * update.
 */
module Feed {
  import opened Wrappers
  import opened Strings

  /** The authors whose comments are reported (CONFIG.TARGET_USERS). */
  const TargetUsers: seq<string> := ["JIRAUSER50632", "JIRAUSER51966"]

  /** A comment qualifies only if it contains one of these request phrases (CONFIG.TARGET_PHRASES). */
  const TargetPhrases: seq<string> := ["請協助查看", "也有同样问题"]

  /** The network path that starts the log location inside a comment, `\172.22.48.92\`. */
  const Marker: string := "\\172.22.48.92\\"

  /**
   * One comment element: its `author` attribute, its `created` attribute as
   * an instant in milliseconds (`None` when `new Date` cannot parse it), and
   * its text content.
   */
  datatype Comment = Comment(author: string, created: Option<int>, text: string)

  /**
   * One feed item: the text of its first `title`, `link` and `assignee`
   * elements (the assignee may be missing) and its comments in document
   * order, oldest first.
   */
  datatype Item = Item(title: string, link: string, assignee: Option<string>, comments: seq<Comment>)

  /**
   * The qualifying-comment rule: a watched author, created at or after the
   * cutoff (an unparseable date compares false), and one of the request
   * phrases in the text.
   */
  predicate Qualifies(c: Comment, cutoff: int) {
    && (c.author == TargetUsers[0] || c.author == TargetUsers[1])
    && c.created.Some? && c.created.value >= cutoff
    && (Contains(c.text, TargetPhrases[0]) || Contains(c.text, TargetPhrases[1]))
  }

  /** A qualifying comment that also carries the log-share marker. */
  predicate Marked(c: Comment, cutoff: int) {
    Qualifies(c, cutoff) && Contains(c.text, Marker)
  }

  /** The assignee, or 'Unassigned' when it is missing or empty (`?.textContent || 'Unassigned'`). */
  function AssigneeOrDefault(assignee: Option<string>): (r: string)
    ensures r != ""
    ensures assignee.Some? && assignee.value != "" ==> r == assignee.value
  {
    if assignee.None? || assignee.value == "" then "Unassigned" else assignee.value
  }
}
