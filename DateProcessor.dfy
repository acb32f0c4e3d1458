/**
 * `DateProcessor.extractDateFromPath`: the run date embedded in the log path
 * of a comment, as `YYYY/MM/DD`.
 */
module DateProcessor {
  import opened Wrappers
  import opened Strings
  import opened Feed

  /** The folder that holds the dated run directories, `Demo_stress_Test_log\2024\`. */
  const LogRoot: string := "Demo_stress_Test_log\\2024\\"

  /** `\d` of a JavaScript regular expression without the `u` flag. */
  predicate IsDigit(c: char) {
    '0' <= c <= '9'
  }

  predicate AllDigits(s: string) {
    forall k :: 0 <= k < |s| ==> IsDigit(s[k])
  }

  /** `s` has `root` followed by eight digits starting at `j`. */
  ghost predicate DigitsAfterAt(s: string, root: string, j: int) {
    && OccursAt(s, root, j)
    && j + |root| + 8 <= |s|
    && forall k :: j + |root| <= k < j + |root| + 8 ==> IsDigit(s[k])
  }

  /** The leftmost position at or after `from` where `root` followed by eight digits starts. */
  function FindDigitsAfter(s: string, root: string, from: nat): (r: Option<nat>)
    decreases |s| - from
    ensures r.Some? ==> from <= r.value && r.value + |root| + 8 <= |s|
  {
    if from + |root| + 8 > |s| then None
    else if s[from..from + |root|] == root && AllDigits(s[from + |root|..from + |root| + 8]) then Some(from)
    else FindDigitsAfter(s, root, from + 1)
  }

  /** The search finds the leftmost match at or after `from`, and `None` means there is none. */
  lemma {:induction false} FindDigitsAfterSpec(s: string, root: string, from: nat)
    decreases |s| - from
    ensures FindDigitsAfter(s, root, from).Some? ==> DigitsAfterAt(s, root, FindDigitsAfter(s, root, from).value)
    ensures FindDigitsAfter(s, root, from).Some? ==>
      forall k :: from <= k < FindDigitsAfter(s, root, from).value ==> !DigitsAfterAt(s, root, k)
    ensures FindDigitsAfter(s, root, from).None? ==> forall k :: from <= k ==> !DigitsAfterAt(s, root, k)
  {
    if from + |root| + 8 <= |s| {
      var d := s[from + |root|..from + |root| + 8];
      assert forall k :: 0 <= k < 8 ==> d[k] == s[from + |root| + k];
      if !DigitsAfterAt(s, root, from) {
        FindDigitsAfterSpec(s, root, from + 1);
      }
    }
  }

  /** `s` matches `/Demo_stress_Test_log\\2024\\(\d{8})/` starting at `j`. */
  ghost predicate DateTokenAt(s: string, j: int) {
    DigitsAfterAt(s, LogRoot, j)
  }

  /** The leftmost match starts at `j`. */
  ghost predicate FirstDateTokenAt(s: string, j: int) {
    DateTokenAt(s, j) && forall k :: 0 <= k < j ==> !DateTokenAt(s, k)
  }

  /** The eight digits (the capture group) of the match at `j`. */
  function TokenDigits(s: string, j: nat): string
    requires j + |LogRoot| + 8 <= |s|
  {
    s[j + |LogRoot|..j + |LogRoot| + 8]
  }

  /** The leftmost match at or after `from`, as `String.prototype.match` finds it. */
  function FindDateToken(s: string, from: nat): (r: Option<nat>)
    ensures r.Some? ==> from <= r.value && r.value + |LogRoot| + 8 <= |s|
  {
    FindDigitsAfter(s, LogRoot, from)
  }

  /** The date search finds the leftmost match at or after `from`, and `None` means there is none. */
  lemma FindDateTokenSpec(s: string, from: nat)
    ensures FindDateToken(s, from).Some? ==> DateTokenAt(s, FindDateToken(s, from).value)
    ensures FindDateToken(s, from).Some? ==>
      forall k :: from <= k < FindDateToken(s, from).value ==> !DateTokenAt(s, k)
    ensures FindDateToken(s, from).None? ==> forall k :: from <= k ==> !DateTokenAt(s, k)
  {
    FindDigitsAfterSpec(s, LogRoot, from);
  }

  /** `YYYY/MM/DD` from `YYYYMMDD`. */
  function FormatDate(d: string): (r: string)
    requires |d| == 8
    ensures |r| == 10
  {
    d[..4] + "/" + d[4..6] + "/" + d[6..]
  }

  /** The date keeps the eight digits in order, with a slash after the 4th and after the 6th. */
  lemma FormatDateSpec(d: string)
    requires |d| == 8
    ensures FormatDate(d)[4] == '/' && FormatDate(d)[7] == '/'
    ensures FormatDate(d)[..4] + FormatDate(d)[5..7] + FormatDate(d)[8..] == d
  {
    var r := FormatDate(d);
    assert r[..4] == d[..4] && r[5..7] == d[4..6] && r[8..] == d[6..];
    assert d == d[..4] + d[4..6] + d[6..];
  }

  /** A `YYYY/MM/DD` string: ten characters, slashes at 4 and 7, digits elsewhere. */
  ghost predicate IsDateString(r: string) {
    && |r| == 10 && r[4] == '/' && r[7] == '/'
    && forall k :: 0 <= k < 10 && k != 4 && k != 7 ==> IsDigit(r[k])
  }

  /** `extractDateFromPath`: the `YYYY/MM/DD` date in the log path of a comment, if any. */
  function ExtractDateFromPath(text: string): (r: Option<string>)
    ensures r.Some? ==> |r.value| == 10
  {
    match IndexOf(text, Marker)
    case None => None
    case Some(p) =>
      var tail := text[p..];
      match FindDateToken(tail, 0)
      case None => None
      case Some(j) => Some(FormatDate(TokenDigits(tail, j)))
  }

  /**
   * What `extractDateFromPath` finds: nothing unless the text contains the
   * marker and, from its first occurrence on, the log folder followed by
   * eight digits; otherwise those digits of the leftmost such match,
   * formatted as a `YYYY/MM/DD` string.
   */
  lemma ExtractDateFromPathSpec(text: string)
    ensures IndexOf(text, Marker).None? ==> ExtractDateFromPath(text).None?
    ensures IndexOf(text, Marker).Some? ==>
      (ExtractDateFromPath(text).None? <==> forall j :: !DateTokenAt(text[IndexOf(text, Marker).value..], j))
    ensures ExtractDateFromPath(text).Some? ==> (IndexOf(text, Marker).Some? &&
      var tail := text[IndexOf(text, Marker).value..];
      exists j :: FirstDateTokenAt(tail, j) && ExtractDateFromPath(text).value == FormatDate(TokenDigits(tail, j)))
    ensures ExtractDateFromPath(text).Some? ==> IsDateString(ExtractDateFromPath(text).value)
  {
    match IndexOf(text, Marker)
    case None =>
    case Some(p) =>
      var tail := text[p..];
      FindDateTokenSpec(tail, 0);
      match FindDateToken(tail, 0)
      case None =>
      case Some(j) =>
        var d := TokenDigits(tail, j);
        var r := FormatDate(d);
        assert FirstDateTokenAt(tail, j);
        forall k | 0 <= k < 8 ensures IsDigit(d[k]) {
          assert d[k] == tail[j + |LogRoot| + k];
        }
        assert r == d[..4] + "/" + d[4..6] + "/" + d[6..];
  }
}
