/**
 * The JavaScript string operations the report pipeline relies on:
 * `indexOf`, `includes`, `substring`, `split`, `join`, `trim` and
 * `toLowerCase`, over `string` = `seq<char>`.
 *
 * The recursive functions carry only the bounds their callers need; what
 * they compute is stated by the lemma that follows each of them.
 */
module Strings {
  import opened Wrappers

  /** `pat` occurs in `s` starting at position `k`. */
  ghost predicate OccursAt(s: string, pat: string, k: int) {
    0 <= k && k + |pat| <= |s| && s[k..k + |pat|] == pat
  }

  /** The first position at or after `from` where `pat` occurs. */
  function IndexOfFrom(s: string, pat: string, from: nat): (r: Option<nat>)
    decreases |s| - from
    ensures r.Some? ==> from <= r.value && r.value + |pat| <= |s|
  {
    if from + |pat| > |s| then None
    else if s[from..from + |pat|] == pat then Some(from)
    else IndexOfFrom(s, pat, from + 1)
  }

  /** The search finds the first occurrence at or after `from`, and `None` means there is none. */
  lemma {:induction false} IndexOfFromSpec(s: string, pat: string, from: nat)
    decreases |s| - from
    ensures IndexOfFrom(s, pat, from).Some? ==> OccursAt(s, pat, IndexOfFrom(s, pat, from).value)
    ensures IndexOfFrom(s, pat, from).Some? ==>
      forall k :: from <= k < IndexOfFrom(s, pat, from).value ==> !OccursAt(s, pat, k)
    ensures IndexOfFrom(s, pat, from).None? ==> forall k :: from <= k ==> !OccursAt(s, pat, k)
  {
    if from + |pat| <= |s| && s[from..from + |pat|] != pat {
      IndexOfFromSpec(s, pat, from + 1);
    }
  }

  /** `s.indexOf(pat)`, with `None` for -1. */
  function IndexOf(s: string, pat: string): (r: Option<nat>)
    ensures r.Some? ==> r.value + |pat| <= |s|
  {
    IndexOfFrom(s, pat, 0)
  }

  /** `indexOf` finds the first occurrence, and `None` means there is none. */
  lemma IndexOfSpec(s: string, pat: string)
    ensures IndexOf(s, pat).Some? ==> OccursAt(s, pat, IndexOf(s, pat).value)
    ensures IndexOf(s, pat).Some? ==> forall k :: 0 <= k < IndexOf(s, pat).value ==> !OccursAt(s, pat, k)
    ensures IndexOf(s, pat).None? ==> forall k :: !OccursAt(s, pat, k)
  {
    IndexOfFromSpec(s, pat, 0);
  }

  /** `s.includes(pat)`. */
  predicate Contains(s: string, pat: string) {
    IndexOf(s, pat).Some?
  }

  lemma ContainsIff(s: string, pat: string)
    ensures Contains(s, pat) <==> exists k :: OccursAt(s, pat, k)
  {
    IndexOfSpec(s, pat);
  }

  /** An occurrence that is the earliest one is what `IndexOf` finds. */
  lemma IndexOfIs(s: string, pat: string, i: nat)
    requires OccursAt(s, pat, i)
    requires forall k :: 0 <= k < i ==> !OccursAt(s, pat, k)
    ensures IndexOf(s, pat) == Some(i)
  {
    IndexOfSpec(s, pat);
  }

  /** With no occurrence among the first `i` starting positions, `s[..i]` holds none. */
  lemma NoOccurrenceInPrefix(s: string, pat: string, i: nat)
    requires pat != "" && i <= |s|
    requires forall k :: 0 <= k < i ==> !OccursAt(s, pat, k)
    ensures !Contains(s[..i], pat)
  {
    if Contains(s[..i], pat) {
      var k := IndexOf(s[..i], pat).value;
      IndexOfSpec(s[..i], pat);
      assert s[..i][k..k + |pat|] == s[k..k + |pat|];
      assert OccursAt(s, pat, k);
      assert false;
    }
  }

  /** A slice of a text without an occurrence has none either. */
  lemma NoOccurrenceInSlice(s: string, pat: string, lo: nat, hi: nat)
    requires lo <= hi <= |s| && !Contains(s, pat)
    ensures !Contains(s[lo..hi], pat)
  {
    var t := s[lo..hi];
    if Contains(t, pat) {
      var k := IndexOf(t, pat).value;
      IndexOfSpec(t, pat);
      assert t[k..k + |pat|] == pat;
      forall m | 0 <= m < |pat| ensures s[lo + k + m] == pat[m] {
        assert t[k + m] == s[lo + k + m];
        assert t[k..k + |pat|][m] == t[k + m];
      }
      assert s[lo + k..lo + k + |pat|] == pat;
      ContainsIff(s, pat);
      assert OccursAt(s, pat, lo + k);
    }
  }

  /** A one-character pattern occurs exactly where that character is. */
  lemma ContainsChar(s: string, c: char)
    ensures Contains(s, [c]) <==> c in s
  {
    ContainsIff(s, [c]);
    if c in s {
      var k :| 0 <= k < |s| && s[k] == c;
      assert s[k..k + 1] == [c];
      assert OccursAt(s, [c], k);
    }
    if Contains(s, [c]) {
      var k :| OccursAt(s, [c], k);
      assert s[k] == s[k..k + 1][0];
    }
  }

  /** `s.split(sep)` for a non-empty separator: the pieces between occurrences, left to right. */
  function Split(s: string, sep: string): (parts: seq<string>)
    requires sep != ""
    decreases |s|
    ensures |parts| >= 1
  {
    match IndexOf(s, sep)
    case None => [s]
    case Some(i) => [s[..i]] + Split(s[i + |sep|..], sep)
  }

  /** No piece of a split contains the separator. */
  lemma {:induction false} SplitPieces(s: string, sep: string)
    requires sep != ""
    decreases |s|
    ensures forall i :: 0 <= i < |Split(s, sep)| ==> !Contains(Split(s, sep)[i], sep)
  {
    match IndexOf(s, sep)
    case None =>
    case Some(i) =>
      IndexOfSpec(s, sep);
      var rest := s[i + |sep|..];
      SplitPieces(rest, sep);
      NoOccurrenceInPrefix(s, sep, i);
      var parts := [s[..i]] + Split(rest, sep);
      assert Split(s, sep) == parts;
      forall k | 0 <= k < |parts| ensures !Contains(parts[k], sep) {
        if k > 0 {
          assert parts[k] == Split(rest, sep)[k - 1];
        }
      }
  }

  /** `parts.join(sep)`. */
  function Join(parts: seq<string>, sep: string): string
  {
    if |parts| == 0 then ""
    else if |parts| == 1 then parts[0]
    else parts[0] + sep + Join(parts[1..], sep)
  }

  /** Joining the pieces of a split with the same separator gives back the text. */
  lemma {:induction false} JoinSplit(s: string, sep: string)
    requires sep != ""
    decreases |s|
    ensures Join(Split(s, sep), sep) == s
  {
    match IndexOf(s, sep)
    case None =>
    case Some(i) =>
      IndexOfSpec(s, sep);
      var rest := s[i + |sep|..];
      var tail := Split(rest, sep);
      JoinSplit(rest, sep);
      var parts := [s[..i]] + tail;
      assert Split(s, sep) == parts;
      assert |parts| >= 2 && parts[0] == s[..i] && parts[1..] == tail;
      assert Join(parts, sep) == s[..i] + sep + rest;
      assert s[i..i + |sep|] == sep;
      assert s == s[..i] + s[i..i + |sep|] + rest;
  }

  /** Before the end of `a`, `a + sep + b` has an occurrence of a one-character `sep` exactly where `a` has one. */
  lemma OccursInPrefix(a: string, sep: string, b: string, k: nat)
    requires |sep| == 1 && k < |a|
    ensures OccursAt(a + sep + b, sep, k) <==> OccursAt(a, sep, k)
  {
    assert (a + sep + b)[k..k + 1] == a[k..k + 1];
  }

  /** Splitting on a one-character separator distributes over an occurrence of it. */
  lemma {:induction false} SplitAppend(a: string, sep: string, b: string)
    requires |sep| == 1
    decreases |a|
    ensures Split(a + sep + b, sep) == Split(a, sep) + Split(b, sep)
  {
    var s := a + sep + b;
    IndexOfSpec(a, sep);
    match IndexOf(a, sep)
    case None =>
      forall k | 0 <= k < |a| ensures !OccursAt(s, sep, k) {
        OccursInPrefix(a, sep, b, k);
      }
      assert s[|a|..|a| + 1] == sep;
      IndexOfIs(s, sep, |a|);
      assert s[..|a|] == a;
      assert s[|a| + 1..] == b;
      assert Split(s, sep) == [a] + Split(b, sep);
    case Some(i) =>
      forall k | 0 <= k <= i ensures OccursAt(s, sep, k) <==> OccursAt(a, sep, k) {
        OccursInPrefix(a, sep, b, k);
      }
      IndexOfIs(s, sep, i);
      assert s[..i] == a[..i];
      assert s[i + 1..] == a[i + 1..] + sep + b;
      SplitAppend(a[i + 1..], sep, b);
      assert Split(s, sep) == [a[..i]] + Split(s[i + 1..], sep);
      assert Split(a, sep) == [a[..i]] + Split(a[i + 1..], sep);
  }

  /** A text without the separator character splits into itself alone. */
  lemma SplitNoSeparator(s: string, c: char)
    requires c !in s
    ensures Split(s, [c]) == [s]
  {
    ContainsChar(s, c);
  }

  /** Splitting a join on a one-character separator that no piece contains recovers the pieces. */
  lemma {:induction false} SplitJoin(parts: seq<string>, c: char)
    requires |parts| >= 1
    requires forall i :: 0 <= i < |parts| ==> c !in parts[i]
    ensures Split(Join(parts, [c]), [c]) == parts
  {
    if |parts| == 1 {
      SplitNoSeparator(parts[0], c);
    } else {
      SplitJoin(parts[1..], c);
      SplitAppend(parts[0], [c], Join(parts[1..], [c]));
      SplitNoSeparator(parts[0], c);
    }
  }

  // ---------------------------------------------------------------- trim

  /**
   * ECMAScript's WhiteSpace and LineTerminator code points, which is the set
   * `String.prototype.trim` removes: tab, vertical tab, form feed, space,
   * no-break space, zero width no-break space, the other Unicode space
   * separators, line feed, carriage return, line and paragraph separators.
   */
  const Spaces: set<char> := {
    '\t', '\U{000B}', '\U{000C}', ' ', '\U{00A0}', '\U{FEFF}', '\U{1680}',
    '\U{2000}', '\U{2001}', '\U{2002}', '\U{2003}', '\U{2004}', '\U{2005}',
    '\U{2006}', '\U{2007}', '\U{2008}', '\U{2009}', '\U{200A}',
    '\U{202F}', '\U{205F}', '\U{3000}',
    '\n', '\r', '\U{2028}', '\U{2029}'
  }

  predicate IsSpace(c: char) {
    c in Spaces
  }

  /** The first position at or after `i` that is not white space (or the end). */
  function SkipSpaces(s: string, i: nat): (r: nat)
    requires i <= |s|
    decreases |s| - i
    ensures i <= r <= |s|
  {
    if i < |s| && IsSpace(s[i]) then SkipSpaces(s, i + 1) else i
  }

  lemma {:induction false} SkipSpacesSpec(s: string, i: nat)
    requires i <= |s|
    decreases |s| - i
    ensures forall k :: i <= k < SkipSpaces(s, i) ==> IsSpace(s[k])
    ensures SkipSpaces(s, i) == |s| || !IsSpace(s[SkipSpaces(s, i)])
  {
    if i < |s| && IsSpace(s[i]) {
      SkipSpacesSpec(s, i + 1);
    }
  }

  /** The position just after the last non-space character in `s[lo..j]` (or `lo`). */
  function SkipSpacesBack(s: string, lo: nat, j: nat): (r: nat)
    requires lo <= j <= |s|
    decreases j
    ensures lo <= r <= j
  {
    if lo < j && IsSpace(s[j - 1]) then SkipSpacesBack(s, lo, j - 1) else j
  }

  lemma {:induction false} SkipSpacesBackSpec(s: string, lo: nat, j: nat)
    requires lo <= j <= |s|
    decreases j
    ensures forall k :: SkipSpacesBack(s, lo, j) <= k < j ==> IsSpace(s[k])
    ensures SkipSpacesBack(s, lo, j) == lo || !IsSpace(s[SkipSpacesBack(s, lo, j) - 1])
  {
    if lo < j && IsSpace(s[j - 1]) {
      SkipSpacesBackSpec(s, lo, j - 1);
    }
  }

  /** `s.trim()`: the slice left after dropping leading and trailing white space. */
  function Trim(s: string): string {
    var lo := SkipSpaces(s, 0);
    s[lo..SkipSpacesBack(s, lo, |s|)]
  }

  /** The trimmed text is a slice of the original, with white space only outside it and at neither end. */
  lemma TrimSlice(s: string) returns (lo: nat)
    ensures lo + |Trim(s)| <= |s| && Trim(s) == s[lo..lo + |Trim(s)|]
    ensures Trim(s) == [] || (!IsSpace(Trim(s)[0]) && !IsSpace(Trim(s)[|Trim(s)| - 1]))
    ensures forall k :: 0 <= k < lo ==> IsSpace(s[k])
    ensures forall k :: lo + |Trim(s)| <= k < |s| ==> IsSpace(s[k])
  {
    lo := SkipSpaces(s, 0);
    SkipSpacesSpec(s, 0);
    SkipSpacesBackSpec(s, lo, |s|);
  }

  /** Trimming is idempotent. */
  lemma TrimIdempotent(s: string)
    ensures Trim(Trim(s)) == Trim(s)
  {
    var _ := TrimSlice(s);
    var t := Trim(s);
    SkipSpacesSpec(t, 0);
    SkipSpacesBackSpec(t, 0, |t|);
  }

  /** Trimming does not introduce characters. */
  lemma TrimKeepsAbsence(s: string, c: char)
    ensures c !in s ==> c !in Trim(s)
  {
    var lo := TrimSlice(s);
    if c in Trim(s) {
      var k :| 0 <= k < |Trim(s)| && Trim(s)[k] == c;
      assert s[lo + k] == c;
    }
  }

  // ---------------------------------------------------------------- case

  /** `toLowerCase` on one character, over ASCII letters. */
  function LowerChar(c: char): char {
    if 'A' <= c <= 'Z' then (c as int + 32) as char else c
  }

  /** `s.toLowerCase()`, over ASCII letters. */
  function Lower(s: string): (r: string)
    ensures |r| == |s|
  {
    seq(|s|, i requires 0 <= i < |s| => LowerChar(s[i]))
  }

  /** `s.toLowerCase().includes(pat.toLowerCase())`. */
  predicate ContainsIgnoringCase(s: string, pat: string) {
    Contains(Lower(s), Lower(pat))
  }

  // ---------------------------------------------------------------- lines

  /** A piece that trimming leaves unchanged and non-empty. */
  ghost predicate IsTrimmed(x: string) {
    x != "" && Trim(x) == x
  }

  /** A trimmed, non-empty piece with no line feed in it. */
  ghost predicate IsCleanLine(x: string) {
    IsTrimmed(x) && '\n' !in x
  }

  /** The pieces trimmed, blank ones dropped, order and repeats kept: `map(trim).filter(x => x)`. */
  function NonBlank(pieces: seq<string>): (r: seq<string>)
    ensures |r| <= |pieces|
  {
    if pieces == [] then []
    else if Trim(pieces[0]) == "" then NonBlank(pieces[1..])
    else [Trim(pieces[0])] + NonBlank(pieces[1..])
  }

  lemma {:induction false} NonBlankClean(pieces: seq<string>)
    ensures forall i :: 0 <= i < |NonBlank(pieces)| ==> IsTrimmed(NonBlank(pieces)[i])
    ensures (forall i :: 0 <= i < |pieces| ==> '\n' !in pieces[i]) ==>
              forall i :: 0 <= i < |NonBlank(pieces)| ==> IsCleanLine(NonBlank(pieces)[i])
  {
    if pieces != [] {
      NonBlankClean(pieces[1..]);
      var t := Trim(pieces[0]);
      var rest := NonBlank(pieces[1..]);
      if t != "" {
        TrimIdempotent(pieces[0]);
        TrimKeepsAbsence(pieces[0], '\n');
        assert NonBlank(pieces) == [t] + rest;
        forall i | 0 < i < |[t] + rest| ensures ([t] + rest)[i] == rest[i - 1] { }
      }
    }
  }

  lemma {:induction false} NonBlankAppend(xs: seq<string>, ys: seq<string>)
    ensures NonBlank(xs + ys) == NonBlank(xs) + NonBlank(ys)
  {
    if xs != [] {
      assert (xs + ys)[0] == xs[0];
      assert (xs + ys)[1..] == xs[1..] + ys;
      NonBlankAppend(xs[1..], ys);
      var t := Trim(xs[0]);
      if t != "" {
        assert NonBlank(xs) == [t] + NonBlank(xs[1..]);
        assert NonBlank(xs + ys) == [t] + NonBlank(xs[1..] + ys);
        assert [t] + (NonBlank(xs[1..]) + NonBlank(ys)) == ([t] + NonBlank(xs[1..])) + NonBlank(ys);
      } else {
        assert NonBlank(xs) == NonBlank(xs[1..]);
        assert NonBlank(xs + ys) == NonBlank(xs[1..] + ys);
      }
    } else {
      assert xs + ys == ys;
    }
  }

  /** An entry is kept exactly when it is the non-empty trimming of some piece. */
  lemma {:induction false} NonBlankMembers(pieces: seq<string>)
    ensures forall x :: x in NonBlank(pieces) <==>
      x != "" && exists i :: 0 <= i < |pieces| && Trim(pieces[i]) == x
  {
    if pieces != [] {
      var rest := pieces[1..];
      NonBlankMembers(rest);
      forall x
        ensures x in NonBlank(pieces) <==> x != "" && exists i :: 0 <= i < |pieces| && Trim(pieces[i]) == x
      {
        if exists i :: 0 <= i < |rest| && Trim(rest[i]) == x {
          var i :| 0 <= i < |rest| && Trim(rest[i]) == x;
          assert Trim(pieces[i + 1]) == x;
        }
        if exists i :: 0 < i < |pieces| && Trim(pieces[i]) == x {
          var i :| 0 < i < |pieces| && Trim(pieces[i]) == x;
          assert Trim(rest[i - 1]) == x;
        }
      }
    }
  }

  lemma {:induction false} NonBlankOfClean(xs: seq<string>)
    requires forall i :: 0 <= i < |xs| ==> IsTrimmed(xs[i])
    ensures NonBlank(xs) == xs
  {
    if xs != [] {
      NonBlankOfClean(xs[1..]);
    }
  }

  /**
   * `s.split('\n').map(l => l.trim()).filter(l => l)`: the non-blank lines
   * of `s`, trimmed, in order, repeats kept.
   */
  function TrimmedLines(s: string): (r: seq<string>)
    ensures |r| <= |Split(s, "\n")|
  {
    NonBlank(Split(s, "\n"))
  }

  lemma SplitPiecesHaveNoLineFeed(s: string)
    ensures forall i :: 0 <= i < |Split(s, "\n")| ==> '\n' !in Split(s, "\n")[i]
  {
    var pieces := Split(s, "\n");
    SplitPieces(s, "\n");
    forall i | 0 <= i < |pieces| ensures '\n' !in pieces[i] {
      ContainsChar(pieces[i], '\n');
    }
  }

  /** Every line read is non-empty, trimmed and free of line feeds. */
  lemma TrimmedLinesClean(s: string)
    ensures forall i :: 0 <= i < |TrimmedLines(s)| ==> IsCleanLine(TrimmedLines(s)[i])
  {
    SplitPiecesHaveNoLineFeed(s);
    NonBlankClean(Split(s, "\n"));
  }

  /** A line-feed-free text yields its trimmed self, or nothing when blank. */
  lemma TrimmedLinesOfLine(s: string)
    requires '\n' !in s
    ensures TrimmedLines(s) == if Trim(s) == "" then [] else [Trim(s)]
  {
    SplitNoSeparator(s, '\n');
  }

  /** The lines of two texts joined by a line feed are the lines of the first, then those of the second. */
  lemma TrimmedLinesAppend(a: string, b: string)
    ensures TrimmedLines(a + "\n" + b) == TrimmedLines(a) + TrimmedLines(b)
  {
    SplitAppend(a, "\n", b);
    NonBlankAppend(Split(a, "\n"), Split(b, "\n"));
  }

  /** Clean lines joined by line feeds read back as the same lines. */
  lemma TrimmedLinesJoin(xs: seq<string>)
    requires forall i :: 0 <= i < |xs| ==> IsCleanLine(xs[i])
    ensures TrimmedLines(Join(xs, "\n")) == xs
  {
    if xs == [] {
      assert Split("", "\n") == [""];
    } else {
      SplitJoin(xs, '\n');
      NonBlankOfClean(xs);
    }
  }

  /** Reading lines is idempotent through a join. */
  lemma TrimmedLinesIdempotent(s: string)
    ensures TrimmedLines(Join(TrimmedLines(s), "\n")) == TrimmedLines(s)
  {
    TrimmedLinesClean(s);
    TrimmedLinesJoin(TrimmedLines(s));
  }
}
