/** Title cleaning for the summary lines: `title.replace(/\[[^\]]*\]/g, '').trim()`. */
module Titles {
  import opened Strings

  /** No `[` in `s` is followed, anywhere later, by a `]`. */
  ghost predicate NoBracketPair(s: string) {
    forall i, j :: 0 <= i < j < |s| && s[i] == '[' ==> s[j] != ']'
  }

  /**
   * The global replacement of `/\[[^\]]*\]/` by nothing: scanning left to
   * right, a `[` and everything up to the next `]` are dropped; a `[` with no
   * `]` after it is kept, as is every other character.
   */
  function StripBracketTags(s: string): (r: string)
    decreases |s|
    ensures |r| <= |s|
  {
    if s == [] then []
    else if s[0] == '[' && IndexOf(s[1..], "]").Some? then
      StripBracketTags(s[IndexOf(s[1..], "]").value + 2..])
    else
      [s[0]] + StripBracketTags(s[1..])
  }

  /** Stripping only drops characters, and leaves no `[` followed later by a `]`. */
  lemma {:induction false} StripBracketTagsSpec(s: string)
    decreases |s|
    ensures forall c :: c in StripBracketTags(s) ==> c in s
    ensures NoBracketPair(StripBracketTags(s))
  {
    if s != [] {
      if s[0] == '[' && IndexOf(s[1..], "]").Some? {
        var rest := s[IndexOf(s[1..], "]").value + 2..];
        StripBracketTagsSpec(rest);
        assert forall c :: c in rest ==> c in s;
      } else {
        var rest := StripBracketTags(s[1..]);
        StripBracketTagsSpec(s[1..]);
        ContainsChar(s[1..], ']');
        assert s[0] == '[' ==> ']' !in rest;
        assert StripBracketTags(s) == [s[0]] + rest;
        assert forall j :: 0 < j < |[s[0]] + rest| ==> ([s[0]] + rest)[j] == rest[j - 1];
      }
    }
  }

  /** A text without a `[`...`]` pair is left as it is. */
  lemma {:induction false} StripBracketTagsIdentity(s: string)
    requires NoBracketPair(s)
    decreases |s|
    ensures StripBracketTags(s) == s
  {
    if s != [] {
      assert NoBracketPair(s[1..]) by {
        forall i, j | 0 <= i < j < |s[1..]| && s[1..][i] == '[' ensures s[1..][j] != ']' {
          assert s[i + 1] == '[';
        }
      }
      StripBracketTagsIdentity(s[1..]);
      if s[0] == '[' {
        ContainsChar(s[1..], ']');
        assert ']' !in s[1..] by {
          forall j | 0 <= j < |s[1..]| ensures s[1..][j] != ']' {
            assert s[j + 1] == s[1..][j];
          }
        }
      }
      assert s == [s[0]] + s[1..];
    }
  }

  /**
   * The replacement works tag by tag: text before the first `[` is kept, and
   * that `[` with everything up to the first `]` after it is dropped, before
   * the rest is stripped the same way.
   */
  lemma {:induction false} StripTag(a: string, m: string, b: string)
    requires '[' !in a && ']' !in m
    decreases |a|
    ensures StripBracketTags(a + "[" + m + "]" + b) == a + StripBracketTags(b)
  {
    var s := a + "[" + m + "]" + b;
    if a == [] {
      var tail := s[1..];
      assert tail == m + "]" + b;
      assert OccursAt(tail, "]", |m|) by {
        assert tail[|m|..|m| + 1] == "]";
      }
      forall k | 0 <= k < |m| ensures !OccursAt(tail, "]", k) {
        assert tail[k..k + 1] == [m[k]];
      }
      IndexOfIs(tail, "]", |m|);
      assert s[|m| + 2..] == b;
    } else {
      assert s[0] == a[0];
      assert s[1..] == a[1..] + "[" + m + "]" + b;
      StripTag(a[1..], m, b);
      assert a == [a[0]] + a[1..];
    }
  }

  /** Trimming keeps the absence of a `[`...`]` pair. */
  lemma TrimKeepsNoBracketPair(s: string)
    requires NoBracketPair(s)
    ensures NoBracketPair(Trim(s))
  {
    var lo := TrimSlice(s);
    var t := Trim(s);
    forall i, j | 0 <= i < j < |t| && t[i] == '[' ensures t[j] != ']' {
      assert t[i] == s[lo + i] && t[j] == s[lo + j];
    }
  }

  /** The title shown in a summary line. */
  function CleanTitle(title: string): (r: string)
    ensures |r| <= |title|
  {
    Trim(StripBracketTags(title))
  }

  /** A cleaned title holds no `[`...`]` pair and has no white space at either end. */
  lemma CleanTitleSpec(title: string)
    ensures NoBracketPair(CleanTitle(title))
    ensures Trim(CleanTitle(title)) == CleanTitle(title)
  {
    var stripped := StripBracketTags(title);
    StripBracketTagsSpec(title);
    TrimKeepsNoBracketPair(stripped);
    TrimIdempotent(stripped);
  }

  /** Cleaning a cleaned title changes nothing. */
  lemma CleanTitleIdempotent(title: string)
    ensures CleanTitle(CleanTitle(title)) == CleanTitle(title)
  {
    CleanTitleSpec(title);
    StripBracketTagsIdentity(CleanTitle(title));
  }
}
