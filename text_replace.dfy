/** Searching and replacing inside strings the way JavaScript's
    `String.prototype.includes` and `String.prototype.replace` do when the
    pattern is a string: only the FIRST occurrence is ever touched. */
module TextReplace {
  import opened Wrappers

  /** `pat` occurs in `s` starting at index `i`. */
  predicate OccursAt(s: string, pat: string, i: nat) {
    i + |pat| <= |s| && s[i..i + |pat|] == pat
  }

  /** `i` is the position of the first occurrence of `pat` in `s`. */
  predicate FirstAt(s: string, pat: string, i: nat) {
    OccursAt(s, pat, i) && forall j: nat :: j < i ==> !OccursAt(s, pat, j)
  }

  /** The first index at or after `from` where `pat` occurs in `s`. */
  function FirstFrom(s: string, pat: string, from: nat): Option<nat>
    requires from <= |s|
    decreases |s| - from
  {
    if from + |pat| > |s| then None
    else if s[from..from + |pat|] == pat then Some(from)
    else FirstFrom(s, pat, from + 1)
  }

  /** The search finds the first occurrence at or after `from`, and reports
      none only when there is none. */
  lemma {:induction false} FirstFromSpec(s: string, pat: string, from: nat)
    requires from <= |s|
    ensures var r := FirstFrom(s, pat, from);
      r.Some? ==> from <= r.value && OccursAt(s, pat, r.value)
    ensures var r := FirstFrom(s, pat, from);
      r.Some? ==> forall j: nat :: from <= j < r.value ==> !OccursAt(s, pat, j)
    ensures FirstFrom(s, pat, from).None? ==> forall j: nat :: from <= j ==> !OccursAt(s, pat, j)
    decreases |s| - from
  {
    if from + |pat| > |s| {
    } else if s[from..from + |pat|] == pat {
    } else {
      FirstFromSpec(s, pat, from + 1);
    }
  }

  /** `s.indexOf(pat)`, with `None` for JavaScript's -1. An empty pattern is
      found at index 0. */
  function IndexOf(s: string, pat: string): Option<nat> {
    FirstFrom(s, pat, 0)
  }

  /** `indexOf` reports the first occurrence, or none when there is none. */
  lemma IndexOfSpec(s: string, pat: string)
    ensures IndexOf(s, pat).Some? ==> FirstAt(s, pat, IndexOf(s, pat).value)
    ensures IndexOf(s, pat).None? ==> forall j: nat :: !OccursAt(s, pat, j)
  {
    FirstFromSpec(s, pat, 0);
  }

  /** `s.includes(pat)`. */
  predicate Includes(s: string, pat: string) {
    IndexOf(s, pat).Some?
  }

  /** `includes` holds exactly when the pattern occurs somewhere. */
  lemma IncludesIff(s: string, pat: string)
    ensures Includes(s, pat) <==> exists j: nat :: OccursAt(s, pat, j)
  {
    IndexOfSpec(s, pat);
    if Includes(s, pat) {
      assert OccursAt(s, pat, IndexOf(s, pat).value);
    }
  }

  /** The first occurrence is unique, so it is the one `IndexOf` reports. */
  lemma FirstAtIsIndexOf(s: string, pat: string, i: nat)
    requires FirstAt(s, pat, i)
    ensures IndexOf(s, pat) == Some(i)
  {
    IndexOfSpec(s, pat);
    var r := IndexOf(s, pat);
    assert r.Some?;
    assert !(r.value < i);
    assert !(i < r.value);
  }

  /** A text shorter than a pattern does not include it. */
  lemma ShorterExcludes(s: string, pat: string)
    requires |s| < |pat|
    ensures !Includes(s, pat)
  {
  }

  /** `s.replace(pat, rep)` for a replacement taken literally: the first
      occurrence of `pat` becomes `rep`; without an occurrence `s` is
      returned as it is. */
  function ReplaceFirst(s: string, pat: string, rep: string): (r: string)
    ensures !Includes(s, pat) ==> r == s
    ensures IndexOf(s, pat).Some? ==>
      var i := IndexOf(s, pat).value; i + |pat| <= |s| && r == s[..i] + rep + s[i + |pat|..]
    ensures |r| == if Includes(s, pat) then |s| - |pat| + |rep| else |s|
  {
    IndexOfSpec(s, pat);
    match IndexOf(s, pat)
    case None => s
    case Some(i) => s[..i] + rep + s[i + |pat|..]
  }

  /** When no occurrence of `pat` can start inside `pre` (its first character
      does not appear there), the occurrence right after `pre` is the first. */
  lemma FirstAfterPrefix(pre: string, pat: string, post: string)
    requires |pat| > 0 && pat[0] !in pre
    ensures FirstAt(pre + pat + post, pat, |pre|)
    ensures IndexOf(pre + pat + post, pat) == Some(|pre|)
  {
    var s := pre + pat + post;
    assert s[|pre|..|pre| + |pat|] == pat;
    forall j: nat | j < |pre| ensures !OccursAt(s, pat, j) {
      assert s[j] == pre[j];
    }
    FirstAtIsIndexOf(s, pat, |pre|);
  }

  /** Replacing the first occurrence right after such a prefix. */
  lemma {:induction false} ReplaceFirstAfterPrefix(pre: string, pat: string, post: string, rep: string)
    requires |pat| > 0 && pat[0] !in pre
    ensures ReplaceFirst(pre + pat + post, pat, rep) == pre + rep + post
  {
    var s := pre + pat + post;
    FirstAfterPrefix(pre, pat, post);
    assert s[..|pre|] == pre;
    assert s[|pre| + |pat|..] == post;
  }

  /** A pattern at the very start is the first occurrence. */
  lemma ReplaceFirstAtStart(pat: string, post: string, rep: string)
    ensures IndexOf(pat + post, pat) == Some(0)
    ensures ReplaceFirst(pat + post, pat, rep) == rep + post
  {
    var s := pat + post;
    assert OccursAt(s, pat, 0) by {
      assert s[0..|pat|] == pat;
    }
    FirstAtIsIndexOf(s, pat, 0);
    assert s[..0] + rep + s[|pat|..] == rep + post by {
      assert s[..0] == [] && s[|pat|..] == post;
    }
  }

  /** Removing a leading `head`, then renaming the first `name` found after
      a prefix `a` free of its first character. */
  lemma {:induction false} RemoveHeadThenRename(head: string, a: string, name: string, b: string, rep: string)
    requires |name| > 0 && name[0] !in a
    ensures Includes(head + a + name + b, head)
    ensures ReplaceFirst(ReplaceFirst(head + a + name + b, head, ""), name, rep) == a + rep + b
  {
    var rest := a + name + b;
    assert head + a + name + b == head + rest;
    ReplaceFirstAtStart(head, rest, "");
    assert "" + rest == rest;
    ReplaceFirstAfterPrefix(a, name, b, rep);
  }

  /** Renaming the first `pat` after a prefix `a`, then replacing the first
      `suffix` after the renamed part. */
  lemma {:induction false} RenameThenReplace(a: string, pat: string, b: string, suffix: string, c: string, rep: string, rep2: string)
    requires |pat| > 0 && pat[0] !in a
    requires |suffix| > 0 && suffix[0] !in a + rep + b
    ensures ReplaceFirst(ReplaceFirst(a + pat + b + suffix + c, pat, rep), suffix, rep2) == a + rep + b + rep2 + c
  {
    var rest := b + suffix + c;
    assert a + pat + b + suffix + c == a + pat + rest;
    ReplaceFirstAfterPrefix(a, pat, rest, rep);
    var head := a + rep + b;
    assert a + rep + rest == head + suffix + c;
    ReplaceFirstAfterPrefix(head, suffix, c, rep2);
  }

  /** Only the first occurrence is replaced: every occurrence that starts
      after it survives, shifted by the change in length. */
  lemma ReplaceFirstKeepsLater(s: string, pat: string, rep: string, i: nat, j: nat)
    requires FirstAt(s, pat, i) && OccursAt(s, pat, j) && i + |pat| <= j
    ensures OccursAt(ReplaceFirst(s, pat, rep), pat, j - |pat| + |rep|)
  {
    var r := ReplaceFirst(s, pat, rep);
    FirstAtIsIndexOf(s, pat, i);
    var tail := s[i + |pat|..];
    assert r == s[..i] + rep + tail;
    var k := j - |pat| + |rep|;
    assert r[k..k + |pat|] == tail[j - i - |pat|..j - i] by {
      assert r[i + |rep|..] == tail;
    }
    assert tail[j - i - |pat|..j - i] == s[j..j + |pat|];
  }

  /** One string occurs inside another: every text containing the bigger
      one contains the smaller one too. */
  lemma IncludesWithin(s: string, big: string, small: string, k: nat)
    requires Includes(s, big) && k + |small| <= |big| && big[k..k + |small|] == small
    ensures Includes(s, small)
  {
    IndexOfSpec(s, big);
    var j: nat := IndexOf(s, big).value;
    var window := s[j + k..j + k + |small|];
    forall t | 0 <= t < |small| ensures window[t] == small[t] {
      assert window[t] == s[j..j + |big|][k + t];
    }
    assert window == small;
    assert OccursAt(s, small, j + k);
    IncludesIff(s, small);
  }

  /** The text that replaces a match in JavaScript's `String.prototype.replace`
      when the replacement is a string and the pattern is a string (the
      GetSubstitution step of ECMAScript, with no capture groups): `$$`
      becomes `$`, `$&` the matched text, `` $` `` the text before the match,
      `$'` the text after it; any other `$` stands for itself. */
  function Expand(rep: string, matched: string, before: string, after: string): (r: string)
    ensures '$' !in rep ==> r == rep
    decreases |rep|
  {
    if |rep| == 0 then ""
    else if rep[0] == '$' && |rep| >= 2 && rep[1] == '$' then "$" + Expand(rep[2..], matched, before, after)
    else if rep[0] == '$' && |rep| >= 2 && rep[1] == '&' then matched + Expand(rep[2..], matched, before, after)
    else if rep[0] == '$' && |rep| >= 2 && rep[1] == '`' then before + Expand(rep[2..], matched, before, after)
    else if rep[0] == '$' && |rep| >= 2 && rep[1] == '\'' then after + Expand(rep[2..], matched, before, after)
    else [rep[0]] + Expand(rep[1..], matched, before, after)
  }

  /** `s.replace(pat, rep)` exactly as JavaScript evaluates it: the first
      occurrence is replaced by the EXPANDED replacement text. */
  function JsReplace(s: string, pat: string, rep: string): (r: string)
    ensures '$' !in rep ==> r == ReplaceFirst(s, pat, rep)
    ensures !Includes(s, pat) ==> r == s
  {
    IndexOfSpec(s, pat);
    match IndexOf(s, pat)
    case None => s
    case Some(i) => s[..i] + Expand(rep, pat, s[..i], s[i + |pat|..]) + s[i + |pat|..]
  }

  /** `$$` in a replacement stands for one `$`. */
  lemma {:induction false} ExpandDoubleDollar(name: string, matched: string, before: string, after: string)
    requires '$' !in name
    ensures Expand(name + "$$", matched, before, after) == name + "$"
    decreases |name|
  {
    if |name| == 0 {
      assert "" + "$$" == "$$";
    } else {
      var s := name + "$$";
      assert s[0] == name[0] && name[0] != '$';
      assert s[1..] == name[1..] + "$$";
      assert '$' !in name[1..] by {
        forall k | 0 <= k < |name[1..]| ensures name[1..][k] != '$' {
          assert name[1..][k] == name[k + 1];
        }
      }
      assert Expand(s, matched, before, after) == [name[0]] + Expand(s[1..], matched, before, after);
      ExpandDoubleDollar(name[1..], matched, before, after);
      assert name == [name[0]] + name[1..];
    }
  }

  /** JavaScript's `replace` of the first occurrence after a prefix free of
      the pattern's first character, with a replacement ending in `$$`:
      only one `$` arrives. */
  lemma {:induction false} JsReplaceDoubleDollar(pre: string, pat: string, post: string, name: string)
    requires |pat| > 0 && pat[0] !in pre && '$' !in name
    ensures JsReplace(pre + pat + post, pat, name + "$$") == pre + name + "$" + post
  {
    var s := pre + pat + post;
    FirstAfterPrefix(pre, pat, post);
    assert s[..|pre|] == pre && s[|pre| + |pat|..] == post;
    ExpandDoubleDollar(name, pat, pre, post);
  }

  /** The JavaScript counterpart of `RenameThenReplace` for a name ending in
      `$$` and an empty second replacement. */
  lemma {:induction false} JsRenameThenDrop(a: string, pat: string, b: string, suffix: string, c: string, name: string)
    requires |pat| > 0 && pat[0] !in a && '$' !in name
    requires |suffix| > 0 && suffix[0] !in a + name + "$" + b
    ensures JsReplace(JsReplace(a + pat + b + suffix + c, pat, name + "$$"), suffix, "") == a + name + "$" + b + c
  {
    var head := a + name + "$" + b;
    JsRenameStep(a + pat + b + suffix + c, a, pat, b + suffix + c, name, head + suffix + c);
    JsDropStep(head, suffix, c);
  }

  /** The first `replace` of `JsRenameThenDrop`, on named texts. */
  lemma JsRenameStep(s: string, pre: string, pat: string, post: string, name: string, t: string)
    requires s == pre + pat + post && t == pre + name + "$" + post
    requires |pat| > 0 && pat[0] !in pre && '$' !in name
    ensures JsReplace(s, pat, name + "$$") == t
  {
    JsReplaceDoubleDollar(pre, pat, post, name);
  }

  /** The second `replace` of `JsRenameThenDrop`: a literal removal. */
  lemma JsDropStep(head: string, suffix: string, c: string)
    requires |suffix| > 0 && suffix[0] !in head
    ensures JsReplace(head + suffix + c, suffix, "") == head + c
  {
    ReplaceFirstAfterPrefix(head, suffix, c, "");
  }
}
