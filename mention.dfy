/**
  Addressing text: the case-insensitive search for the literal `@<handle>`,
  its removal from a message (every occurrence, left to right, without
  overlap, as a regular-expression substitution of an escaped literal does)
  and the whitespace trim applied to what is left.

  Case-insensitivity is ASCII only: `Lower` maps A-Z to a-z and leaves every
  other character alone.
 */
module Mention {
  import opened Wrappers

  function Lower(c: char): char
  {
    if 'A' <= c <= 'Z' then (c as int + 32) as char else c
  }

  function LowerStr(s: string): (r: string)
    ensures |r| == |s|
  {
    seq(|s|, k requires 0 <= k < |s| => Lower(s[k]))
  }

  /** Lowercasing works character by character. */
  lemma LowerStrAt(s: string)
    ensures forall k :: 0 <= k < |s| ==> LowerStr(s)[k] == Lower(s[k])
  {
  }

  /** The characters of `text` at `i` spell `pat`, ignoring letter case. */
  predicate MatchesAt(text: string, pat: string, i: nat)
  {
    i + |pat| <= |text| && LowerStr(text[i..i + |pat|]) == LowerStr(pat)
  }

  /** Lowercasing commutes with taking a slice. */
  lemma LowerSlice(s: string, a: nat, b: nat)
    requires a <= b <= |s|
    ensures LowerStr(s)[a..b] == LowerStr(s[a..b])
  {
    LowerStrAt(s);
    LowerStrAt(s[a..b]);
  }

  /** `pat` occurs in `text` at some position, ignoring letter case. */
  ghost predicate Occurs(text: string, pat: string)
  {
    exists i :: 0 <= i <= |text| && MatchesAt(text, pat, i)
  }

  /** `a` is a contiguous part of `b`. */
  ghost predicate IsInfix(a: string, b: string)
  {
    exists pre, post :: b == pre + a + post
  }

  /** The search for `pat` at or after `from`, position by position, as a regular-expression search runs. */
  function FindFrom(text: string, pat: string, from: nat): (r: Option<nat>)
    requires from <= |text|
    ensures r.Some? ==> from <= r.value && r.value + |pat| <= |text|
    decreases |text| - from
  {
    if MatchesAt(text, pat, from) then Some(from)
    else if from == |text| then None
    else FindFrom(text, pat, from + 1)
  }

  /** The search finds the leftmost match at or after `from`, and finds nothing only when there is none. */
  lemma {:induction false} FindFromLeftmost(text: string, pat: string, from: nat)
    requires from <= |text|
    ensures FindFrom(text, pat, from).Some? ==> MatchesAt(text, pat, FindFrom(text, pat, from).value)
    ensures FindFrom(text, pat, from).Some? ==>
              forall j :: from <= j < FindFrom(text, pat, from).value ==> !MatchesAt(text, pat, j)
    ensures FindFrom(text, pat, from).None? ==> forall j :: from <= j <= |text| ==> !MatchesAt(text, pat, j)
    decreases |text| - from
  {
    if !MatchesAt(text, pat, from) && from < |text| {
      FindFromLeftmost(text, pat, from + 1);
    }
  }

  /** The mention token of a bot whose username is `handle`. */
  function MentionToken(handle: string): (r: string)
  {
    "@" + handle
  }

  /** `is_bot_mentioned`: the text contains `@<handle>` in any letter casing. */
  function IsBotMentioned(text: string, handle: string): (r: bool)
    ensures r <==> Occurs(text, MentionToken(handle))
  {
    FindFromLeftmost(text, MentionToken(handle), 0);
    FindFrom(text, MentionToken(handle), 0).Some?
  }

  /**
    The username is escaped before the search, so a character that is special
    in a regular expression, such as `.`, matches only itself.
   */
  lemma EscapedHandleIsLiteral()
    ensures IsBotMentioned("@A.B", "a.b")
    ensures !IsBotMentioned("@axb", "a.b")
  {
    var token := MentionToken("a.b");
    assert token == "@a.b";
    MatchAt("@A.B", token, 0);
    var text := "@axb";
    forall i | 0 <= i <= |text| && i + |token| <= |text|
      ensures !MatchesAt(text, token, i)
    {
      MismatchAt(text, token, i, 2);
    }
  }

  /** A case-insensitive occurrence puts the lowercased token into the lowercased text. */
  lemma OccursGivesLoweredInfix(text: string, pat: string)
    requires Occurs(text, pat)
    ensures IsInfix(LowerStr(pat), LowerStr(text))
  {
    var lt, lp := LowerStr(text), LowerStr(pat);
    var i :| 0 <= i <= |text| && MatchesAt(text, pat, i);
    LowerSlice(text, i, i + |pat|);
    var pre, post := lt[..i], lt[i + |pat|..];
    assert lt == pre + lp + post;
  }

  /** The lowercased token inside the lowercased text is a case-insensitive occurrence. */
  lemma LoweredInfixGivesOccurs(text: string, pat: string)
    requires IsInfix(LowerStr(pat), LowerStr(text))
    ensures Occurs(text, pat)
  {
    var lt, lp := LowerStr(text), LowerStr(pat);
    var pre, post :| lt == pre + lp + post;
    assert lt[|pre|..|pre| + |pat|] == lp;
    LowerSlice(text, |pre|, |pre| + |pat|);
    assert MatchesAt(text, pat, |pre|);
  }

  /** An occurrence ignoring case is an infix of the lowercased texts, and back. */
  lemma OccursIffLoweredInfix(text: string, pat: string)
    ensures Occurs(text, pat) <==> IsInfix(LowerStr(pat), LowerStr(text))
  {
    if Occurs(text, pat) {
      OccursGivesLoweredInfix(text, pat);
    }
    if IsInfix(LowerStr(pat), LowerStr(text)) {
      LoweredInfixGivesOccurs(text, pat);
    }
  }

  /** A text without `@` mentions nobody. */
  lemma NoAtSignNoMention(text: string, handle: string)
    requires '@' !in text
    ensures !IsBotMentioned(text, handle)
  {
    var token := MentionToken(handle);
    forall i | 0 <= i <= |text| && i + |token| <= |text|
      ensures !MatchesAt(text, token, i)
    {
      MismatchAt(text, token, i, 0);
    }
  }

  /** `is_bot_mentioned` holds exactly when the lowercased token is part of the lowercased text. */
  lemma MentionedIffLoweredInfix(text: string, handle: string)
    ensures IsBotMentioned(text, handle) <==> IsInfix(LowerStr(MentionToken(handle)), LowerStr(text))
  {
    OccursIffLoweredInfix(text, MentionToken(handle));
  }

  // ---------------------------------------------------------------------------
  // Removal of every occurrence

  /**
    The substitution of `pat` by nothing from position `from` on: find the
    leftmost match, keep the text before it, skip the match and go on after it.
   */
  function RemoveFrom(text: string, pat: string, from: nat): string
    requires |pat| > 0 && from <= |text|
    decreases |text| - from
  {
    match FindFrom(text, pat, from)
    case None => text[from..]
    case Some(j) => text[from..j] + RemoveFrom(text, pat, j + |pat|)
  }

  /** `text` with every match of `pat` removed, matches taken left to right without overlap. */
  function RemoveAll(text: string, pat: string): string
    requires |pat| > 0
  {
    RemoveFrom(text, pat, 0)
  }

  /**
    An independent reading of the same substitution, one character at a time:
    a match at the front is dropped whole, any other first character is kept.
   */
  function Scan(text: string, pat: string): string
    requires |pat| > 0
  {
    if MatchesAt(text, pat, 0) then Scan(text[|pat|..], pat)
    else if text == [] then []
    else [text[0]] + Scan(text[1..], pat)
  }

  /** A match in a suffix is a match in the whole text, shifted. */
  lemma MatchesInSuffix(text: string, pat: string, i: nat, j: nat)
    requires i <= j <= |text|
    ensures MatchesAt(text[i..], pat, j - i) <==> MatchesAt(text, pat, j)
  {
    if j + |pat| <= |text| {
      assert text[i..][j - i..j - i + |pat|] == text[j..j + |pat|];
    }
  }

  /** Characters that agree in lowercase, one by one, make a match. */
  lemma MatchAt(text: string, pat: string, i: nat)
    requires i + |pat| <= |text|
    requires forall k :: 0 <= k < |pat| ==> Lower(text[i + k]) == Lower(pat[k])
    ensures MatchesAt(text, pat, i)
  {
    LowerStrAt(text[i..i + |pat|]);
    LowerStrAt(pat);
  }

  /** Two characters that differ in lowercase rule out a match. */
  lemma MismatchAt(text: string, pat: string, i: nat, k: nat)
    requires i + |pat| <= |text| && k < |pat| && Lower(text[i + k]) != Lower(pat[k])
    ensures !MatchesAt(text, pat, i)
  {
    LowerStrAt(text[i..i + |pat|]);
    LowerStrAt(pat);
  }

  /** The search skips a position where no match starts. */
  lemma FindFromSkips(text: string, pat: string, from: nat)
    requires from < |text| && !MatchesAt(text, pat, from)
    ensures FindFrom(text, pat, from) == FindFrom(text, pat, from + 1)
  {
  }

  /** Where the search from `from` finds nothing, the rest is kept as it is. */
  lemma RemoveFromNone(text: string, pat: string, from: nat)
    requires |pat| > 0 && from <= |text| && FindFrom(text, pat, from).None?
    ensures RemoveFrom(text, pat, from) == text[from..]
  {
  }

  /** Where the search from `from` finds `j`, the text up to `j` is kept and the substitution resumes after the match. */
  lemma RemoveFromSome(text: string, pat: string, from: nat, j: nat)
    requires |pat| > 0 && from <= |text| && FindFrom(text, pat, from) == Some(j)
    ensures RemoveFrom(text, pat, from) == text[from..j] + RemoveFrom(text, pat, j + |pat|)
  {
  }

  /** Where no match starts at `from`, its character is kept and the substitution goes on. */
  lemma RemoveFromKeeps(text: string, pat: string, from: nat)
    requires |pat| > 0 && from < |text| && FindFrom(text, pat, from) == FindFrom(text, pat, from + 1)
    ensures RemoveFrom(text, pat, from) == [text[from]] + RemoveFrom(text, pat, from + 1)
  {
    match FindFrom(text, pat, from + 1)
    case None => KeepsBeforeNothing(text, pat, from);
    case Some(j) => KeepsBeforeMatch(text, pat, from, j);
  }

  lemma KeepsBeforeNothing(text: string, pat: string, from: nat)
    requires |pat| > 0 && from < |text| && FindFrom(text, pat, from).None? && FindFrom(text, pat, from + 1).None?
    ensures RemoveFrom(text, pat, from) == [text[from]] + RemoveFrom(text, pat, from + 1)
  {
    RemoveFromNone(text, pat, from);
    RemoveFromNone(text, pat, from + 1);
    assert text[from..] == [text[from]] + text[from + 1..];
  }

  lemma KeepsBeforeMatch(text: string, pat: string, from: nat, j: nat)
    requires |pat| > 0 && from < |text| && FindFrom(text, pat, from) == Some(j) && FindFrom(text, pat, from + 1) == Some(j)
    ensures RemoveFrom(text, pat, from) == [text[from]] + RemoveFrom(text, pat, from + 1)
  {
    RemoveFromSome(text, pat, from, j);
    RemoveFromSome(text, pat, from + 1, j);
    assert text[from..j] == [text[from]] + text[from + 1..j];
    ConsAppend(text[from], text[from + 1..j], RemoveFrom(text, pat, j + |pat|));
  }

  lemma ConsAppend<T>(c: T, b: seq<T>, r: seq<T>)
    ensures ([c] + b) + r == [c] + (b + r)
  {
  }

  /** A match found at `from` itself is skipped whole. */
  lemma RemoveFromDrops(text: string, pat: string, from: nat)
    requires |pat| > 0 && from <= |text| && FindFrom(text, pat, from) == Some(from)
    ensures RemoveFrom(text, pat, from) == RemoveFrom(text, pat, from + |pat|)
  {
    RemoveFromSome(text, pat, from, from);
    assert text[from..from] == [];
  }

  /** The reference reading drops a match at `from` whole. */
  lemma ScanDrops(text: string, pat: string, from: nat)
    requires |pat| > 0 && from <= |text| && FindFrom(text, pat, from) == Some(from)
    ensures Scan(text[from..], pat) == Scan(text[from + |pat|..], pat)
  {
    FindFromLeftmost(text, pat, from);
    var rest := text[from..];
    MatchesInSuffix(text, pat, from, from);
    assert rest[|pat|..] == text[from + |pat|..];
  }

  /** The reference reading keeps the character at `from` where no match starts. */
  lemma ScanKeeps(text: string, pat: string, from: nat)
    requires |pat| > 0 && from < |text| && !MatchesAt(text, pat, from)
    ensures Scan(text[from..], pat) == [text[from]] + Scan(text[from + 1..], pat)
  {
    var rest := text[from..];
    MatchesInSuffix(text, pat, from, from);
    assert rest[1..] == text[from + 1..];
  }

  /** A stretch where no match starts is copied unchanged by the reference reading. */
  lemma {:induction false} ScanKeepsRun(text: string, pat: string, i: nat, j: nat)
    requires |pat| > 0 && i <= j <= |text|
    requires forall k :: i <= k < j ==> !MatchesAt(text, pat, k)
    ensures Scan(text[i..], pat) == text[i..j] + Scan(text[j..], pat)
    decreases j - i
  {
    if i == j {
      assert text[i..j] == [];
    } else {
      ScanKeeps(text, pat, i);
      ScanKeepsRun(text, pat, i + 1, j);
      assert text[i..j] == [text[i]] + text[i + 1..j];
      ConsAppend(text[i], text[i + 1..j], Scan(text[j..], pat));
    }
  }

  /** Over a match at `from`, both readings skip it whole and then agree by induction. */
  lemma {:induction false} IsScanOverMatch(text: string, pat: string, from: nat)
    requires |pat| > 0 && from <= |text| && FindFrom(text, pat, from) == Some(from)
    ensures RemoveFrom(text, pat, from) == Scan(text[from..], pat)
    decreases |text| - from, 0
  {
    calc {
      RemoveFrom(text, pat, from);
      { RemoveFromDrops(text, pat, from); }
      RemoveFrom(text, pat, from + |pat|);
      { RemoveFromIsScan(text, pat, from + |pat|); }
      Scan(text[from + |pat|..], pat);
      { ScanDrops(text, pat, from); }
      Scan(text[from..], pat);
    }
  }

  /** Over a character where no match starts, both readings keep it and then agree by induction. */
  lemma {:induction false} IsScanOverChar(text: string, pat: string, from: nat)
    requires |pat| > 0 && from < |text| && !MatchesAt(text, pat, from)
    ensures RemoveFrom(text, pat, from) == Scan(text[from..], pat)
    decreases |text| - from, 0
  {
    RemoveFromIsScan(text, pat, from + 1);
    FindFromSkips(text, pat, from);
    RemoveFromKeeps(text, pat, from);
    ScanKeeps(text, pat, from);
  }

  /** At the end of the text both readings give the empty string. */
  lemma IsScanAtEnd(text: string, pat: string)
    requires |pat| > 0
    ensures RemoveFrom(text, pat, |text|) == Scan(text[|text|..], pat)
  {
    assert FindFrom(text, pat, |text|) == None;
    assert text[|text|..] == [];
  }

  /** The search-based substitution from `from` on is the character-by-character one on the rest. */
  lemma {:induction false} RemoveFromIsScan(text: string, pat: string, from: nat)
    requires |pat| > 0 && from <= |text|
    ensures RemoveFrom(text, pat, from) == Scan(text[from..], pat)
    decreases |text| - from, 1
  {
    if MatchesAt(text, pat, from) {
      IsScanOverMatch(text, pat, from);
    } else if from == |text| {
      IsScanAtEnd(text, pat);
    } else {
      IsScanOverChar(text, pat, from);
    }
  }

  /** Both readings of the substitution agree on every input. */
  lemma RemoveAllIsScan(text: string, pat: string)
    requires |pat| > 0
    ensures RemoveAll(text, pat) == Scan(text, pat)
  {
    RemoveFromIsScan(text, pat, 0);
    assert text[0..] == text;
  }

  /** Where `pat` does not occur the text is left unchanged. */
  lemma RemoveAllWithoutMatch(text: string, pat: string)
    requires |pat| > 0 && !Occurs(text, pat)
    ensures RemoveAll(text, pat) == text
  {
    FindFromLeftmost(text, pat, 0);
    assert FindFrom(text, pat, 0).None?;
    assert text[0..] == text;
  }

  /** A match at the front is removed and the substitution continues right after it. */
  lemma RemoveAllAtFront(text: string, pat: string)
    requires |pat| > 0 && MatchesAt(text, pat, 0)
    ensures RemoveAll(text, pat) == RemoveAll(text[|pat|..], pat)
  {
    RemoveAllIsScan(text, pat);
    RemoveAllIsScan(text[|pat|..], pat);
  }

  /** What is removed comes out of `text`: the result is never longer. */
  lemma {:induction false} RemoveFromShrinks(text: string, pat: string, from: nat)
    requires |pat| > 0 && from <= |text|
    ensures |RemoveFrom(text, pat, from)| <= |text| - from
    ensures Occurs(text[from..], pat) ==> |RemoveFrom(text, pat, from)| <= |text| - from - |pat|
    decreases |text| - from
  {
    FindFromLeftmost(text, pat, from);
    match FindFrom(text, pat, from)
    case None =>
      forall i | 0 <= i <= |text[from..]|
        ensures !MatchesAt(text[from..], pat, i)
      {
        MatchesInSuffix(text, pat, from, from + i);
      }
    case Some(j) =>
      RemoveFromShrinks(text, pat, j + |pat|);
  }

  /** Removal does not rescan what it produced: a new mention can appear where two pieces join. */
  lemma RemovalCanLeaveMention()
    ensures RemoveAll("@@botbot", "@bot") == "@bot"
  {
    var text, pat := "@@botbot", "@bot";
    MismatchAt(text, pat, 0, 1);
    assert text[1..5] == "@bot";
    assert MatchesAt(text, pat, 1);
    assert FindFrom(text, pat, 0) == Some(1);
    assert FindFrom(text, pat, 5) == None;
  }

  // ---------------------------------------------------------------------------
  // Whitespace trim

  /** The characters that Python's `str.isspace` accepts. */
  predicate IsSpace(c: char)
  {
    ('\t' <= c <= '\r') || ('\U{1C}' <= c <= ' ') ||
    c == '\U{85}' || c == '\U{A0}' || c == '\U{1680}' ||
    ('\U{2000}' <= c <= '\U{200A}') || c == '\U{2028}' || c == '\U{2029}' ||
    c == '\U{202F}' || c == '\U{205F}' || c == '\U{3000}'
  }

  predicate AllSpace(s: string)
  {
    forall k :: 0 <= k < |s| ==> IsSpace(s[k])
  }

  /** The first position at or after `i` that is not whitespace, or the end. */
  function SkipLeading(s: string, i: nat): (k: nat)
    requires i <= |s|
    ensures i <= k <= |s|
    ensures forall m :: i <= m < k ==> IsSpace(s[m])
    ensures k < |s| ==> !IsSpace(s[k])
    decreases |s| - i
  {
    if i < |s| && IsSpace(s[i]) then SkipLeading(s, i + 1) else i
  }

  /** The end of the text before the trailing whitespace of `s[lo..j]`. */
  function SkipTrailing(s: string, lo: nat, j: nat): (k: nat)
    requires lo <= j <= |s|
    ensures lo <= k <= j
    ensures forall m :: k <= m < j ==> IsSpace(s[m])
    ensures k > lo ==> !IsSpace(s[k - 1])
    decreases j
  {
    if j > lo && IsSpace(s[j - 1]) then SkipTrailing(s, lo, j - 1) else j
  }

  /** `str.strip()`: `s` without its leading and trailing whitespace. */
  function Strip(s: string): (r: string)
    ensures |r| <= |s|
    ensures r != [] ==> !IsSpace(r[0]) && !IsSpace(r[|r| - 1])
  {
    var i := SkipLeading(s, 0);
    s[i..SkipTrailing(s, i, |s|)]
  }

  /** The trimmed text is the middle of `s` between two all-whitespace parts. */
  lemma StripRemovesOnlySpace(s: string)
    ensures exists pre, post :: s == pre + Strip(s) + post && AllSpace(pre) && AllSpace(post)
  {
    var i := SkipLeading(s, 0);
    var j := SkipTrailing(s, i, |s|);
    var pre, post := s[..i], s[j..];
    SplitThree(s, i, j);
    assert AllSpace(pre) by {
      forall k | 0 <= k < |pre| ensures IsSpace(pre[k]) { assert pre[k] == s[k]; }
    }
    assert AllSpace(post) by {
      forall k | 0 <= k < |post| ensures IsSpace(post[k]) { assert post[k] == s[j + k]; }
    }
    assert s == pre + Strip(s) + post;
  }

  lemma SplitThree<T>(s: seq<T>, i: nat, j: nat)
    requires i <= j <= |s|
    ensures s == s[..i] + s[i..j] + s[j..]
  {
  }

  /** A text without surrounding whitespace is its own trim. */
  lemma StripUntrimmed(s: string)
    requires s != [] ==> !IsSpace(s[0]) && !IsSpace(s[|s| - 1])
    ensures Strip(s) == s
  {
  }

  /** Trimming twice trims nothing more. */
  lemma StripIdempotent(s: string)
    ensures Strip(Strip(s)) == Strip(s)
  {
    StripUntrimmed(Strip(s));
  }
}
