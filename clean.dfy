/** `cleanResume`: seven global rewrites applied in order. Each regular
    expression substitution is a left-to-right scanner with the semantics of
    Python's `re.sub`: at each position the pattern is tried; on a match the
    whole (greedy) match is replaced by one space and scanning resumes after
    it, otherwise the character is copied and scanning resumes one further. */
module Clean {
  import opened Text

  // Step 1: re.sub(r'http\S+\s*', ' ', txt)

  /** `http\S+` matches at the front of `s`. */
  predicate UrlStart(s: string) {
    |s| >= 5 && s[0] == 'h' && s[1] == 't' && s[2] == 't' && s[3] == 'p' && !IsSpace(s[4])
  }

  /** What is left once a URL match (`http`, the maximal non-space run and
      the maximal space run after it) is consumed. */
  function AfterUrl(s: string): (r: string)
    requires UrlStart(s)
    ensures |r| < |s| - 4 && r == s[|s| - |r|..]
    ensures r == [] || !IsSpace(r[0])
  {
    var w := SkipWord(s[4..]);
    var r := SkipSpaces(w);
    assert w == s[|s| - |w|..];
    r
  }

  function StripUrls(s: string): string
    decreases |s|
  {
    if s == [] then []
    else if UrlStart(s) then " " + StripUrls(AfterUrl(s))
    else [s[0]] + StripUrls(s[1..])
  }

  predicate NoUrlStart(s: string) {
    forall i :: 0 <= i < |s| ==> !UrlStart(s[i..])
  }

  // Step 2: re.sub(r'RT|cc', ' ', txt)

  predicate RtCcStart(s: string) {
    |s| >= 2 && ((s[0] == 'R' && s[1] == 'T') || (s[0] == 'c' && s[1] == 'c'))
  }

  function StripRtCc(s: string): string
    decreases |s|
  {
    if s == [] then []
    else if RtCcStart(s) then " " + StripRtCc(s[2..])
    else [s[0]] + StripRtCc(s[1..])
  }

  predicate NoRtCc(s: string) {
    forall i :: 0 <= i < |s| ==> !RtCcStart(s[i..])
  }

  // Step 3: re.sub(r'#\S+|@\S+', ' ', txt)

  predicate TagStart(s: string) {
    |s| >= 2 && (s[0] == '#' || s[0] == '@') && !IsSpace(s[1])
  }

  function AfterTag(s: string): (r: string)
    requires TagStart(s)
    ensures |r| < |s| - 1 && r == s[|s| - |r|..]
  {
    SkipWord(s[1..])
  }

  function StripTags(s: string): string
    decreases |s|
  {
    if s == [] then []
    else if TagStart(s) then " " + StripTags(AfterTag(s))
    else [s[0]] + StripTags(s[1..])
  }

  // Steps 4 and 5: a one-character class replaced by a space

  function BlankWhere(s: string, p: char -> bool): string {
    if s == [] then [] else [if p(s[0]) then ' ' else s[0]] + BlankWhere(s[1..], p)
  }

  // Step 6: re.sub(r'\s+', ' ', txt)

  function Collapse(s: string): string
    decreases |s|
  {
    if s == [] then []
    else if IsSpace(s[0]) then " " + Collapse(SkipSpaces(s))
    else [s[0]] + Collapse(s[1..])
  }

  // Step 7: txt.strip()

  /** Drops the maximal run of whitespace at the back (`rstrip()`). */
  function TrimEnd(s: string): (r: string)
    ensures |r| <= |s| && r == s[..|r|]
    ensures r == [] || !IsSpace(r[|r| - 1])
    ensures forall k :: |r| <= k < |s| ==> IsSpace(s[k])
  {
    if s != [] && IsSpace(s[|s| - 1]) then TrimEnd(s[..|s| - 1]) else s
  }

  function Strip(s: string): string {
    TrimEnd(SkipSpaces(s))
  }

  /** app.py `cleanResume`. */
  function CleanResume(txt: string): string {
    var urls := StripUrls(txt);
    var rtcc := StripRtCc(urls);
    var tags := StripTags(rtcc);
    var punct := BlankWhere(tags, IsPunct);
    var ascii := BlankWhere(punct, IsNonAscii);
    Strip(Collapse(ascii))
  }

  // The shape of clean text

  /** Every whitespace character is a plain space. */
  predicate OnlyBlanks(s: string) {
    forall k :: 0 <= k < |s| && IsSpace(s[k]) ==> s[k] == ' '
  }

  predicate NoDoubleSpace(s: string) {
    forall k :: 0 <= k < |s| - 1 ==> !IsSpace(s[k]) || !IsSpace(s[k + 1])
  }

  predicate NoEdgeSpace(s: string) {
    s == [] || (!IsSpace(s[0]) && !IsSpace(s[|s| - 1]))
  }

  predicate IsCleanText(s: string) {
    && NoEdgeSpace(s)
    && OnlyBlanks(s)
    && NoDoubleSpace(s)
    && NoneMatch(s, IsPunct)
    && NoneMatch(s, IsNonAscii)
    && NoRtCc(s)
    && NoUrlStart(s)
  }

  // Every step keeps the space-free stretches of its input

  lemma {:induction false} StripUrlsKeepsWords(s: string)
    ensures PrefixFrom(StripUrls(s), s) && WordsFrom(StripUrls(s), s)
    decreases |s|
  {
    if s == [] {
      EmptyKeepsWords(s);
    } else if UrlStart(s) {
      var rest := AfterUrl(s);
      StripUrlsKeepsWords(rest);
      BlankHead(' ', StripUrls(rest), s, |s| - |rest|);
    } else {
      StripUrlsKeepsWords(s[1..]);
      CopyHead(s, StripUrls(s[1..]));
    }
  }

  lemma {:induction false} StripRtCcKeepsWords(s: string)
    ensures PrefixFrom(StripRtCc(s), s) && WordsFrom(StripRtCc(s), s)
    decreases |s|
  {
    if s == [] {
      EmptyKeepsWords(s);
    } else if RtCcStart(s) {
      StripRtCcKeepsWords(s[2..]);
      BlankHead(' ', StripRtCc(s[2..]), s, 2);
    } else {
      StripRtCcKeepsWords(s[1..]);
      CopyHead(s, StripRtCc(s[1..]));
    }
  }

  lemma {:induction false} StripTagsKeepsWords(s: string)
    ensures PrefixFrom(StripTags(s), s) && WordsFrom(StripTags(s), s)
    decreases |s|
  {
    if s == [] {
      EmptyKeepsWords(s);
    } else if TagStart(s) {
      var rest := AfterTag(s);
      StripTagsKeepsWords(rest);
      BlankHead(' ', StripTags(rest), s, |s| - |rest|);
    } else {
      StripTagsKeepsWords(s[1..]);
      CopyHead(s, StripTags(s[1..]));
    }
  }

  lemma {:induction false} CollapseKeepsWords(s: string)
    ensures PrefixFrom(Collapse(s), s) && WordsFrom(Collapse(s), s)
    decreases |s|
  {
    if s == [] {
      EmptyKeepsWords(s);
    } else if IsSpace(s[0]) {
      var rest := SkipSpaces(s);
      CollapseKeepsWords(rest);
      BlankHead(' ', Collapse(rest), s, |s| - |rest|);
    } else {
      CollapseKeepsWords(s[1..]);
      CopyHead(s, Collapse(s[1..]));
    }
  }

  /** Steps 4 and 5 replace exactly the characters of the class, one for one. */
  lemma {:induction false} BlankWhereAt(s: string, p: char -> bool)
    ensures |BlankWhere(s, p)| == |s|
    ensures forall k :: 0 <= k < |s| ==> BlankWhere(s, p)[k] == if p(s[k]) then ' ' else s[k]
  {
    if s != [] {
      BlankWhereAt(s[1..], p);
    }
  }

  lemma BlankWhereKeepsWords(s: string, p: char -> bool)
    ensures WordsFrom(BlankWhere(s, p), s)
  {
    var out := BlankWhere(s, p);
    BlankWhereAt(s, p);
    forall i, j | 0 <= i <= j <= |out| && NoSpace(out[i..j])
      ensures OccursIn(out[i..j], s)
    {
      forall m | 0 <= m < j - i ensures out[i..j][m] == s[i..][m] {
        assert out[i..j][m] == out[i + m];
        assert !IsSpace(out[i + m]);
      }
      assert out[i..j] <= s[i..];
    }
  }

  lemma BlankWhereClears(s: string, p: char -> bool)
    requires !p(' ')
    ensures NoneMatch(BlankWhere(s, p), p)
  {
    BlankWhereAt(s, p);
  }

  /** `strip()` removes exactly the leading and the trailing whitespace. */
  ghost predicate IsTrimOf(r: string, s: string, a: int) {
    && 0 <= a && a + |r| <= |s| && r == s[a..a + |r|]
    && (forall k :: 0 <= k < a ==> IsSpace(s[k]))
    && (forall k :: a + |r| <= k < |s| ==> IsSpace(s[k]))
    && NoEdgeSpace(r)
  }

  /** Trimming a suffix `l` of `s` from the back, where `s` has only
      whitespace before `l`, gives a trim of `s`. */
  lemma TrimOfSuffix(s: string, l: string, r: string)
    requires |l| <= |s| && l == s[|s| - |l|..] && (l == [] || !IsSpace(l[0]))
    requires forall k :: 0 <= k < |s| - |l| ==> IsSpace(s[k])
    requires |r| <= |l| && r == l[..|r|] && (r == [] || !IsSpace(r[|r| - 1]))
    requires forall k :: |r| <= k < |l| ==> IsSpace(l[k])
    ensures IsTrimOf(r, s, |s| - |l|)
  {
    var a := |s| - |l|;
    assert s[a..][..|r|] == s[a..a + |r|];
    forall k | a + |r| <= k < |s| ensures IsSpace(s[k]) {
      assert s[k] == l[k - a];
    }
    if r != [] {
      assert r[0] == l[0];
    }
  }

  lemma StripTrims(s: string)
    ensures IsTrimOf(Strip(s), s, |s| - |SkipSpaces(s)|)
  {
    TrimOfSuffix(s, SkipSpaces(s), TrimEnd(SkipSpaces(s)));
  }

  lemma TrimKeepsWords(r: string, s: string, a: int)
    requires IsTrimOf(r, s, a)
    ensures WordsFrom(r, s)
  {
    SliceKeepsWords(s, a, a + |r|);
  }

  lemma StripKeepsWords(s: string)
    ensures WordsFrom(Strip(s), s)
  {
    StripTrims(s);
    TrimKeepsWords(Strip(s), s, |s| - |SkipSpaces(s)|);
  }

  // What each step establishes

  lemma ConsNoUrlStart(c: char, t: string)
    requires NoUrlStart(t) && !UrlStart([c] + t)
    ensures NoUrlStart([c] + t)
  {
    forall i | 1 <= i < |[c] + t| ensures !UrlStart(([c] + t)[i..]) {
      assert ([c] + t)[i..] == t[i - 1..];
    }
  }

  lemma UrlStartPrefix(u: string, v: string)
    requires PrefixFrom(u, v)
    ensures UrlStart(u) ==> UrlStart(v)
  {
    if UrlStart(u) {
      assert NoSpace(u[..5]);
      assert v[..5] == u[..5];
      assert v[4] == v[..5][4];
    }
  }

  lemma {:induction false} StripUrlsRemovesUrls(s: string)
    ensures NoUrlStart(StripUrls(s))
    decreases |s|
  {
    if s == [] {
    } else if UrlStart(s) {
      StripUrlsRemovesUrls(AfterUrl(s));
      ConsNoUrlStart(' ', StripUrls(AfterUrl(s)));
    } else {
      StripUrlsRemovesUrls(s[1..]);
      StripUrlsKeepsWords(s);
      UrlStartPrefix(StripUrls(s), s);
      ConsNoUrlStart(s[0], StripUrls(s[1..]));
    }
  }

  lemma ConsNoRtCc(c: char, t: string)
    requires NoRtCc(t) && !RtCcStart([c] + t)
    ensures NoRtCc([c] + t)
  {
    forall i | 1 <= i < |[c] + t| ensures !RtCcStart(([c] + t)[i..]) {
      assert ([c] + t)[i..] == t[i - 1..];
    }
  }

  lemma RtCcStartPrefix(u: string, v: string)
    requires PrefixFrom(u, v)
    ensures RtCcStart(u) ==> RtCcStart(v)
  {
    if RtCcStart(u) {
      assert NoSpace(u[..2]);
      assert v[..2] == u[..2];
      assert v[0] == v[..2][0] && v[1] == v[..2][1];
    }
  }

  lemma {:induction false} StripRtCcRemovesRtCc(s: string)
    ensures NoRtCc(StripRtCc(s))
    decreases |s|
  {
    if s == [] {
    } else if RtCcStart(s) {
      StripRtCcRemovesRtCc(s[2..]);
      ConsNoRtCc(' ', StripRtCc(s[2..]));
    } else {
      StripRtCcRemovesRtCc(s[1..]);
      StripRtCcKeepsWords(s);
      RtCcStartPrefix(StripRtCc(s), s);
      ConsNoRtCc(s[0], StripRtCc(s[1..]));
    }
  }

  lemma ConsShapes(c: char, t: string)
    requires OnlyBlanks(t) && NoDoubleSpace(t)
    requires IsSpace(c) ==> c == ' ' && (t == [] || !IsSpace(t[0]))
    ensures OnlyBlanks([c] + t) && NoDoubleSpace([c] + t)
  {
    var out := [c] + t;
    forall k | 1 <= k < |out| ensures out[k] == t[k - 1] {}
  }

  lemma {:induction false} CollapseShapes(s: string)
    ensures OnlyBlanks(Collapse(s)) && NoDoubleSpace(Collapse(s))
    decreases |s|
  {
    if s == [] {
    } else if IsSpace(s[0]) {
      var rest := SkipSpaces(s);
      CollapseShapes(rest);
      if rest != [] {
        assert Collapse(rest)[0] == rest[0];
      }
      ConsShapes(' ', Collapse(rest));
    } else {
      CollapseShapes(s[1..]);
      ConsShapes(s[0], Collapse(s[1..]));
    }
  }

  lemma SliceShapes(s: string, a: int, b: int)
    requires 0 <= a <= b <= |s| && OnlyBlanks(s) && NoDoubleSpace(s)
    ensures OnlyBlanks(s[a..b]) && NoDoubleSpace(s[a..b])
  {
    forall k | 0 <= k < b - a ensures s[a..b][k] == s[a + k] {}
  }

  predicate NoTagStart(s: string) {
    forall i :: 0 <= i < |s| ==> !TagStart(s[i..])
  }

  lemma ConsNoTagStart(c: char, t: string)
    requires NoTagStart(t) && !TagStart([c] + t)
    ensures NoTagStart([c] + t)
  {
    forall i | 1 <= i < |[c] + t| ensures !TagStart(([c] + t)[i..]) {
      assert ([c] + t)[i..] == t[i - 1..];
    }
  }

  lemma TagStartPrefix(u: string, v: string)
    requires PrefixFrom(u, v)
    ensures TagStart(u) ==> TagStart(v)
  {
    if TagStart(u) {
      assert NoSpace(u[..2]);
      assert v[..2] == u[..2];
      assert v[0] == v[..2][0] && v[1] == v[..2][1];
    }
  }

  lemma {:induction false} StripTagsRemovesTags(s: string)
    ensures NoTagStart(StripTags(s))
    decreases |s|
  {
    if s == [] {
    } else if TagStart(s) {
      StripTagsRemovesTags(AfterTag(s));
      ConsNoTagStart(' ', StripTags(AfterTag(s)));
    } else {
      StripTagsRemovesTags(s[1..]);
      StripTagsKeepsWords(s);
      TagStartPrefix(StripTags(s), s);
      ConsNoTagStart(s[0], StripTags(s[1..]));
    }
  }

  // What later steps cannot undo

  lemma NoUrlStartKept(out: string, src: string)
    requires WordsFrom(out, src)
    ensures NoUrlStart(src) ==> NoUrlStart(out)
  {
    forall i | 0 <= i < |out| && UrlStart(out[i..]) ensures !NoUrlStart(src) {
      var u := out[i..];
      var w := out[i..i + 5];
      assert forall m :: 0 <= m < 5 ==> w[m] == u[m];
      assert NoSpace(w);
      var k :| 0 <= k <= |src| && w <= src[k..];
      var v := src[k..];
      assert forall m :: 0 <= m < 5 ==> v[m] == w[m];
      assert UrlStart(v);
    }
  }

  lemma NoRtCcKept(out: string, src: string)
    requires WordsFrom(out, src)
    ensures NoRtCc(src) ==> NoRtCc(out)
  {
    forall i | 0 <= i < |out| && RtCcStart(out[i..]) ensures !NoRtCc(src) {
      var w := out[i..i + 2];
      assert NoSpace(w);
      var k :| 0 <= k <= |src| && w <= src[k..];
      assert src[k..][..2] == w;
      assert RtCcStart(src[k..]);
    }
  }

  // Each step is the identity on text it has nothing to do with

  lemma {:induction false} StripUrlsFixes(s: string)
    requires NoUrlStart(s)
    ensures StripUrls(s) == s
  {
    if s != [] {
      assert s[0..] == s;
      forall i | 0 <= i < |s[1..]| ensures !UrlStart(s[1..][i..]) {
        assert s[1..][i..] == s[i + 1..];
      }
      StripUrlsFixes(s[1..]);
    }
  }

  lemma {:induction false} StripRtCcFixes(s: string)
    requires NoRtCc(s)
    ensures StripRtCc(s) == s
  {
    if s != [] {
      assert s[0..] == s;
      forall i | 0 <= i < |s[1..]| ensures !RtCcStart(s[1..][i..]) {
        assert s[1..][i..] == s[i + 1..];
      }
      StripRtCcFixes(s[1..]);
    }
  }

  lemma {:induction false} StripTagsFixes(s: string)
    requires NoTagStart(s)
    ensures StripTags(s) == s
  {
    if s != [] {
      assert s[0..] == s;
      forall i | 0 <= i < |s[1..]| ensures !TagStart(s[1..][i..]) {
        assert s[1..][i..] == s[i + 1..];
      }
      StripTagsFixes(s[1..]);
    }
  }

  /** A text without `#` and `@` has no tag start. */
  lemma NoSigilsNoTagStart(s: string)
    requires '#' !in s && '@' !in s
    ensures NoTagStart(s)
  {
    forall i | 0 <= i < |s| ensures !TagStart(s[i..]) {
      assert s[i..][0] == s[i];
    }
  }

  lemma BlankWhereFixes(s: string, p: char -> bool)
    requires NoneMatch(s, p)
    ensures BlankWhere(s, p) == s
  {
    BlankWhereAt(s, p);
  }

  lemma {:induction false} CollapseFixes(s: string)
    requires OnlyBlanks(s) && NoDoubleSpace(s)
    ensures Collapse(s) == s
  {
    if s != [] {
      SliceShapes(s, 1, |s|);
      CollapseFixes(s[1..]);
      if IsSpace(s[0]) {
        assert SkipSpaces(s) == SkipSpaces(s[1..]);
        if |s| > 1 {
          assert !IsSpace(s[1..][0]);
        }
        assert SkipSpaces(s[1..]) == s[1..];
        assert s == [' '] + s[1..];
      }
    }
  }

  lemma StripFixes(s: string)
    requires NoEdgeSpace(s)
    ensures Strip(s) == s
  {
  }

  // The properties of the whole normaliser

  lemma TrimShapes(r: string, c: string, a: int)
    requires IsTrimOf(r, c, a) && OnlyBlanks(c) && NoDoubleSpace(c)
    ensures NoEdgeSpace(r) && OnlyBlanks(r) && NoDoubleSpace(r) && WordsFrom(r, c)
  {
    SliceShapes(c, a, a + |r|);
    TrimKeepsWords(r, c, a);
  }

  /** Steps 6 and 7 together leave single blanks between space-free
      stretches of their input. */
  lemma SpacesSettled(s: string)
    ensures var out := Strip(Collapse(s));
      NoEdgeSpace(out) && OnlyBlanks(out) && NoDoubleSpace(out) && WordsFrom(out, s)
  {
    var col := Collapse(s);
    CollapseKeepsWords(s);
    CollapseShapes(s);
    StripTrims(col);
    TrimShapes(Strip(col), col, |col| - |SkipSpaces(col)|);
    WordsFromTrans(Strip(col), col, s);
  }

  /** Every output of `cleanResume` is clean text. */
  lemma CleanResumeIsClean(txt: string)
    ensures IsCleanText(CleanResume(txt))
  {
    var urls := StripUrls(txt);
    var rtcc := StripRtCc(urls);
    var tags := StripTags(rtcc);
    var punct := BlankWhere(tags, IsPunct);
    var ascii := BlankWhere(punct, IsNonAscii);
    var out := Strip(Collapse(ascii));
    assert out == CleanResume(txt);
    SpacesSettled(ascii);
    StripUrlsRemovesUrls(txt);
    StripRtCcKeepsWords(urls);
    StripRtCcRemovesRtCc(urls);
    StripTagsKeepsWords(rtcc);
    BlankWhereKeepsWords(tags, IsPunct);
    BlankWhereClears(tags, IsPunct);
    BlankWhereKeepsWords(punct, IsNonAscii);
    BlankWhereClears(punct, IsNonAscii);
    WordsFromNoneMatch(out, ascii, IsNonAscii);
    WordsFromTrans(out, ascii, punct);
    WordsFromNoneMatch(out, punct, IsPunct);
    WordsFromTrans(out, punct, tags);
    WordsFromTrans(out, tags, rtcc);
    NoRtCcKept(out, rtcc);
    WordsFromTrans(out, rtcc, urls);
    NoUrlStartKept(out, urls);
  }

  /** Clean text passes through `cleanResume` unchanged. */
  lemma CleanTextIsFixed(s: string)
    requires IsCleanText(s)
    ensures CleanResume(s) == s
  {
    StripUrlsFixes(s);
    StripRtCcFixes(s);
    PunctuationClass('#');
    PunctuationClass('@');
    assert '#' !in s && '@' !in s;
    NoSigilsNoTagStart(s);
    StripTagsFixes(s);
    BlankWhereFixes(s, IsPunct);
    BlankWhereFixes(s, IsNonAscii);
    CollapseFixes(s);
    StripFixes(s);
  }

  /** Normalising twice is normalising once. */
  lemma CleanResumeIdempotent(txt: string)
    ensures CleanResume(CleanResume(txt)) == CleanResume(txt)
  {
    CleanResumeIsClean(txt);
    CleanTextIsFixed(CleanResume(txt));
  }

  /** The texts `cleanResume` leaves unchanged are exactly the clean texts. */
  lemma CleanResumeFixedPoints(s: string)
    ensures CleanResume(s) == s <==> IsCleanText(s)
  {
    CleanResumeIsClean(s);
    if IsCleanText(s) {
      CleanTextIsFixed(s);
    }
  }

  /** Steps 6 and 7: no whitespace at either end, no two whitespace
      characters in a row, and every whitespace character a plain space. */
  lemma CleanResumeWhitespace(txt: string)
    ensures var r := CleanResume(txt);
      && (r == [] || (!IsSpace(r[0]) && !IsSpace(r[|r| - 1])))
      && (forall k :: 0 <= k < |r| - 1 ==> !IsSpace(r[k]) || !IsSpace(r[k + 1]))
      && (forall k :: 0 <= k < |r| && IsSpace(r[k]) ==> r[k] == ' ')
  {
    CleanResumeIsClean(txt);
  }

  /** Step 4, kept by every later step: no punctuation character survives,
      in particular no `#` and no `@`. */
  lemma CleanResumeNoPunctuation(txt: string)
    ensures forall k :: 0 <= k < |CleanResume(txt)| ==> CleanResume(txt)[k] !in Punctuation
  {
    CleanResumeIsClean(txt);
    forall k | 0 <= k < |CleanResume(txt)| ensures CleanResume(txt)[k] !in Punctuation {
      PunctuationClass(CleanResume(txt)[k]);
    }
  }

  /** Step 5, kept by steps 6 and 7: every code point is below 128. */
  lemma CleanResumeAscii(txt: string)
    ensures forall k :: 0 <= k < |CleanResume(txt)| ==> CleanResume(txt)[k] as int < 128
  {
    CleanResumeIsClean(txt);
  }

  lemma NoRtCcSubstring(r: string)
    requires NoRtCc(r)
    ensures forall i :: 0 <= i < |r| ==> !("RT" <= r[i..]) && !("cc" <= r[i..])
  {
    forall i | 0 <= i < |r| ensures !("RT" <= r[i..]) && !("cc" <= r[i..]) {
      assert !RtCcStart(r[i..]);
      if |r[i..]| >= 2 {
        assert ("RT" <= r[i..]) == (r[i..][0] == 'R' && r[i..][1] == 'T');
        assert ("cc" <= r[i..]) == (r[i..][0] == 'c' && r[i..][1] == 'c');
      }
    }
  }

  /** Step 2, kept by every later step: neither `RT` nor `cc` occurs, not
      even inside a word. */
  lemma CleanResumeNoRtCc(txt: string)
    ensures var r := CleanResume(txt);
      forall i :: 0 <= i < |r| ==> !("RT" <= r[i..]) && !("cc" <= r[i..])
  {
    CleanResumeIsClean(txt);
    NoRtCcSubstring(CleanResume(txt));
  }

  lemma HttpThenBlank(r: string)
    requires NoUrlStart(r) && OnlyBlanks(r)
    ensures forall i :: 0 <= i < |r| && "http" <= r[i..] ==> i + 4 == |r| || r[i + 4] == ' '
  {
    forall i | 0 <= i < |r| && "http" <= r[i..] ensures i + 4 == |r| || r[i + 4] == ' ' {
      var u := r[i..];
      assert u[0] == 'h' && u[1] == 't' && u[2] == 't' && u[3] == 'p';
      assert !UrlStart(u);
      if |u| > 4 {
        assert u[4] == r[i + 4];
      }
    }
  }

  /** Step 1, kept by every later step: every `http` left in the output is
      at its very end or followed by a space. */
  lemma CleanResumeNoUrls(txt: string)
    ensures var r := CleanResume(txt);
      forall i :: 0 <= i < |r| && "http" <= r[i..] ==> i + 4 == |r| || r[i + 4] == ' '
  {
    CleanResumeIsClean(txt);
    HttpThenBlank(CleanResume(txt));
  }
}
