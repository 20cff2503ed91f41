/** How each step of `cleanResume` acts on a piece of text it cannot match in,
    or on one whole match, and the worked examples computed with them. */
module CleanExamples {
  import opened Text
  import opened Clean

  predicate AllSpace(w: string) {
    forall k :: 0 <= k < |w| ==> IsSpace(w[k])
  }

  lemma {:induction false} SkipWordAppend(w: string, r: string)
    requires NoSpace(w) && (r == [] || IsSpace(r[0]))
    ensures SkipWord(w + r) == r
  {
    if w == [] {
      assert w + r == r;
    } else {
      assert (w + r)[1..] == w[1..] + r;
      NoSpaceSlice(w, 1, |w|);
      SkipWordAppend(w[1..], r);
    }
  }

  lemma {:induction false} SkipSpacesAppend(w: string, r: string)
    requires AllSpace(w) && (r == [] || !IsSpace(r[0]))
    ensures SkipSpaces(w + r) == r
  {
    if w == [] {
      assert w + r == r;
    } else {
      assert (w + r)[1..] == w[1..] + r;
      SkipSpacesAppend(w[1..], r);
    }
  }

  // Step 1

  lemma {:induction false} StripUrlsPass(w: string, r: string)
    requires 'h' !in w
    ensures StripUrls(w + r) == w + StripUrls(r)
  {
    if w == [] {
      assert w + r == r;
    } else {
      NotInTail(w, 'h');
      StripUrlsPass(w[1..], r);
      StripUrlsCons(w[0], w[1..] + r, w[1..] + StripUrls(r));
      ConsRest(w, r);
      ConsRest(w, StripUrls(r));
    }
  }

  /** One non-`h` character in front of a text. */
  lemma StripUrlsCons(c: char, t: string, b: string)
    requires c != 'h' && StripUrls(t) == b
    ensures StripUrls([c] + t) == [c] + b
  {
    var s := [c] + t;
    assert s[0] == c && s[1..] == t;
    StripUrlsCopy(s);
  }

  lemma ConsRest(w: string, x: string)
    requires w != []
    ensures [w[0]] + (w[1..] + x) == w + x
  {
  }

  lemma NotInTail(w: string, c: char)
    requires w != [] && c !in w
    ensures w[0] != c && c !in w[1..]
  {
    assert forall k :: 0 <= k < |w| - 1 ==> w[1..][k] == w[k + 1];
  }

  lemma StripUrlsCopy(s: string)
    requires s != [] && !UrlStart(s)
    ensures StripUrls(s) == [s[0]] + StripUrls(s[1..])
  {
  }

  lemma AfterUrlMatch(x: string, sp: string, r: string)
    requires |x| >= 1 && NoSpace(x) && AllSpace(sp)
    requires sp != [] || r == []
    requires r == [] || !IsSpace(r[0])
    ensures UrlStart("http" + (x + (sp + r))) && AfterUrl("http" + (x + (sp + r))) == r
  {
    var h: string := "http";
    var rest := x + (sp + r);
    var s := h + rest;
    assert s[0] == h[0] && s[1] == h[1] && s[2] == h[2] && s[3] == h[3] && s[4] == x[0];
    assert s[4..] == rest;
    if sp != [] {
      assert (sp + r)[0] == sp[0];
    }
    SkipWordAppend(x, sp + r);
    SkipSpacesAppend(sp, r);
  }

  lemma StripUrlsMatch(x: string, sp: string, r: string)
    requires |x| >= 1 && NoSpace(x) && AllSpace(sp)
    requires sp != [] || r == []
    requires r == [] || !IsSpace(r[0])
    ensures StripUrls("http" + x + sp + r) == " " + StripUrls(r)
  {
    assert "http" + x + sp + r == "http" + (x + (sp + r));
    AfterUrlMatch(x, sp, r);
  }

  // Step 2

  lemma {:induction false} StripRtCcPass(w: string, r: string)
    requires 'R' !in w && 'c' !in w
    ensures StripRtCc(w + r) == w + StripRtCc(r)
  {
    if w == [] {
      assert w + r == r;
    } else {
      NotInTail(w, 'R');
      NotInTail(w, 'c');
      StripRtCcPass(w[1..], r);
      StripRtCcCons(w[0], w[1..] + r, w[1..] + StripRtCc(r));
      ConsRest(w, r);
      ConsRest(w, StripRtCc(r));
    }
  }

  lemma StripRtCcCons(c: char, t: string, b: string)
    requires c != 'R' && c != 'c' && StripRtCc(t) == b
    ensures StripRtCc([c] + t) == [c] + b
  {
    var s := [c] + t;
    assert s[0] == c && s[1..] == t;
  }

  lemma StripRtCcMatch(m: string, r: string)
    requires m == "RT" || m == "cc"
    ensures StripRtCc(m + r) == " " + StripRtCc(r)
  {
    assert (m + r)[2..] == r;
  }

  // Step 3

  lemma {:induction false} StripTagsPass(w: string, r: string)
    requires '#' !in w && '@' !in w
    ensures StripTags(w + r) == w + StripTags(r)
  {
    if w == [] {
      assert w + r == r;
    } else {
      NotInTail(w, '#');
      NotInTail(w, '@');
      StripTagsPass(w[1..], r);
      StripTagsCons(w[0], w[1..] + r, w[1..] + StripTags(r));
      ConsRest(w, r);
      ConsRest(w, StripTags(r));
    }
  }

  lemma StripTagsCons(c: char, t: string, b: string)
    requires c != '#' && c != '@' && StripTags(t) == b
    ensures StripTags([c] + t) == [c] + b
  {
    var s := [c] + t;
    assert s[0] == c && s[1..] == t;
  }

  lemma StripTagsMatch(c: char, x: string, r: string)
    requires (c == '#' || c == '@') && |x| >= 1 && NoSpace(x)
    requires r == [] || IsSpace(r[0])
    ensures StripTags([c] + x + r) == " " + StripTags(r)
  {
    TagParts(c, x, r);
    SkipWordAppend(x, r);
    StripTagsAt([c] + (x + r), r);
  }

  lemma TagParts(c: char, x: string, r: string)
    requires |x| >= 1
    ensures var s := [c] + (x + r); [c] + x + r == s && s[0] == c && s[1] == x[0] && s[1..] == x + r
  {
  }

  lemma StripTagsAt(s: string, r: string)
    requires TagStart(s) && SkipWord(s[1..]) == r
    ensures StripTags(s) == " " + StripTags(r)
  {
  }

  // Steps 4 and 5

  lemma {:induction false} BlankWhereAppend(a: string, b: string, p: char -> bool)
    ensures BlankWhere(a + b, p) == BlankWhere(a, p) + BlankWhere(b, p)
  {
    if a == [] {
      assert a + b == b;
    } else {
      assert (a + b)[0] == a[0] && (a + b)[1..] == a[1..] + b;
      BlankWhereAppend(a[1..], b, p);
    }
  }

  // Step 6

  lemma {:induction false} CollapsePass(w: string, r: string)
    requires NoSpace(w)
    ensures Collapse(w + r) == w + Collapse(r)
  {
    if w == [] {
      assert w + r == r;
    } else {
      assert (w + r)[0] == w[0] && (w + r)[1..] == w[1..] + r;
      NoSpaceSlice(w, 1, |w|);
      CollapsePass(w[1..], r);
    }
  }

  lemma CollapseRun(sp: string, r: string)
    requires sp != [] && AllSpace(sp) && (r == [] || !IsSpace(r[0]))
    ensures Collapse(sp + r) == " " + Collapse(r)
  {
    assert (sp + r)[0] == sp[0];
    SkipSpacesAppend(sp, r);
  }

  // Worked examples

  /** The six rewrites of `cleanResume`, each given by its result. */
  lemma CleanResumeSteps(txt: string, u: string, r: string, t: string, p: string, a: string, c: string)
    requires StripUrls(txt) == u && StripRtCc(u) == r && StripTags(r) == t
    requires BlankWhere(t, IsPunct) == p && BlankWhere(p, IsNonAscii) == a && Strip(Collapse(a)) == c
    ensures CleanResume(txt) == c
  {}

  /** A text without `h` has no URL. */
  lemma StripUrlsNoH(s: string)
    requires 'h' !in s
    ensures StripUrls(s) == s
  {
    StripUrlsPass(s, []);
    assert s + [] == s;
  }

  /** A text whose only `RT` or `cc` is `m`. */
  lemma StripRtCcOnce(w: string, m: string, t: string)
    requires 'R' !in w && 'c' !in w && NoRtCc(t) && (m == "RT" || m == "cc")
    ensures StripRtCc(w + (m + t)) == w + (" " + t)
  {
    StripRtCcPass(w, m + t);
    StripRtCcMatch(m, t);
    StripRtCcFixes(t);
  }

  lemma NoRtCcLetters(t: string)
    requires 'R' !in t && 'c' !in t
    ensures NoRtCc(t)
  {
    forall i | 0 <= i < |t| ensures !RtCcStart(t[i..]) {
      assert t[i..][0] == t[i];
    }
  }

  /** Once only blanks and letters are left, steps 3 to 6 change nothing
      and step 7 only strips. */
  lemma Settled(r: string, c: string)
    requires '#' !in r && '@' !in r && NoneMatch(r, IsPunct) && NoneMatch(r, IsNonAscii)
    requires OnlyBlanks(r) && NoDoubleSpace(r) && Strip(r) == c
    ensures StripTags(r) == r && BlankWhere(r, IsPunct) == r && BlankWhere(r, IsNonAscii) == r
    ensures Strip(Collapse(r)) == c
  {
    NoSigilsNoTagStart(r);
    StripTagsFixes(r);
    BlankWhereFixes(r, IsPunct);
    BlankWhereFixes(r, IsNonAscii);
    CollapseFixes(r);
  }

  lemma AccountingFacts()
    ensures 'h' !in "accounting" && "accounting" == "a" + ("cc" + "ounting")
    ensures 'R' !in "a" && 'c' !in "a" && 'R' !in "ounting" && 'c' !in "ounting"
    ensures "a" + (" " + "ounting") == "a ounting"
  {
  }

  lemma AccountingSettled()
    ensures '#' !in "a ounting" && '@' !in "a ounting"
    ensures NoneMatch("a ounting", IsPunct) && NoneMatch("a ounting", IsNonAscii)
  {
  }
  lemma AccountingBlanks()
    ensures OnlyBlanks("a ounting") && NoDoubleSpace("a ounting") && NoEdgeSpace("a ounting")
  {
  }

  /** `RT` and `cc` are removed inside words too. */
  lemma AccountingExample()
    ensures CleanResume("accounting") == "a ounting"
  {
    AccountingFacts();
    AccountingSettled();
    AccountingBlanks();
    StripUrlsNoH("accounting");
    NoRtCcLetters("ounting");
    StripRtCcOnce("a", "cc", "ounting");
    StripFixes("a ounting");
    Settled("a ounting", "a ounting");
    CleanResumeSteps("accounting", "accounting", "a ounting", "a ounting", "a ounting", "a ounting", "a ounting");
  }

  lemma CccFacts()
    ensures 'h' !in "ccc" && "ccc" == [] + ("cc" + "c") && [] + (" " + "c") == " c"
    ensures '#' !in " c" && '@' !in " c" && NoneMatch(" c", IsPunct) && NoneMatch(" c", IsNonAscii)
    ensures OnlyBlanks(" c") && NoDoubleSpace(" c") && NoRtCc("c")
  {
  }

  lemma CccStrip()
    ensures Strip(" c") == "c"
  {
  }

  /** Matches do not overlap: the first two letters of `ccc` are one match. */
  lemma CccExample()
    ensures CleanResume("ccc") == "c"
  {
    CccFacts();
    StripUrlsNoH("ccc");
    StripRtCcOnce([], "cc", "c");
    CccStrip();
    Settled(" c", "c");
    CleanResumeSteps("ccc", "ccc", " c", " c", " c", " c", "c");
  }

  // The worked example: one URL, a retweet marker, a mention, a hashtag and a
  // percent sign. Each step is proved on the pieces the step cuts the text
  // into, and each cut on the literal text alone.

  // Step 1
  lemma VisitUrlFacts(a: string, b: string, c: string)
    requires a == "Visit " && b == "://example.com" && c == "now RT @jo"
    ensures 'h' !in a && |b| >= 1 && NoSpace(b) && 'h' !in c && !IsSpace(c[0])
  {}
  lemma VisitUrlTail(d: string)
    requires d == "hn #jobs! 50% off"
    ensures d != [] && !UrlStart(d) && 'h' !in d[1..] && [d[0]] + d[1..] == d
  {}
  lemma VisitUrlPieces(a: string, b: string, c: string, d: string)
    requires a == "Visit " && b == "://example.com" && c == "now RT @jo" && d == "hn #jobs! 50% off"
    ensures StripUrls(a + "http" + b + " " + (c + d)) == a + " " + (c + d)
  {
    VisitUrlFacts(a, b, c);
    VisitUrlTail(d);
    assert a + "http" + b + " " + (c + d) == a + ("http" + b + " " + (c + d));
    assert a + " " + (c + d) == a + (" " + (c + d));
    StripUrlsPass(a, "http" + b + " " + (c + d));
    StripUrlsMatch(b, " ", c + d);
    StripUrlsPass(c, d);
    StripUrlsCopy(d);
    StripUrlsPass(d[1..], []);
    assert d[1..] + [] == d[1..];
  }
  lemma VisitSplit0() ensures "Visit http://example.com now RT @john #jobs! 50% off" == "Visit http://example.com " + "now RT @john #jobs! 50% off" {}
  lemma VisitSplit1() ensures "Visit http://example.com " == "Visit " + "http" + "://example.com" + " " {}
  lemma VisitSplit2() ensures "now RT @john #jobs! 50% off" == "now RT @jo" + "hn #jobs! 50% off" {}
  lemma VisitSplit3() ensures "Visit  now RT @john #jobs! 50% off" == "Visit  " + "now RT @john #jobs! 50% off" {}
  lemma VisitSplit3a() ensures "Visit  " == "Visit " + " " {}
  lemma VisitUrl()
    ensures StripUrls("Visit http://example.com now RT @john #jobs! 50% off") == "Visit  now RT @john #jobs! 50% off"
  {
    VisitSplit0(); VisitSplit1(); VisitSplit2(); VisitSplit3(); VisitSplit3a();
    VisitUrlPieces("Visit ", "://example.com", "now RT @jo", "hn #jobs! 50% off");
  }

  // Step 2
  lemma VisitRtCcFacts()
    ensures 'R' !in "Visit  now " && 'c' !in "Visit  now "
  {
  }
  lemma VisitRtCcTail()
    ensures 'R' !in " @john #jobs! 50% off" && 'c' !in " @john #jobs! 50% off"
  {
  }

  lemma VisitSplit4() ensures "Visit  now RT @john #jobs! 50% off" == "Visit  now " + ("RT" + " @john #jobs! 50% off") {}
  lemma VisitSplit5() ensures "Visit  now   @john #jobs! 50% off" == "Visit  now " + (" " + " @john #jobs! 50% off") {}
  lemma VisitRtCc()
    ensures StripRtCc("Visit  now RT @john #jobs! 50% off") == "Visit  now   @john #jobs! 50% off"
  {
    VisitSplit4(); VisitSplit5();
    VisitRtCcFacts();
    VisitRtCcTail();
    NoRtCcLetters(" @john #jobs! 50% off");
    StripRtCcOnce("Visit  now ", "RT", " @john #jobs! 50% off");
  }

  // Step 3
  lemma VisitTagsFacts(w: string, x: string, y: string, t: string)
    requires w == "Visit  now   " && x == "john" && y == "jobs!" && t == " 50% off"
    ensures '#' !in w && '@' !in w && '#' !in t && '@' !in t && IsSpace(t[0])
    ensures |x| >= 1 && NoSpace(x) && |y| >= 1 && NoSpace(y)
  {}
  lemma VisitTagsPieces(w: string, x: string, y: string, t: string)
    requires w == "Visit  now   " && x == "john" && y == "jobs!" && t == " 50% off"
    ensures StripTags(w + (['@'] + x + (" " + (['#'] + y + t)))) == w + (" " + (" " + (" " + t)))
  {
    VisitTagsFacts(w, x, y, t);
    var m := " " + (['#'] + y + t);
    StripTagsPass(w, ['@'] + x + m);
    StripTagsMatch('@', x, m);
    StripTagsPass(" ", ['#'] + y + t);
    StripTagsMatch('#', y, t);
    StripTagsPass(t, []);
    assert t + [] == t;
  }
  lemma VisitSplit6() ensures "Visit  now   @john #jobs! 50% off" == "Visit  now   " + (['@'] + "john" + (" " + (['#'] + "jobs!" + " 50% off"))) {}
  lemma VisitSplit7() ensures "Visit  now       50% off" == "Visit  now   " + (" " + (" " + (" " + " 50% off"))) {}
  lemma VisitTags()
    ensures StripTags("Visit  now   @john #jobs! 50% off") == "Visit  now       50% off"
  {
    VisitSplit6(); VisitSplit7();
    VisitTagsPieces("Visit  now   ", "john", "jobs!", " 50% off");
  }

  // Steps 4 and 5
  lemma VisitPunctFacts()
    ensures NoneMatch("Visit  now       ", IsPunct) && NoneMatch("50", IsPunct) && NoneMatch(" off", IsPunct)
    ensures IsPunct('%') && "50% off" == "50" + ("%" + " off") && "50  off" == "50" + (" " + " off")
  {}
  lemma BlankOne(c: char, p: char -> bool)
    requires p(c)
    ensures BlankWhere([c], p) == " "
  {
    assert [c][1..] == [];
  }
  lemma VisitPunctPieces(w: string, t: string)
    requires w == "Visit  now       " && t == "50% off"
    ensures BlankWhere(w + t, IsPunct) == w + "50  off"
  {
    VisitPunctFacts();
    BlankWhereAppend(w, t, IsPunct);
    BlankWhereFixes(w, IsPunct);
    BlankWhereAppend("50", "%" + " off", IsPunct);
    BlankWhereAppend("%", " off", IsPunct);
    BlankWhereFixes("50", IsPunct);
    BlankWhereFixes(" off", IsPunct);
    BlankOne('%', IsPunct);
  }
  lemma VisitSplit8() ensures "Visit  now       50% off" == "Visit  now       " + "50% off" {}
  lemma VisitSplit9() ensures "Visit  now       50  off" == "Visit  now       " + "50  off" {}
  lemma VisitPunct()
    ensures BlankWhere("Visit  now       50% off", IsPunct) == "Visit  now       50  off"
  {
    VisitSplit8(); VisitSplit9();
    VisitPunctPieces("Visit  now       ", "50% off");
  }
  lemma VisitAscii()
    ensures BlankWhere("Visit  now       50  off", IsNonAscii) == "Visit  now       50  off"
  {
    BlankWhereFixes("Visit  now       50  off", IsNonAscii);
  }

  // Steps 6 and 7
  lemma VisitSpacesPieces(v: string, n: string, f: string, o: string, s1: string, s2: string)
    requires v == "Visit" && n == "now" && f == "50" && o == "off" && s1 == "  " && s2 == "       "
    ensures Collapse(v + (s1 + (n + (s2 + (f + (s1 + o)))))) == v + (" " + (n + (" " + (f + (" " + o)))))
  {
    assert NoSpace(v) && NoSpace(n) && NoSpace(f) && NoSpace(o) && AllSpace(s1) && AllSpace(s2);
    CollapsePass(v, s1 + (n + (s2 + (f + (s1 + o)))));
    CollapseRun(s1, n + (s2 + (f + (s1 + o))));
    CollapsePass(n, s2 + (f + (s1 + o)));
    CollapseRun(s2, f + (s1 + o));
    CollapsePass(f, s1 + o);
    CollapseRun(s1, o);
    CollapsePass(o, []);
    assert o + [] == o;
  }
  lemma VisitSplit10() ensures "Visit  now       50  off" == "Visit" + ("  " + ("now" + ("       " + ("50" + ("  " + "off"))))) {}
  lemma VisitSplit11() ensures "Visit now 50 off" == "Visit" + (" " + ("now" + (" " + ("50" + (" " + "off"))))) {}
  lemma VisitSpaces()
    ensures Strip(Collapse("Visit  now       50  off")) == "Visit now 50 off"
  {
    VisitSplit10(); VisitSplit11();
    VisitSpacesPieces("Visit", "now", "50", "off", "  ", "       ");
    StripFixes("Visit now 50 off");
  }

  /** The whole pipeline on the worked example. */
  lemma VisitExample()
    ensures CleanResume("Visit http://example.com now RT @john #jobs! 50% off") == "Visit now 50 off"
  {
    VisitUrl(); VisitRtCc(); VisitTags(); VisitPunct(); VisitAscii(); VisitSpaces();
    CleanResumeSteps("Visit http://example.com now RT @john #jobs! 50% off",
      "Visit  now RT @john #jobs! 50% off", "Visit  now   @john #jobs! 50% off", "Visit  now       50% off",
      "Visit  now       50  off", "Visit  now       50  off", "Visit now 50 off");
  }
}
