/** Character classes used by the résumé normaliser, the two "skip a run"
    helpers that its regular expressions need, and the relation that says a
    rewrite left every space-free stretch of its input intact. */
module Text {

  /** Python's `str.isspace`, which is also what `\s`, `\S` and `str.strip()`
      use on `str` patterns: the ASCII controls TAB..CR, the separators
      U+001C..U+001F, SPACE, NEL, NO-BREAK SPACE and the Unicode spaces. */
  predicate IsSpace(c: char) {
    var n := c as int;
    || n == 0x20
    || 0x09 <= n <= 0x0D
    || 0x1C <= n <= 0x1F
    || n == 0x85
    || n == 0xA0
    || n == 0x1680
    || 0x2000 <= n <= 0x200A
    || n == 0x2028
    || n == 0x2029
    || n == 0x202F
    || n == 0x205F
    || n == 0x3000
  }

  /** The character set of the punctuation step, escaped into one bracket
      class in the source. */
  const Punctuation: string := "!\"#$%&'()*+,-./:;<=>?@[\\]^_`{|}~"

  /** Membership in `Punctuation`, by code point: the four runs of ASCII
      punctuation between the digits and letters. */
  predicate IsPunct(c: char) {
    var n := c as int;
    0x21 <= n <= 0x2F || 0x3A <= n <= 0x40 || 0x5B <= n <= 0x60 || 0x7B <= n <= 0x7E
  }

  lemma PunctuationClass(c: char)
    ensures IsPunct(c) <==> c in Punctuation
  {
  }

  /** `[^\x00-\x7f]`: any code point of 128 or above. */
  predicate IsNonAscii(c: char) {
    c as int >= 128
  }

  /** No character of `s` satisfies `p`. */
  predicate NoneMatch(s: string, p: char -> bool) {
    forall k :: 0 <= k < |s| ==> !p(s[k])
  }

  predicate NoSpace(w: string) {
    forall k :: 0 <= k < |w| ==> !IsSpace(w[k])
  }

  /** `w` is a contiguous substring of `s`. */
  predicate OccursIn(w: string, s: string) {
    exists k :: 0 <= k <= |s| && w <= s[k..]
  }

  /** Drops the maximal run of whitespace at the front (`\s*`, `lstrip()`). */
  function SkipSpaces(s: string): (r: string)
    ensures |r| <= |s| && r == s[|s| - |r|..]
    ensures r == [] || !IsSpace(r[0])
    ensures forall k :: 0 <= k < |s| - |r| ==> IsSpace(s[k])
  {
    if s != [] && IsSpace(s[0]) then SkipSpaces(s[1..]) else s
  }

  /** Drops the maximal run of non-whitespace at the front (`\S*`). */
  function SkipWord(s: string): (r: string)
    ensures |r| <= |s| && r == s[|s| - |r|..]
    ensures r == [] || IsSpace(r[0])
    ensures NoSpace(s[..|s| - |r|])
  {
    if s != [] && !IsSpace(s[0]) then
      var r := SkipWord(s[1..]);
      SuffixOfTail(s, r);
      NoSpaceCons(s, |s| - |r|);
      r
    else s
  }

  lemma SuffixOfTail(s: string, r: string)
    requires s != [] && |r| < |s| && r == s[1..][|s| - 1 - |r|..]
    ensures r == s[|s| - |r|..]
  {
  }

  lemma NoSpaceCons(s: string, n: int)
    requires 0 < n <= |s| && !IsSpace(s[0]) && NoSpace(s[1..][..n - 1])
    ensures NoSpace(s[..n])
  {
    forall k | 0 < k < n ensures !IsSpace(s[..n][k]) {
      assert s[..n][k] == s[1..][..n - 1][k - 1];
    }
  }

  /** Every space-free stretch of `out` is a stretch of `src`: a rewrite with
      this property only blanked characters, dropped text or dropped
      whitespace, and never glued two pieces of `src` together. */
  ghost predicate WordsFrom(out: string, src: string) {
    forall i, j :: 0 <= i <= j <= |out| && NoSpace(out[i..j]) ==> OccursIn(out[i..j], src)
  }

  /** Every space-free prefix of `out` is a prefix of `src`. */
  ghost predicate PrefixFrom(out: string, src: string) {
    forall j :: 0 <= j <= |out| && NoSpace(out[..j]) ==> j <= |src| && out[..j] == src[..j]
  }

  lemma NoSpaceSlice(w: string, a: int, b: int)
    requires NoSpace(w) && 0 <= a <= b <= |w|
    ensures NoSpace(w[a..b])
  {
    forall k | 0 <= k < b - a ensures !IsSpace(w[a..b][k]) {
      assert w[a..b][k] == w[a + k];
    }
  }

  lemma EmptyOccurs(s: string)
    ensures OccursIn([], s)
  {
    assert [] <= s[0..];
  }

  /** An output that starts with a copy of the input's first character and
      goes on with a word-preserving rewrite of the rest. */
  lemma CopyHead(s: string, tail: string)
    requires |s| > 0 && PrefixFrom(tail, s[1..]) && WordsFrom(tail, s[1..])
    ensures PrefixFrom([s[0]] + tail, s) && WordsFrom([s[0]] + tail, s)
  {
    var out := [s[0]] + tail;
    forall j | 0 <= j <= |out| && NoSpace(out[..j])
      ensures j <= |s| && out[..j] == s[..j]
    {
      if j > 0 {
        assert out[..j] == [s[0]] + tail[..j - 1];
        NoSpaceSlice(out[..j], 1, j);
        assert out[..j][1..j] == tail[..j - 1];
        assert s[..j] == [s[0]] + s[1..][..j - 1];
      }
    }
    forall i, j | 0 <= i <= j <= |out| && NoSpace(out[i..j])
      ensures OccursIn(out[i..j], s)
    {
      if i == j {
        EmptyOccurs(s);
      } else if i == 0 {
        assert out[i..j] == out[..j];
        assert out[i..j] <= s[0..];
      } else {
        ConsSlice(s[0], tail, i, j);
        var k :| 0 <= k <= |s[1..]| && tail[i - 1..j - 1] <= s[1..][k..];
        assert s[1..][k..] == s[k + 1..];
      }
    }
  }

  /** An output that starts with a whitespace character standing for a
      dropped or replaced piece of the input, and goes on with a
      word-preserving rewrite of a suffix `s[n..]`. */
  lemma BlankHead(c: char, tail: string, s: string, n: int)
    requires IsSpace(c) && 0 <= n <= |s| && WordsFrom(tail, s[n..])
    ensures PrefixFrom([c] + tail, s) && WordsFrom([c] + tail, s)
  {
    var out := [c] + tail;
    forall i, j | 0 <= i < j <= |out| && i == 0
      ensures !NoSpace(out[i..j])
    {
      assert out[i..j][0] == c;
    }
    assert forall j :: 0 < j <= |out| ==> out[..j] == out[0..j];
    forall i, j | 0 < i <= j <= |out| && NoSpace(out[i..j])
      ensures OccursIn(out[i..j], s)
    {
      ConsSlice(c, tail, i, j);
      var k :| 0 <= k <= |s[n..]| && tail[i - 1..j - 1] <= s[n..][k..];
      assert s[n..][k..] == s[n + k..];
    }
    EmptyOccurs(s);
  }

  lemma ConsSlice(c: char, tail: string, i: int, j: int)
    requires 0 < i <= j <= |tail| + 1
    ensures ([c] + tail)[i..j] == tail[i - 1..j - 1]
  {
    var out := [c] + tail;
    forall m | 0 <= m < j - i ensures out[i..j][m] == tail[i - 1..j - 1][m] {
      assert out[i..j][m] == out[i + m];
    }
  }

  lemma EmptyKeepsWords(s: string)
    ensures PrefixFrom([], s) && WordsFrom([], s)
  {
    EmptyOccurs(s);
  }

  /** A slice of `s` keeps every space-free stretch of `s`. */
  lemma SliceKeepsWords(s: string, a: int, b: int)
    requires 0 <= a <= b <= |s|
    ensures WordsFrom(s[a..b], s)
  {
    var out := s[a..b];
    forall i, j | 0 <= i <= j <= |out| && NoSpace(out[i..j])
      ensures OccursIn(out[i..j], s)
    {
      forall m | 0 <= m < j - i ensures out[i..j][m] == s[a + i..][m] {
        assert out[i..j][m] == s[a + i + m];
      }
      assert out[i..j] <= s[a + i..];
    }
  }

  lemma {:induction false} WordsFromTrans(out: string, mid: string, src: string)
    requires WordsFrom(out, mid) && WordsFrom(mid, src)
    ensures WordsFrom(out, src)
  {
    forall i, j | 0 <= i <= j <= |out| && NoSpace(out[i..j])
      ensures OccursIn(out[i..j], src)
    {
      var w := out[i..j];
      var k :| 0 <= k <= |mid| && w <= mid[k..];
      assert mid[k..k + |w|] == w;
      assert NoSpace(mid[k..k + |w|]);
    }
  }

  /** A non-space character of a word-preserving rewrite is a character of
      its input. */
  lemma WordsFromChar(out: string, src: string, k: int)
    requires WordsFrom(out, src) && 0 <= k < |out| && !IsSpace(out[k])
    ensures out[k] in src
  {
    assert NoSpace(out[k..k + 1]);
    var m :| 0 <= m <= |src| && out[k..k + 1] <= src[m..];
    assert src[m..][0] == out[k];
  }

  /** Whatever holds of every non-space character of the input and of every
      space character of the output holds of every character of the output. */
  lemma WordsFromNoneMatch(out: string, src: string, p: char -> bool)
    requires WordsFrom(out, src) && NoneMatch(src, p)
    requires forall k :: 0 <= k < |out| && IsSpace(out[k]) ==> !p(out[k])
    ensures NoneMatch(out, p)
  {
    forall k | 0 <= k < |out| ensures !p(out[k]) {
      if !IsSpace(out[k]) {
        WordsFromChar(out, src, k);
      }
    }
  }
}
