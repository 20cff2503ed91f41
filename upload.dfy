/** The extension dispatch of `handle_file_upload`: the upload's name is cut
    at its last `.`, the piece after it is lowercased, and that picks the
    extractor, or the upload is refused. */
module Upload {

  /** `s.split(sep)` with an explicit separator: the pieces between the
      separators, empty pieces included, so there is always one more piece
      than there are separators. */
  function Split(s: string, sep: char): (parts: seq<string>)
    ensures |parts| >= 1
    ensures forall i :: 0 <= i < |parts| ==> sep !in parts[i]
  {
    if s == [] then [[]]
    else
      var rest := Split(s[1..], sep);
      if s[0] == sep then [[]] + rest
      else [[s[0]] + rest[0]] + rest[1..]
  }

  /** Joining the pieces with the separator gives back the text. */
  lemma {:induction false} JoinSplit(s: string, sep: char)
    ensures Join(Split(s, sep), sep) == s
  {
    if s != [] {
      var rest := Split(s[1..], sep);
      JoinSplit(s[1..], sep);
      if s[0] != sep {
        JoinCons(s[0], rest, sep);
      }
    }
  }

  /** Prepending a character to the first piece prepends it to the join. */
  lemma JoinCons(c: char, parts: seq<string>, sep: char)
    requires |parts| >= 1
    ensures Join([[c] + parts[0]] + parts[1..], sep) == [c] + Join(parts, sep)
  {
    var q := [[c] + parts[0]] + parts[1..];
    if |parts| > 1 {
      assert q[1..] == parts[1..];
    }
  }

  /** `sep.join(parts)`. */
  function Join(parts: seq<string>, sep: char): string
    requires |parts| >= 1
  {
    if |parts| == 1 then parts[0] else parts[0] + [sep] + Join(parts[1..], sep)
  }

  lemma {:induction false} SplitWord(w: string, rest: string, sep: char)
    requires sep !in w
    ensures Split(w + rest, sep) == [w + Split(rest, sep)[0]] + Split(rest, sep)[1..]
  {
    if w != [] {
      assert (w + rest)[1..] == w[1..] + rest;
      SplitWord(w[1..], rest, sep);
      assert [w[0]] + (w[1..] + Split(rest, sep)[0]) == w + Split(rest, sep)[0];
    } else {
      var parts := Split(rest, sep);
      assert w + rest == rest && w + parts[0] == parts[0];
      assert [parts[0]] + parts[1..] == parts;
    }
  }

  /** Splitting undoes joining, as long as no piece holds the separator. */
  lemma {:induction false} SplitJoin(parts: seq<string>, sep: char)
    requires |parts| >= 1 && forall i :: 0 <= i < |parts| ==> sep !in parts[i]
    ensures Split(Join(parts, sep), sep) == parts
  {
    if |parts| == 1 {
      SplitWord(parts[0], [], sep);
      assert parts[0] + [] == parts[0];
    } else {
      var tail := Join(parts[1..], sep);
      SplitJoin(parts[1..], sep);
      assert ([sep] + tail)[1..] == tail;
      assert Split([sep] + tail, sep) == [[]] + parts[1..];
      assert Join(parts, sep) == parts[0] + ([sep] + tail);
      SplitWord(parts[0], [sep] + tail, sep);
      assert parts[0] + [] == parts[0];
      assert [parts[0]] + parts[1..] == parts;
    }
  }

  lemma {:induction false} JoinLast(parts: seq<string>, sep: char)
    requires |parts| > 1
    ensures Join(parts, sep) == Join(parts[..|parts| - 1], sep) + [sep] + parts[|parts| - 1]
  {
    if |parts| > 2 {
      JoinLast(parts[1..], sep);
      assert parts[1..][..|parts| - 2] == parts[..|parts| - 1][1..];
    }
  }

  function LowerChar(c: char): char {
    if 'A' <= c <= 'Z' then (c as int + 32) as char else c
  }

  /** `str.lower()` on the ASCII letters. */
  function Lower(s: string): string {
    seq(|s|, k requires 0 <= k < |s| => LowerChar(s[k]))
  }

  /** The upload's extension: `name.split('.')[-1].lower()`. */
  function Extension(name: string): string {
    var parts := Split(name, '.');
    Lower(parts[|parts| - 1])
  }

  /** In a join of two or more pieces, the last piece is what follows the
      last separator. */
  lemma JoinLastPiece(parts: seq<string>, sep: char)
    requires |parts| > 1
    ensures var k := |Join(parts[..|parts| - 1], sep)|;
      k < |Join(parts, sep)| && Join(parts, sep)[k] == sep && Join(parts, sep)[k + 1..] == parts[|parts| - 1]
  {
    JoinLast(parts, sep);
    var front := Join(parts[..|parts| - 1], sep);
    var last := parts[|parts| - 1];
    assert Join(parts, sep) == front + ([sep] + last);
  }

  lemma ExtensionOfParts(name: string, parts: seq<string>)
    requires Split(name, '.') == parts
    ensures Extension(name) == Lower(parts[|parts| - 1])
  {
  }

  /** The extension is the lowercased text after the last `.`, or the whole
      lowercased name when it has no `.`. */
  lemma ExtensionAfterLastDot(name: string)
    ensures '.' !in name ==> Extension(name) == Lower(name)
    ensures '.' in name ==>
      exists k :: 0 <= k < |name| && name[k] == '.' && '.' !in name[k + 1..] && Extension(name) == Lower(name[k + 1..])
  {
    var parts := Split(name, '.');
    JoinSplit(name, '.');
    ExtensionOfParts(name, parts);
    LastPiece(name, parts);
  }

  /** The last piece of a splitting is the whole text when there is one
      piece, and otherwise what follows the last separator. */
  lemma LastPiece(name: string, parts: seq<string>)
    requires |parts| >= 1 && (forall i :: 0 <= i < |parts| ==> '.' !in parts[i]) && Join(parts, '.') == name
    ensures |parts| == 1 ==> '.' !in name && name == parts[0]
    ensures |parts| > 1 ==>
      exists k :: 0 <= k < |name| && name[k] == '.' && '.' !in name[k + 1..] && name[k + 1..] == parts[|parts| - 1]
  {
    if |parts| > 1 {
      JoinLastPiece(parts, '.');
      var k := |Join(parts[..|parts| - 1], '.')|;
      assert name[k] == '.' && name[k + 1..] == parts[|parts| - 1];
    }
  }

  /** With a lowercase target, lowercasing then comparing is comparing
      letter by letter with either case allowed. */
  lemma LowerMatches(w: string, t: string)
    requires forall k :: 0 <= k < |t| ==> 'a' <= t[k] <= 'z'
    ensures Lower(w) == t <==>
      |w| == |t| && forall k :: 0 <= k < |w| ==> w[k] == t[k] || w[k] as int == t[k] as int - 32
  {
    if |w| == |t| && forall k :: 0 <= k < |w| ==> w[k] == t[k] || w[k] as int == t[k] as int - 32 {
      forall k | 0 <= k < |w| ensures Lower(w)[k] == t[k] {}
    }
  }

  /** Which extractor an upload goes to. */
  datatype Route = Pdf | Docx | Txt | Unsupported(message: string)

  const UnsupportedMessage: string := "Unsupported file type. Please upload PDF, DOCX, or TXT."

  /** `handle_file_upload`, with each extractor call replaced by the route
      that reaches it and the `ValueError` by `Unsupported`. */
  function Dispatch(name: string): (r: Route)
    ensures r == Pdf <==> Extension(name) == "pdf"
    ensures r == Docx <==> Extension(name) == "docx"
    ensures r == Txt <==> Extension(name) == "txt"
    ensures r.Unsupported? <==> Extension(name) !in {"pdf", "docx", "txt"}
    ensures r.Unsupported? ==> r.message == UnsupportedMessage
  {
    var ext := Extension(name);
    if ext == "pdf" then Pdf
    else if ext == "docx" then Docx
    else if ext == "txt" then Txt
    else Unsupported(UnsupportedMessage)
  }
}
