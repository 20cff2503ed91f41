# Résumé normaliser and upload dispatch

This project models the two pieces of logic in the résumé category
predictor `app.py`.

The first is `cleanResume`, the text normaliser that runs before every
prediction. It applies seven global rewrites in a fixed order:

1. a URL becomes one space. A URL is `http` followed by at least one non-whitespace character, the rest of that run, and the whitespace after it. A bare `http` followed by whitespace or the end is kept;
2. every `RT` and every `cc` becomes one space;
3. a hashtag or mention becomes one space. That is `#` or `@` followed by at least one non-whitespace character and the rest of that run. A lone `#` or `@` is left for step 4;
4. each ASCII punctuation character becomes a space;
5. each character at or above code point 128 becomes a space;
6. each run of whitespace becomes one space;
7. whitespace is stripped from both ends.

Each regular-expression substitution is a recursive left-to-right scanner
with the semantics of Python's `re.sub`: matches are leftmost, do not
overlap, and are greedy. One predicate, `Text.IsSpace`, stands for `\s`,
`\S` and `str.strip()`. It is Python's `str.isspace`.

The second piece is the extension dispatch of `handle_file_upload`. The name
of the upload is split at `.`, the last piece is lowercased, and that picks
the PDF, DOCX or TXT extractor. Any other extension gives the
`Unsupported file type` error. The extractors are replaced by the variant of
`Upload.Route` that reaches them, and the `ValueError` by `Unsupported`.

`pred` is modelled only up to its call to `cleanResume`. The fitted model
(TF-IDF vectoriser, classifier and label decoder) is a function parameter.

Files:

- `text.dfy`: character classes, the whitespace skippers, and `WordsFrom`. `WordsFrom(out, src)` says every space-free stretch of `out` occurs in `src`. Every step keeps this relation, so what one step removes no later step can bring back.
- `clean.dfy`: the seven steps, `CleanResume`, and the properties of its output.
- `clean_examples.dfy`: how each step acts on pieces of text, and the worked examples.
- `upload.dfy` and `upload_examples.dfy`: `split`, the extension and the dispatch, with examples.
- `predict.dfy`: `pred` with the fitted model as a parameter.

Two consequences of the patterns show up in the worked examples:

- `RT` and `cc` are replaced wherever they occur, inside words too: `"accounting"` becomes `"a ounting"`.
- Step 3 runs before the punctuation step, so a hashtag is removed together with any punctuation attached to it. In `"Visit http://example.com now RT @john #jobs! 50% off"` the whole of `#jobs!` goes, and the result is `"Visit now 50 off"`.

## Model

| member | source | states |
|---|---|---|
| `Clean.CleanResumeIsClean` | app.py:28-35 | Every output is clean text. That means: no edge whitespace, only `' '` as whitespace, no double whitespace, no punctuation, no code point of 128 or above, no `RT`/`cc`, and no URL start. |
| `Clean.CleanTextIsFixed` | app.py:28-35 | Clean text passes through all seven steps unchanged. |
| `Clean.CleanResumeIdempotent` | app.py:28-35 | `cleanResume(cleanResume(x)) == cleanResume(x)`. |
| `Clean.CleanResumeFixedPoints` | app.py:28-35 | A text is left unchanged by `cleanResume` if and only if it is clean text. |
| `Clean.CleanResumeWhitespace` | app.py:34-35 | The output has no whitespace at either end and never two whitespace characters in a row. Its only whitespace character is `' '`. |
| `Clean.CleanResumeNoPunctuation` | app.py:32-35 | No character of the output is in the punctuation set, so there is no `#` and no `@`. |
| `Clean.CleanResumeAscii` | app.py:33-35 | Every character of the output has a code point below 128. |
| `Clean.CleanResumeNoRtCc` | app.py:30-35 | Neither `RT` nor `cc` occurs anywhere in the output, not even inside a word. |
| `Clean.CleanResumeNoUrls` | app.py:29-35 | Every `http` in the output is at its end or followed by a space. |
| `Clean.AfterUrl` | app.py:29 | A URL match consumes at least `http` and one non-space character. What remains is a suffix that does not start with whitespace. |
| `CleanExamples.AfterUrlMatch` | app.py:29 | For `http`, a non-empty space-free run, a whitespace run (empty only at the end of the text) and a rest that does not start with whitespace, the match is found and exactly that rest remains: the runs are taken greedily. |
| `Clean.StripUrlsRemovesUrls` | app.py:29 | After step 1, no position starts `http` followed by a non-space character. |
| `Clean.StripUrlsKeepsWords` | app.py:29 | Step 1 keeps every space-free stretch of its output from its input, and every space-free prefix from the input's prefix. |
| `Clean.StripUrlsFixes` | app.py:29 | Step 1 is the identity on a text without a URL start. |
| `Clean.StripRtCcRemovesRtCc` | app.py:30 | After step 2, no position starts `RT` or `cc`. This holds even though each match is replaced by a space and scanning resumes after it (`"ccc"` becomes `" c"`). |
| `Clean.StripRtCcKeepsWords` | app.py:30 | Step 2 keeps every space-free stretch, and every space-free prefix, of its output from its input. |
| `Clean.StripRtCcFixes` | app.py:30 | Step 2 is the identity on a text without `RT` or `cc`. |
| `Clean.StripTagsRemovesTags` | app.py:31 | After step 3, no `#` or `@` is followed by a non-space character. |
| `Clean.StripTagsKeepsWords` | app.py:31 | Step 3 keeps every space-free stretch, and every space-free prefix, of its output from its input. |
| `Clean.StripTagsFixes` | app.py:31 | Step 3 is the identity on a text where no `#` or `@` is followed by a non-space character. |
| `Clean.BlankWhereAt` | app.py:32-33 | Steps 4 and 5 keep the length and replace exactly the characters of their class by `' '`, position by position. |
| `Clean.BlankWhereKeepsWords` | app.py:32-33 | Steps 4 and 5 keep every space-free stretch of their output from their input. |
| `Clean.BlankWhereClears` | app.py:32-33 | After step 4 (or 5), no character of its class is left. |
| `Clean.BlankWhereFixes` | app.py:32-33 | Steps 4 and 5 are the identity on a text without a character of their class. |
| `Clean.CollapseShapes` | app.py:34 | After step 6, every whitespace character is `' '` and no two whitespace characters are adjacent. |
| `Clean.CollapseKeepsWords` | app.py:34 | Step 6 keeps every space-free stretch, and every space-free prefix, of its output from its input. |
| `Clean.CollapseFixes` | app.py:34 | Step 6 is the identity on a text whose whitespace is single `' '` characters. |
| `Clean.TrimEnd` | app.py:35 | `rstrip()` returns a prefix without a trailing space. Every character it drops is whitespace. |
| `Clean.StripTrims` | app.py:35 | `strip()` returns the slice between the leading and the trailing whitespace runs. The slice itself has no edge whitespace. |
| `Clean.StripKeepsWords` | app.py:35 | `strip()` keeps every space-free stretch of its output from its input. |
| `Clean.StripFixes` | app.py:35 | `strip()` is the identity on a text without edge whitespace. |
| `Text.SkipSpaces` | app.py:29 | `\s*` consumes a prefix made only of whitespace and stops at a non-space character or the end. |
| `Text.SkipWord` | app.py:29 | `\S*`, applied after a non-space character (so that together they match `\S+`), consumes a space-free prefix and stops at whitespace or the end. |
| `Text.PunctuationClass` | app.py:32 | The code-point test `IsPunct` holds exactly for the 32 characters of the escaped class. |
| `CleanExamples.AccountingExample` | app.py:28-35 | `cleanResume("accounting") == "a ounting"`. |
| `CleanExamples.CccExample` | app.py:28-35 | `cleanResume("ccc") == "c"`: matches do not overlap. |
| `CleanExamples.VisitExample` | app.py:28-35 | `cleanResume("Visit http://example.com now RT @john #jobs! 50% off") == "Visit now 50 off"`. |
| `Upload.Split` | app.py:68 | `str.split(sep)` returns at least one piece, and no piece holds the separator. |
| `Upload.JoinSplit` | app.py:68 | Joining the pieces of `str.split(sep)` with the separator gives back the name. |
| `Upload.SplitJoin` | app.py:68 | Splitting a join of separator-free pieces gives back those pieces, so `Split` is the only such splitting. |
| `Upload.ExtensionAfterLastDot` | app.py:68 | A name without `.` is wholly its own (lowercased) extension. Otherwise the extension is the lowercased text after the last `.`. |
| `Upload.LowerMatches` | app.py:68 | Lowercasing and then comparing with a lowercase word is comparing letter by letter in either case. |
| `Upload.Dispatch` | app.py:67-76 | `pdf`, `docx` and `txt` each select their own route, and only these do. Every other extension is refused with the exact error message. |
| `UploadExamples.UpperCaseExample` | app.py:68-70 | `CV.PDF` has the extension `pdf` and goes to the PDF extractor. |
| `UploadExamples.LastDotExample` | app.py:68-74 | `a.b.txt` has the extension `txt` and goes to the TXT extractor. |
| `UploadExamples.TrailingDotExample` | app.py:68-76 | `notes.` has the empty extension and is refused. |
| `UploadExamples.NoDotExample` | app.py:68-74 | The dotless name `txt` is its own extension and goes to the TXT extractor. |
| `UploadExamples.RefusedExamples` | app.py:75-76 | `resume.csv` and the empty name are refused with the error message. |
| `Predict.PredictIgnoresCleaning` | app.py:79-80 | Predicting on an already cleaned résumé gives the same category as predicting on the raw one. |

## Left out

- The Streamlit page in `main` (app.py:86-107) and every `st.*` call, including the `resume_text.strip()` test before predicting. These are the interactive shell, not logic.
- Loading the pickled model, vectoriser and encoder (app.py:13-25). This is file I/O of opaque artifacts.
- The TF-IDF transform, classifier prediction and label decoding in `pred` (app.py:81-83). These are fitted foreign models over floating-point vectors, so they are the parameter `classify` of `Predict.Predict`.
- PDF and DOCX extraction (app.py:38-53). These are calls into PyPDF2 and python-docx, whose behaviour is not visible. The dispatch stops at the route.
- TXT decoding with the UTF-8 then Latin-1 fallback (app.py:55-64). This is codec calls and a file-handle `seek`.
- Upload.Lower: lowercases the ASCII letters only, where Python's `str.lower()` also lowercases other scripts. No non-ASCII character lowercases to a letter of `pdf`, `docx` or `txt`, so every route is the same. Only the extension string itself can differ.
- Lone surrogate code points (U+D800 to U+DFFF) can occur in a Python string but are not Dafny characters. Such a character would be blanked by step 5 like any other code point of 128 or above.
