/** MibTeX's `LatexPublisher`, which prepares a LaTeX project for publishing: it deletes
    blacklisted files and strips the comments from every `.tex` line, keeping the `%`
    that starts a comment and, by default, whole documentation comments opening with
    `%%%`. The directory walk and the file handling around the line loop are not part
    of this model. */
module LatexPublisher {
  import opened JavaStrings
  import opened Lists

  const COMMENT_BEGIN := '%'

  /* ---------------------------------------------------------------- comments */

  /** A `%` at `i` that is not the escaped percent sign `\%`. */
  predicate StartsComment(line: string, i: int) {
    0 <= i < |line| && line[i] == COMMENT_BEGIN && (i == 0 || line[i - 1] != '\\')
  }

  /** The first comment start at or after `from`, or -1. */
  function CommentFrom(line: string, from: nat): (r: int)
    requires from <= |line|
    ensures r == -1 || (from <= r && StartsComment(line, r))
    ensures forall i :: from <= i < |line| && (r == -1 || i < r) ==> !StartsComment(line, i)
    decreases |line| - from
  {
    if from == |line| then -1
    else if StartsComment(line, from) then from
    else CommentFrom(line, from + 1)
  }

  /** Where the comment of a line begins: its first unescaped `%`, or -1. */
  function CommentPos(line: string): int {
    CommentFrom(line, 0)
  }

  /** A `%` at the start of a line always begins its comment. */
  lemma {:induction false} LeadingPercentIsComment(line: string)
    requires line != [] && line[0] == COMMENT_BEGIN
    ensures CommentPos(line) == 0
  {
    assert StartsComment(line, 0);
  }

  /** The search of processLatexFile: the first `%`, then the next one for as long as
      the one found is preceded by a backslash. */
  method FindCommentBegin(line: string) returns (pos: int)
    ensures pos == CommentPos(line)
  {
    IndexOfChar(line, COMMENT_BEGIN, 0);
    pos := IndexOf(line, [COMMENT_BEGIN]);
    while pos > 0 && line[pos - 1] == '\\'
      invariant pos == -1 || (0 <= pos < |line| && line[pos] == COMMENT_BEGIN)
      invariant forall i :: 0 <= i < |line| && (pos == -1 || i < pos) ==> !StartsComment(line, i)
      decreases if pos < 0 then 0 else |line| + 1 - pos
    {
      IndexOfChar(line, COMMENT_BEGIN, pos + 1);
      pos := IndexOfFrom(line, [COMMENT_BEGIN], pos + 1);
    }
    if pos != -1 {
      assert StartsComment(line, pos);
    }
  }

  /** isDocumentationComment: at least two chars follow `idx` and the three chars from
      `idx` on are all `%`. */
  predicate IsDocumentationComment(line: string, idx: nat) {
    var charactersAfterBeginIndex := |line| - 1 - idx;
    charactersAfterBeginIndex >= 2
      && COMMENT_BEGIN == line[idx]
      && COMMENT_BEGIN == line[idx + 1]
      && COMMENT_BEGIN == line[idx + 2]
  }

  /** A documentation comment is exactly an occurrence of "%%%". */
  lemma {:induction false} DocumentationCommentIsTriplePercent(line: string, idx: nat)
    ensures IsDocumentationComment(line, idx) <==> OccursAt(line, "%%%", idx)
  {
    if idx + 3 <= |line| {
      StartsWithSlice(line[idx..], "%%%");
      assert line[idx..][..3] == line[idx..idx + 3];
      if line[idx..idx + 3] == "%%%" {
        assert line[idx + 1] == line[idx..idx + 3][1] && line[idx + 2] == line[idx..idx + 3][2];
      }
    }
  }

  /** The text processLatexFile writes for one line, without its "\r\n", or None when it
      writes nothing: the whole line when it has no comment or a kept documentation
      comment, otherwise the line up to and including the `%` of its comment. */
  function Published(line: string, allowDocsComments: bool): Option<string> {
    var pos := CommentPos(line);
    if pos < 0 || (allowDocsComments && IsDocumentationComment(line, pos)) then Some(line)
    else
      var cut := line[..pos + 1];
      if cut != [] then Some(cut) else None
  }

  /** No line is dropped: the cut keeps the `%`, so the emptiness test always passes. The
      written text is the whole line, or its prefix ending in the `%` that begins its
      comment. */
  lemma {:induction false} PublishedShape(line: string, allowDocsComments: bool)
    ensures Published(line, allowDocsComments).Some?
    ensures var out := Published(line, allowDocsComments).value;
      var pos := CommentPos(line);
      if pos < 0 || (allowDocsComments && IsDocumentationComment(line, pos)) then out == line
      else |out| == pos + 1 && out == line[..pos + 1] && out[pos] == COMMENT_BEGIN
  {
  }

  /** A cut line starts its comment at its last char, as the line did. */
  lemma {:induction false} CommentPosOfCut(line: string, pos: int)
    requires pos == CommentPos(line) && pos >= 0
    ensures CommentPos(line[..pos + 1]) == pos
  {
    var cut := line[..pos + 1];
    forall i | 0 <= i < pos ensures !StartsComment(cut, i) {
      assert !StartsComment(line, i);
      assert cut[i] == line[i] && (i == 0 || cut[i - 1] == line[i - 1]);
    }
    assert StartsComment(cut, pos);
  }

  /** Publishing a published line changes nothing. */
  lemma {:induction false} PublishedIdempotent(line: string, allowDocsComments: bool)
    ensures var out := Published(line, allowDocsComments).value;
      Published(out, allowDocsComments) == Some(out)
  {
    PublishedShape(line, allowDocsComments);
    var pos := CommentPos(line);
    if !(pos < 0 || (allowDocsComments && IsDocumentationComment(line, pos))) {
      var out := line[..pos + 1];
      CommentPosOfCut(line, pos);
      assert out[..pos + 1] == out;
    }
  }

  /** Without documentation comments a published line keeps no comment text: its comment,
      if any, is its final `%`. */
  lemma {:induction false} PublishedHasNoCommentText(line: string)
    ensures var out := Published(line, false).value;
      CommentPos(out) == -1 || CommentPos(out) == |out| - 1
  {
    PublishedShape(line, false);
    var pos := CommentPos(line);
    if pos >= 0 {
      CommentPosOfCut(line, pos);
    }
  }

  /** The writes of processLatexFile for the given lines: one per published line, each
      followed by "\r\n". */
  function Output(lines: seq<string>, allowDocsComments: bool): seq<string>
    decreases |lines|
  {
    if lines == [] then []
    else
      Output(lines[..|lines| - 1], allowDocsComments) +
      match Published(lines[|lines| - 1], allowDocsComments)
      case Some(text) => [text + "\r\n"]
      case None => []
  }

  /** Every line is written once, in order, as its published text and "\r\n". */
  lemma {:induction false} OutputLines(lines: seq<string>, allowDocsComments: bool)
    ensures |Output(lines, allowDocsComments)| == |lines|
    ensures forall i :: 0 <= i < |lines| ==>
      Output(lines, allowDocsComments)[i] == Published(lines[i], allowDocsComments).value + "\r\n"
    decreases |lines|
  {
    if lines != [] {
      var init := lines[..|lines| - 1];
      OutputLines(init, allowDocsComments);
      PublishedShape(lines[|lines| - 1], allowDocsComments);
      forall i | 0 <= i < |init| ensures lines[i] == init[i] { }
    }
  }

  /** The line loop of processLatexFile; the writes are returned in order. */
  method ProcessLines(lines: seq<string>, allowDocsComments: bool) returns (out: seq<string>)
    ensures out == Output(lines, allowDocsComments)
  {
    out := [];
    var k := 0;
    while k < |lines|
      invariant 0 <= k <= |lines|
      invariant out == Output(lines[..k], allowDocsComments)
    {
      var line := lines[k];
      assert lines[..k + 1][..k] == lines[..k];
      var pos := FindCommentBegin(line);
      if pos < 0 || (allowDocsComments && IsDocumentationComment(line, pos)) {
        out := out + [line + "\r\n"];
      } else {
        line := line[..pos + 1];
        if line != [] {
          out := out + [line + "\r\n"];
        }
      }
      k := k + 1;
    }
    assert lines[..|lines|] == lines;
  }

  /* ---------------------------------------------------------------- options */

  /** The endings blacklisted before any option is applied. */
  const DEFAULT_FILE_ENDINGS: seq<string> :=
    [".pdf", ".toc", ".tps", ".tcp", ".aux", ".out", ".bbl", ".blg", ".synctex", ".synctex.gz", ".log"]

  /** The file names blacklisted outright. */
  const DEFAULT_FILES: seq<string> := [".svn"]

  /** The endings after apply: ".bbl" dropped for ACM, the shell scripts added when they
      are removed, one ".pdf" dropped when PDFs are kept and one added otherwise. */
  function Applied(endings: seq<string>, isACM: bool, removeShellScripts: bool, keepPDFs: bool): seq<string> {
    var acm := if isACM then RemoveAll(endings, ".bbl") else endings;
    var scripts := if removeShellScripts then acm + [".sh", ".bat"] else acm;
    if keepPDFs then RemoveFirst(scripts, ".pdf") else scripts + [".pdf"]
  }

  /** Every ending other than ".pdf" is blacklisted after apply exactly when it was
      before, except ".bbl" for ACM, or it is a shell script being removed. */
  lemma {:induction false} AppliedKeepsOthers(endings: seq<string>, isACM: bool, removeShellScripts: bool,
                                              keepPDFs: bool, e: string)
    requires e != ".pdf"
    ensures e in Applied(endings, isACM, removeShellScripts, keepPDFs) <==>
      (e in endings && !(isACM && e == ".bbl")) || (removeShellScripts && (e == ".sh" || e == ".bat"))
  {
    var acm := if isACM then RemoveAll(endings, ".bbl") else endings;
    var scripts := if removeShellScripts then acm + [".sh", ".bat"] else acm;
    RemoveAllElems(endings, ".bbl", e);
    if keepPDFs {
      RemoveFirstElems(scripts, ".pdf", e);
    }
  }

  /** With one ".pdf", leading the list, ".pdf" is blacklisted after apply exactly when
      PDFs are not kept. */
  lemma {:induction false} AppliedPdf(endings: seq<string>, isACM: bool, removeShellScripts: bool, keepPDFs: bool)
    requires endings != [] && endings[0] == ".pdf" && ".pdf" !in endings[1..]
    ensures ".pdf" in Applied(endings, isACM, removeShellScripts, keepPDFs) <==> !keepPDFs
  {
    var acm := if isACM then RemoveAll(endings, ".bbl") else endings;
    var scripts := if removeShellScripts then acm + [".sh", ".bat"] else acm;
    RemoveAllElems(endings[1..], ".bbl", ".pdf");
    assert acm == [".pdf"] + acm[1..] && ".pdf" !in acm[1..];
    assert scripts[0] == ".pdf" && scripts[1..] == acm[1..] + (scripts[|acm|..]);
  }

  /** The literal facts about the default endings the lemmas below rely on. */
  lemma {:induction false} DefaultEndings()
    ensures DEFAULT_FILE_ENDINGS[0] == ".pdf" && ".pdf" !in DEFAULT_FILE_ENDINGS[1..]
    ensures ".bbl" in DEFAULT_FILE_ENDINGS && ".tex" !in DEFAULT_FILE_ENDINGS
    ensures ".sh" !in DEFAULT_FILE_ENDINGS && ".bat" !in DEFAULT_FILE_ENDINGS
  {
    assert DEFAULT_FILE_ENDINGS[6] == ".bbl";
  }

  /** What apply does to the default endings: ".pdf" is blacklisted exactly when PDFs are
      not kept, ".bbl" exactly when not for ACM, ".sh" and ".bat" exactly when shell
      scripts are removed, the other defaults stay, and ".tex" never is. */
  lemma {:induction false} AppliedDefaults(isACM: bool, removeShellScripts: bool, keepPDFs: bool, e: string)
    ensures var endings := Applied(DEFAULT_FILE_ENDINGS, isACM, removeShellScripts, keepPDFs);
      && (".pdf" in endings <==> !keepPDFs)
      && (".bbl" in endings <==> !isACM)
      && (".sh" in endings <==> removeShellScripts)
      && (".bat" in endings <==> removeShellScripts)
      && ".tex" !in endings
      && (e in DEFAULT_FILE_ENDINGS && e != ".pdf" && e != ".bbl" ==> e in endings)
  {
    DefaultEndings();
    AppliedPdf(DEFAULT_FILE_ENDINGS, isACM, removeShellScripts, keepPDFs);
    AppliedKeepsOthers(DEFAULT_FILE_ENDINGS, isACM, removeShellScripts, keepPDFs, ".bbl");
    AppliedKeepsOthers(DEFAULT_FILE_ENDINGS, isACM, removeShellScripts, keepPDFs, ".sh");
    AppliedKeepsOthers(DEFAULT_FILE_ENDINGS, isACM, removeShellScripts, keepPDFs, ".bat");
    AppliedKeepsOthers(DEFAULT_FILE_ENDINGS, isACM, removeShellScripts, keepPDFs, ".tex");
    if e != ".pdf" {
      AppliedKeepsOthers(DEFAULT_FILE_ENDINGS, isACM, removeShellScripts, keepPDFs, e);
    }
  }

  /** The publishing options, with the blacklists apply adjusts in place. */
  class Options {
    var allowDocsComments: bool
    var isACM: bool
    var removeShellScripts: bool
    var keepPDFs: bool
    var blacklistedFiles: seq<string>
    var blacklistedFileEndings: seq<string>

    /** validate: no ".tex" file is ever deleted, as those are the files being cleaned. */
    predicate Valid()
      reads this
    {
      ".tex" !in blacklistedFileEndings
    }

    constructor ()
      ensures allowDocsComments && !isACM && removeShellScripts && keepPDFs
      ensures blacklistedFiles == DEFAULT_FILES
      ensures blacklistedFileEndings == DEFAULT_FILE_ENDINGS
      ensures Valid()
    {
      allowDocsComments := true;
      isACM := false;
      removeShellScripts := true;
      keepPDFs := true;
      blacklistedFiles := DEFAULT_FILES;
      blacklistedFileEndings := DEFAULT_FILE_ENDINGS;
    }

    /** apply: adjusts the blacklisted endings to the flags; validate still holds after. */
    method Apply()
      requires Valid()
      modifies this
      ensures blacklistedFileEndings == Applied(old(blacklistedFileEndings), isACM, removeShellScripts, keepPDFs)
      ensures allowDocsComments == old(allowDocsComments) && isACM == old(isACM)
      ensures removeShellScripts == old(removeShellScripts) && keepPDFs == old(keepPDFs)
      ensures blacklistedFiles == old(blacklistedFiles)
      ensures Valid()
    {
      ghost var endings := blacklistedFileEndings;
      if isACM {
        blacklistedFileEndings := RemoveAll(blacklistedFileEndings, ".bbl");
      }
      if removeShellScripts {
        blacklistedFileEndings := blacklistedFileEndings + [".sh", ".bat"];
      }
      if keepPDFs {
        blacklistedFileEndings := RemoveFirst(blacklistedFileEndings, ".pdf");
      } else {
        blacklistedFileEndings := blacklistedFileEndings + [".pdf"];
      }
      AppliedKeepsOthers(endings, isACM, removeShellScripts, keepPDFs, ".tex");
    }

    /** isBlackListed: the name is a blacklisted file or ends with a blacklisted ending. */
    predicate IsBlackListed(filename: string)
      reads this
    {
      (exists f :: f in blacklistedFiles && filename == f)
        || (exists e :: e in blacklistedFileEndings && EndsWith(filename, e))
    }
  }

  /** A text and its suffix agree on their `k`-th chars from the end. */
  lemma {:induction false} SuffixChar(s: string, e: string, k: int)
    requires EndsWith(s, e) && 1 <= k <= |e|
    ensures s[|s| - k] == e[|e| - k]
  {
    EndsWithSlice(s, e);
    assert s[|s| - k] == s[|s| - |e|..][|e| - k];
  }

  /** No ending apply can produce fits a ".tex" file. */
  lemma {:induction false} TexNotEnding(name: string, e: string)
    requires e in DEFAULT_FILE_ENDINGS || e in [".sh", ".bat"]
    requires EndsWith(name, ".tex")
    ensures !EndsWith(name, e)
  {
    SuffixChar(name, ".tex", 1);
    SuffixChar(name, ".tex", 2);
    SuffixChar(name, ".tex", 4);
    if EndsWith(name, e) {
      SuffixChar(name, e, 1);
      SuffixChar(name, e, 2);
      if |e| >= 4 {
        SuffixChar(name, e, 4);
      }
    }
  }

  /** With the default lists and whatever flags apply saw, a ".tex" file is never
      deleted: it is cleaned instead. */
  lemma {:induction false} TexFilesNotBlackListed(o: Options, name: string)
    requires o.blacklistedFiles == DEFAULT_FILES
    requires o.blacklistedFileEndings == Applied(DEFAULT_FILE_ENDINGS, o.isACM, o.removeShellScripts, o.keepPDFs)
    requires EndsWith(name, ".tex")
    ensures !o.IsBlackListed(name)
  {
    SuffixChar(name, ".tex", 1);
    forall e | e in o.blacklistedFileEndings ensures !EndsWith(name, e) {
      if e != ".pdf" {
        AppliedKeepsOthers(DEFAULT_FILE_ENDINGS, o.isACM, o.removeShellScripts, o.keepPDFs, e);
      }
      TexNotEnding(name, e);
    }
  }
}
