/** One BibTeX entry of MibTeX: the raw fields of the jbibtex parser turned into the
    canonical key, type, author list, title, venue, year and tags, plus the helpers
    that derive file names and URL slugs from them. */
module BibtexEntry {
  import opened JavaStrings
  import opened Lists
  import CitationEntry

  const UNKNOWN_ATTRIBUTE := "unknown"
  const EMPTY_ATTRIBUTE := ""

  /* ================================================================ replaceUmlauts */

  const EN_DASH := "&#8211;"

  /** The umlaut rules of replaceUmlauts. The first moves the brace of `\"{u}` behind the
      quote, so that `\"{u}` is decoded like `\"u`. */
  function DecodeUmlauts(s: string): string {
    UmlautRules(Replace(s, "\\\"{", "{\\\""))
  }

  function UmlautRules(s: string): string {
    var s := Replace(s, "\\\"a", "&auml;");
    var s := Replace(s, "\\\"o", "&ouml;");
    var s := Replace(s, "\\\"u", "&uuml;");
    var s := Replace(s, "\\\"A", "&Auml;");
    var s := Replace(s, "\\\"O", "&Ouml;");
    Replace(s, "\\\"U", "&Uuml;")
  }

  /** The ligature and symbol rules of replaceUmlauts. */
  function DecodeSymbols(s: string): string {
    var s := Replace(s, "\\ss", "&szlig;");
    var s := Replace(s, "\\&\\#536;", "S");
    var s := Replace(s, "\\&", "&amp;");
    Replace(s, "\\#", "#")
  }

  /** The accent commands replaceUmlauts drops or simplifies. */
  function StripAccents(s: string): string {
    var s := Replace(s, "\\c", "");
    var s := Replace(s, "\\v", "");
    var s := Replace(s, "\\u", "");
    var s := Replace(s, "\\l", "l");
    var s := Replace(s, "\\i", "i");
    var s := Replace(s, "\\k", "");
    var s := Replace(s, "\\^", "");
    var s := Replace(s, "\\'", "");
    var s := Replace(s, "\\`", "");
    var s := Replace(s, "\\,", " ");
    var s := Replace(s, "\\~", "");
    Replace(s, "\\\"", "")
  }

  /** `BibtexEntry.replaceUmlauts`: decode the LaTeX escapes, drop the remaining
      backslashes, turn `---` and `--` into an en dash, drop the braces and collapse
      every whitespace run into one space (without trimming). */
  function ReplaceUmlauts(s: string): (r: string)
    ensures '\\' !in r && '{' !in r && '}' !in r
    ensures Collapsed(r)
  {
    CollapseWhitespace(StripMarkup(StripAccents(DecodeSymbols(DecodeUmlauts(s)))))
  }

  /** The middle steps of replaceUmlauts: drop the backslashes left over, turn dashes
      into an en dash and drop the braces. */
  function StripMarkup(decoded: string): (r: string)
    ensures '\\' !in r && '{' !in r && '}' !in r
  {
    var noBackslash := Replace(decoded, "\\", "");
    ReplaceRemovesChar(decoded, '\\', "");
    var dashed := Replace(Replace(noBackslash, "---", EN_DASH), "--", EN_DASH);
    ReplaceKeepsAbsent(noBackslash, "---", EN_DASH, '\\');
    ReplaceKeepsAbsent(Replace(noBackslash, "---", EN_DASH), "--", EN_DASH, '\\');
    var noOpen := Replace(dashed, "{", "");
    ReplaceRemovesChar(dashed, '{', "");
    ReplaceKeepsAbsent(dashed, "{", "", '\\');
    var noBraces := Replace(noOpen, "}", "");
    ReplaceRemovesChar(noOpen, '}', "");
    ReplaceKeepsAbsent(noOpen, "}", "", '\\');
    ReplaceKeepsAbsent(noOpen, "}", "", '{');
    noBraces
  }

  lemma {:induction false} UmlautRulesFree(s: string)
    requires '\\' !in s
    ensures UmlautRules(s) == s
  {
    ReplaceFree(s, "\\\"a", "&auml;");
    ReplaceFree(s, "\\\"o", "&ouml;");
    ReplaceFree(s, "\\\"u", "&uuml;");
    ReplaceFree(s, "\\\"A", "&Auml;");
    ReplaceFree(s, "\\\"O", "&Ouml;");
    ReplaceFree(s, "\\\"U", "&Uuml;");
  }

  lemma {:induction false} SymbolsAndAccentsFree(s: string)
    requires '\\' !in s
    ensures StripAccents(DecodeSymbols(s)) == s
  {
    ReplaceFree(s, "\\ss", "&szlig;");
    ReplaceFree(s, "\\&\\#536;", "S");
    ReplaceFree(s, "\\&", "&amp;");
    ReplaceFree(s, "\\#", "#");
    ReplaceFree(s, "\\c", "");
    ReplaceFree(s, "\\v", "");
    ReplaceFree(s, "\\u", "");
    ReplaceFree(s, "\\l", "l");
    ReplaceFree(s, "\\i", "i");
    ReplaceFree(s, "\\k", "");
    ReplaceFree(s, "\\^", "");
    ReplaceFree(s, "\\'", "");
    ReplaceFree(s, "\\`", "");
    ReplaceFree(s, "\\,", " ");
    ReplaceFree(s, "\\~", "");
    ReplaceFree(s, "\\\"", "");
  }

  /** Every decoding rule needs a backslash. */
  lemma {:induction false} DecodeFree(s: string)
    requires '\\' !in s
    ensures StripAccents(DecodeSymbols(DecodeUmlauts(s))) == s
  {
    ReplaceFree(s, "\\\"{", "{\\\"");
    UmlautRulesFree(s);
    SymbolsAndAccentsFree(s);
  }

  /** Text free of backslashes, braces, dashes and whitespace. */
  predicate Plain(x: string) {
    '\\' !in x && '{' !in x && '}' !in x && '-' !in x && forall c :: c in x ==> !IsSpace(c)
  }

  lemma {:induction false} PlainCollapsed(x: string)
    requires forall c :: c in x ==> !IsSpace(c)
    ensures Collapsed(x)
  {
    forall i | 0 <= i < |x| ensures !IsSpace(x[i]) { assert x[i] in x; }
  }

  /** The umlaut rule for `u` fires on `\"u` and on nothing before it does. */
  lemma {:induction false} UmlautRulesOnU(a: string, b: string)
    requires '\\' !in a && '\\' !in b
    ensures UmlautRules(a + "\\\"u" + b) == a + "&uuml;" + b
  {
    var t := "\\\"u" + b;
    assert a + "\\\"u" + b == a + t;
    assert t[2] == 'u' && t[1..] == "\"u" + b;
    ReplacePeel(a, t, "\\\"a", "&auml;");
    StartsWithSlice(t, "\\\"a");
    ReplaceMiss(t, "\\\"a", "&auml;");
    ReplacePeel(a, t, "\\\"o", "&ouml;");
    StartsWithSlice(t, "\\\"o");
    ReplaceMiss(t, "\\\"o", "&ouml;");
    ReplacePeel(a, t, "\\\"u", "&uuml;");
    ReplaceHead(b, "\\\"u", "&uuml;");
    ReplaceFree(b, "\\\"u", "&uuml;");
    var r := a + "&uuml;" + b;
    assert a + ("&uuml;" + b) == r;
    ReplaceFree(r, "\\\"A", "&Auml;");
    ReplaceFree(r, "\\\"O", "&Ouml;");
    ReplaceFree(r, "\\\"U", "&Uuml;");
  }

  /** The steps after decoding leave text alone that has no backslash, brace or dash. */
  lemma {:induction false} StripMarkupFree(x: string)
    requires '\\' !in x && '{' !in x && '}' !in x && '-' !in x
    ensures StripMarkup(x) == x
  {
    ReplaceFree(x, "\\", "");
    ReplaceFree(x, "---", EN_DASH);
    ReplaceFree(x, "--", EN_DASH);
    ReplaceFree(x, "{", "");
    ReplaceFree(x, "}", "");
  }

  lemma {:induction false} DecodeOnU(a: string, b: string)
    requires '\\' !in a && '\\' !in b
    ensures StripAccents(DecodeSymbols(DecodeUmlauts(a + "\\\"u" + b))) == a + "&uuml;" + b
  {
    var t := "\\\"u" + b;
    assert a + "\\\"u" + b == a + t;
    assert t[2] == 'u' && t[1..] == "\"u" + b;
    ReplacePeel(a, t, "\\\"{", "{\\\"");
    StartsWithSlice(t, "\\\"{");
    ReplaceMiss(t, "\\\"{", "{\\\"");
    UmlautRulesOnU(a, b);
    SymbolsAndAccentsFree(a + "&uuml;" + b);
  }

  /** The first rule moves the brace of `\"{u}` in front of the quote. */
  lemma {:induction false} BraceRuleOnBracedU(a: string, b: string)
    requires '\\' !in a && '\\' !in b
    ensures Replace(a + "\\\"{u}" + b, "\\\"{", "{\\\"") == a + "{\\\"u}" + b
  {
    assert "\\\"{u}" == "\\\"{" + "u}";
    Regroup(a, "\\\"{", "u}", b);
    ReplaceOnce(a, "\\\"{", "u}" + b, "{\\\"");
    assert "{\\\"u}" == "{\\\"" + "u}";
    Regroup(a, "{\\\"", "u}", b);
  }

  lemma {:induction false} DecodeOnBracedU(a: string, b: string)
    requires '\\' !in a && '\\' !in b
    ensures StripAccents(DecodeSymbols(DecodeUmlauts(a + "\\\"{u}" + b))) == a + "{&uuml;}" + b
  {
    BraceRuleOnBracedU(a, b);
    assert "{\\\"u}" == "{" + "\\\"u" + "}";
    Wrap(a, "{", "\\\"u", "}", b);
    UmlautRulesOnU(a + "{", "}" + b);
    assert "{&uuml;}" == "{" + "&uuml;" + "}";
    Wrap(a, "{", "&uuml;", "}", b);
    SymbolsAndAccentsFree(a + "{&uuml;}" + b);
  }

  lemma {:induction false} StripMarkupOnBraces(a: string, b: string)
    requires Plain(a) && Plain(b)
    ensures StripMarkup(a + "{&uuml;}" + b) == a + "&uuml;" + b
  {
    var w := a + "{&uuml;}" + b;
    assert '\\' !in w && '-' !in w;
    ReplaceFree(w, "\\", "");
    ReplaceFree(w, "---", EN_DASH);
    ReplaceFree(w, "--", EN_DASH);
    assert "{&uuml;}" == "" + ['{'] + "&uuml;}";
    DropLone(a, "", '{', "&uuml;}", b);
    assert "" + "&uuml;}" == "&uuml;" + ['}'] + "";
    DropLone(a, "&uuml;", '}', "", b);
    assert "&uuml;" + "" == "&uuml;";
  }

  /** Text whose markup is gone and that holds no whitespace comes out of the last two
      steps of replaceUmlauts unchanged. */
  lemma {:induction false} FinishPlain(x: string, y: string)
    requires (forall c :: c in y ==> !IsSpace(c)) && StripMarkup(x) == y
    ensures CollapseWhitespace(StripMarkup(x)) == y
  {
    PlainCollapsed(y);
    CollapseCollapsed(y);
  }

  /** Because the brace rewrite runs first, `\"u` and `\"{u}` both decode to `&uuml;`,
      for instance in `M\"uller` and `M\"{u}ller`. */
  lemma {:induction false} UmlautWithOrWithoutBraces(a: string, b: string)
    requires Plain(a) && Plain(b)
    ensures ReplaceUmlauts(a + "\\\"u" + b) == a + "&uuml;" + b
    ensures ReplaceUmlauts(a + "\\\"{u}" + b) == a + "&uuml;" + b
  {
    var r := a + "&uuml;" + b;
    assert Plain(r);
    DecodeOnU(a, b);
    StripMarkupFree(r);
    FinishPlain(r, r);
    DecodeOnBracedU(a, b);
    StripMarkupOnBraces(a, b);
    FinishPlain(a + "{&uuml;}" + b, r);
  }

  lemma {:induction false} StripMarkupThreeDashes(a: string, b: string)
    requires Plain(a) && Plain(b)
    ensures StripMarkup(a + "---" + b) == a + EN_DASH + b
  {
    var r := a + EN_DASH + b;
    ReplaceFree(a + "---" + b, "\\", "");
    ReplaceOnce(a, "---", b, EN_DASH);
    assert '{' !in r && '}' !in r && '-' !in r;
    ReplaceFree(r, "--", EN_DASH);
    ReplaceFree(r, "{", "");
    ReplaceFree(r, "}", "");
  }

  /** The `---` rule finds no dash triple in a lone pair of dashes. */
  lemma {:induction false} ThreeDashRuleMisses(a: string, b: string)
    requires Plain(a) && Plain(b)
    ensures Replace(a + "--" + b, "---", EN_DASH) == a + "--" + b
  {
    var t := "--" + b;
    assert a + "--" + b == a + t;
    ReplacePeel(a, t, "---", EN_DASH);
    StartsWithSlice(t, "---");
    if b != [] { assert t[2] == b[0] && b[0] in b; }
    ReplaceStep(t, "---", EN_DASH);
    var t1 := t[1..];
    assert t1 == "-" + b;
    StartsWithSlice(t1, "---");
    if b != [] { assert t1[1] == b[0] && b[0] in b; }
    ReplaceMiss(t1, "---", EN_DASH);
    assert [t[0]] + t1 == t;
  }

  lemma {:induction false} StripMarkupTwoDashes(a: string, b: string)
    requires Plain(a) && Plain(b)
    ensures StripMarkup(a + "--" + b) == a + EN_DASH + b
  {
    var r := a + EN_DASH + b;
    ReplaceFree(a + "--" + b, "\\", "");
    ThreeDashRuleMisses(a, b);
    ReplaceOnce(a, "--", b, EN_DASH);
    assert '{' !in r && '}' !in r;
    ReplaceFree(r, "{", "");
    ReplaceFree(r, "}", "");
  }

  /** `---` and `--` both become one en dash. */
  lemma {:induction false} DashesBecomeEnDash(a: string, b: string)
    requires Plain(a) && Plain(b)
    ensures ReplaceUmlauts(a + "---" + b) == a + EN_DASH + b
    ensures ReplaceUmlauts(a + "--" + b) == a + EN_DASH + b
  {
    var r := a + EN_DASH + b;
    assert Plain(r);
    DecodeFree(a + "---" + b);
    StripMarkupThreeDashes(a, b);
    FinishPlain(a + "---" + b, r);
    DecodeFree(a + "--" + b);
    StripMarkupTwoDashes(a, b);
    FinishPlain(a + "--" + b, r);
  }

  /** `-{}-` passes the dash rules untouched: neither `---` nor `--` occurs in it. */
  lemma {:induction false} DashRulesMissSplitDashes(b: string, pat: string)
    requires Plain(b) && (pat == "---" || pat == "--")
    ensures Replace("-{}-" + b, pat, EN_DASH) == "-{}-" + b
  {
    var t := "-{}-" + b;
    StartsWithSlice(t, pat);
    assert t[1] == '{';
    ReplaceStep(t, pat, EN_DASH);
    assert t[1..] == "{" + ("}" + ("-" + b));
    ReplaceSkip('{', "}" + ("-" + b), pat, EN_DASH);
    ReplaceSkip('}', "-" + b, pat, EN_DASH);
    var u := "-" + b;
    StartsWithSlice(u, pat);
    if b != [] { assert u[1] == b[0] && b[0] in b; }
    ReplaceMiss(u, pat, EN_DASH);
  }

  lemma {:induction false} DropBracesBetweenDashes(a: string, b: string)
    requires Plain(a) && Plain(b)
    ensures Replace(Replace(a + "-{}-" + b, "{", ""), "}", "") == a + "--" + b
  {
    assert "-{}-" == "-" + ['{'] + "}-";
    DropLone(a, "-", '{', "}-", b);
    assert "-" + "}-" == "-" + ['}'] + "-";
    DropLone(a, "-", '}', "-", b);
    assert "-" + "-" == "--";
  }

  lemma {:induction false} StripMarkupJoinsDashes(a: string, b: string)
    requires Plain(a) && Plain(b)
    ensures StripMarkup(a + "-{}-" + b) == a + "--" + b
  {
    var x := a + "-{}-" + b;
    ReplaceFree(x, "\\", "");
    assert x == a + ("-{}-" + b);
    ReplacePeel(a, "-{}-" + b, "---", EN_DASH);
    DashRulesMissSplitDashes(b, "---");
    ReplacePeel(a, "-{}-" + b, "--", EN_DASH);
    DashRulesMissSplitDashes(b, "--");
    DropBracesBetweenDashes(a, b);
  }

  /** Removing braces can join two dashes, so replaceUmlauts is not idempotent:
      `-{}-` becomes `--`, which a second pass turns into an en dash. */
  lemma {:induction false} ReplaceUmlautsNotIdempotent(a: string, b: string)
    requires Plain(a) && Plain(b)
    ensures ReplaceUmlauts(a + "-{}-" + b) == a + "--" + b
    ensures ReplaceUmlauts(ReplaceUmlauts(a + "-{}-" + b)) == a + EN_DASH + b
    ensures ReplaceUmlauts(ReplaceUmlauts(a + "-{}-" + b)) != ReplaceUmlauts(a + "-{}-" + b)
  {
    var x := a + "-{}-" + b;
    assert '\\' !in x;
    DecodeFree(x);
    StripMarkupJoinsDashes(a, b);
    FinishPlain(x, a + "--" + b);
    DashesBecomeEnDash(a, b);
  }

  lemma {:induction false} ThreeDashesHaveTwo(s: string)
    requires Contains(s, "---")
    ensures Contains(s, "--")
  {
    var i := IndexOf(s, "---");
    var t := s[i..];
    assert StartsWith(t, "---");
    assert t[0] == '-' && StartsWith(t[1..], "---"[1..]);
    assert t[1..][0] == '-';
    assert StartsWith(t[1..][1..], []);
    assert StartsWith(t[1..], "--"[1..]);
    assert StartsWith(t, "--");
    assert OccursAt(s, "--", i);
  }

  /** Text that replaceUmlauts produced is a fixpoint of it unless it holds `--`: every
      earlier pattern needs a backslash, but removing braces can join two dashes. */
  lemma {:induction false} ReplaceUmlautsFixpoint(s: string)
    requires '\\' !in s && '{' !in s && '}' !in s && Collapsed(s)
    requires !Contains(s, "--")
    ensures ReplaceUmlauts(s) == s
  {
    DecodeFree(s);
    ReplaceFree(s, "\\", "");
    if Contains(s, "---") { ThreeDashesHaveTwo(s); }
    ReplaceAbsent(s, "---", EN_DASH);
    ReplaceAbsent(s, "--", EN_DASH);
    ReplaceFree(s, "{", "");
    ReplaceFree(s, "}", "");
    CollapseCollapsed(s);
  }

  /** Hence replaceUmlauts is idempotent on every input whose image holds no `--`. */
  lemma {:induction false} ReplaceUmlautsIdempotent(s: string)
    requires !Contains(ReplaceUmlauts(s), "--")
    ensures ReplaceUmlauts(ReplaceUmlauts(s)) == ReplaceUmlauts(s)
  {
    ReplaceUmlautsFixpoint(ReplaceUmlauts(s));
  }

  /* ================================================================ parseAuthor */

  /** A `"; "` separator found at index `i` really is one. */
  lemma {:induction false} SeparatorAt(a: string, i: int)
    requires OccursAt(a, "; ", i)
    ensures i + 2 <= |a| && a[i] == ';' && a[i + 1] == ' '
  {
    StartsWithSlice(a[i..], "; ");
  }

  /** The name around the first comma is delimited by the `"; "` before and after it. */
  lemma {:induction false} SeparatorsAroundComma(a: string, comma: int)
    requires 0 <= comma < |a| && a[comma] == ','
    ensures var last := LastIndexOfFrom(a, "; ", comma);
      last == -1 || (0 <= last && last + 2 <= comma)
    ensures var next := IndexOfFrom(a, "; ", comma);
      next == -1 || (comma < next && next + 2 <= |a|)
  {
    var last := LastIndexOfFrom(a, "; ", comma);
    if last >= 0 { SeparatorAt(a, last); }
    var next := IndexOfFrom(a, "; ", comma);
    if next >= 0 { SeparatorAt(a, next); }
  }

  /** One pass of the comma-swap loop of parseAuthor: the name holding the first comma,
      `Last, First`, becomes `First Last`; the name is delimited by the `"; "`
      separators around the comma. The pass keeps the length; SwapFirstCommaCounts
      shows it trades exactly one comma for one space, so the loop terminates. */
  function SwapFirstComma(a: string): (r: string)
    requires ',' in a
    ensures |r| == |a|
  {
    ContainsSingle(a, ',');
    var comma := IndexOf(a, ",");
    OccursAtSingle(a, ',', comma);
    SeparatorsAroundComma(a, comma);
    var last := LastIndexOfFrom(a, "; ", comma);
    var before := if last + 2 < 2 then 0 else last + 2;
    var next := IndexOfFrom(a, "; ", comma);
    var after := if next < 0 then |a| else next;
    SwapPieces(a, before, comma, after);
    SwapAround(a, before, comma, after)
  }

  /** A swap removes one comma and adds one space; every other char is kept. */
  lemma {:induction false} SwapFirstCommaCounts(a: string)
    requires ',' in a
    ensures var r := SwapFirstComma(a);
      && multiset(r) == multiset(a) - multiset{','} + multiset{' '}
      && Count(r, ',') + 1 == Count(a, ',')
  {
    ContainsSingle(a, ',');
    var comma := IndexOf(a, ",");
    OccursAtSingle(a, ',', comma);
    SeparatorsAroundComma(a, comma);
    var last := LastIndexOfFrom(a, "; ", comma);
    var before := if last + 2 < 2 then 0 else last + 2;
    var next := IndexOfFrom(a, "; ", comma);
    var after := if next < 0 then |a| else next;
    SwapPieces(a, before, comma, after);
    SwapFirstCommaIs(a, comma, before, after);
    assert a[comma] == ',';
    assert ',' in multiset(a);
    CountTraded(a, SwapAround(a, before, comma, after));
  }

  /** The name `a[before..comma]` moved behind the name `a[comma + 1..after]`. */
  function SwapAround(a: string, before: int, comma: int, after: int): string
    requires 0 <= before <= comma < after <= |a|
  {
    a[..before] + a[comma + 1..after] + " " + a[before..comma] + a[after..]
  }

  lemma {:induction false} SwapPieces(a: string, before: int, comma: int, after: int)
    requires 0 <= before <= comma < after <= |a| && a[comma] == ','
    ensures var r := SwapAround(a, before, comma, after);
      multiset(r) == multiset(a) - multiset{','} + multiset{' '} && |r| == |a|
  {
    assert a == a[..before] + a[before..comma] + [','] + a[comma + 1..after] + a[after..];
  }

  lemma {:induction false} CountTraded(a: string, r: string)
    requires ',' in multiset(a) && multiset(r) == multiset(a) - multiset{','} + multiset{' '}
    ensures Count(r, ',') + 1 == Count(a, ',')
  {
    CountMultiset(a, ',');
    CountMultiset(r, ',');
  }

  /** The whole comma-swap loop: swap until no comma is left. */
  function SwapCommas(a: string): (r: string)
    ensures ',' !in r && |r| == |a|
    decreases Count(a, ',')
  {
    if ',' in a then SwapFirstCommaCounts(a); SwapCommas(SwapFirstComma(a)) else a
  }

  /** The author field as parseAuthor leaves it in `author`: decoded, with `" and "`
      turned into `"; "`, every name swapped to `First Last`, and the separators turned
      into `", "`. */
  function AuthorString(raw: string): string {
    Replace(SwapCommas(Replace(ReplaceUmlauts(raw), " and ", "; ")), "; ", ", ")
  }

  /** The comma-swap loop of parseAuthor: while a comma is left, the name holding the
      first comma, delimited by the `"; "` separators around it, is turned from
      `Last, First` into `First Last`. */
  method SwapNames(s: string) returns (r: string)
    ensures r == SwapCommas(s)
  {
    r := s;
    while ',' in r
      invariant SwapCommas(r) == SwapCommas(s)
      decreases Count(r, ',')
    {
      ContainsSingle(r, ',');
      var comma := IndexOf(r, ",");
      var before := LastIndexOfFrom(r, "; ", comma) + 2;
      if before < 2 {
        before := 0;
      }
      var after := IndexOfFrom(r, "; ", comma);
      if after < 0 {
        after := |r|;
      }
      SwapStep(r, comma, before, after);
      r := r[..before] + r[comma + 1..after] + " " + r[before..comma] + r[after..];
    }
  }

  /** The tokenizer loop of parseAuthor and parseTags: each token of a StringTokenizer
      on ",", trimmed, in order. */
  method TrimmedTokenList(s: string) returns (ts: seq<string>)
    ensures ts == TrimmedTokens(s)
  {
    var tokens := Tokens(s, ',');
    ts := [];
    var i := 0;
    while i < |tokens|
      invariant 0 <= i <= |tokens|
      invariant ts == TrimAll(tokens[..i])
    {
      TrimAllPrefix(tokens, i);
      ts := ts + [Trim(tokens[i])];
      i := i + 1;
    }
    assert tokens[..i] == tokens;
  }

  /** The stages of parseAuthor end in AuthorString and AuthorNames. */
  lemma {:induction false} AuthorStages(raw: string, separated: string, swapped: string)
    requires separated == Replace(ReplaceUmlauts(raw), " and ", "; ")
    requires swapped == SwapCommas(separated)
    ensures Replace(swapped, "; ", ", ") == AuthorString(raw)
    ensures TrimAll(Tokens(AuthorString(raw), ',')) == AuthorNames(raw)
  {
  }

  /** The tokens a StringTokenizer on "," yields, each trimmed: how parseAuthor and
      parseTags split a list. */
  function TrimmedTokens(s: string): (ts: seq<string>)
    ensures forall t :: t in ts ==> Trimmed(t) && ',' !in t
  {
    var tokens := Tokens(s, ',');
    assert forall i :: 0 <= i < |tokens| ==> ',' !in tokens[i] by {
      forall i | 0 <= i < |tokens| ensures ',' !in tokens[i] { assert tokens[i] in tokens; }
    }
    TrimAll(tokens)
  }

  /** The names parseAuthor appends to `authorList`: the comma-separated tokens of
      AuthorString, each trimmed. */
  function AuthorNames(raw: string): (names: seq<string>)
    ensures forall n :: n in names ==> Trimmed(n) && ',' !in n
  {
    TrimmedTokens(AuthorString(raw))
  }

  /** The shape `pre + last + "," + first + post` of a text whose first comma ends
      the surname `last` and whose separators are the ones around the name. */
  predicate NameAt(pre: string, last: string, first: string, post: string) {
    && (pre == [] || (|pre| >= 2 && pre[|pre| - 2..] == "; "))
    && ',' !in pre && ',' !in last && ';' !in last && ';' !in first
    && (post == [] || (|post| >= 2 && post[..2] == "; "))
  }

  /** On a text of that shape, one swap turns `last,first` into `first last`. */
  lemma {:induction false} SwapFirstCommaOn(pre: string, last: string, first: string, post: string)
    requires NameAt(pre, last, first, post)
    ensures SwapFirstComma(pre + last + "," + first + post) == pre + first + " " + last + post
  {
    SwapAtName(pre, last, first, post);
    SwapAroundName(pre + last + "," + first + post, pre, last, first, post);
  }

  /** On such a text, the pass swaps around the comma that ends `last`. */
  lemma {:induction false} SwapAtName(pre: string, last: string, first: string, post: string)
    requires NameAt(pre, last, first, post)
    ensures |pre| + |last| + 1 + |first| <= |pre + last + "," + first + post|
    ensures SwapFirstComma(pre + last + "," + first + post)
      == SwapAround(pre + last + "," + first + post, |pre|, |pre| + |last|, |pre| + |last| + 1 + |first|)
  {
    var a := pre + last + "," + first + post;
    BoundsOfName(a, pre, last, first, post);
    SwapAtBounds(a, |pre|, |pre| + |last|, |pre| + |last| + 1 + |first|);
  }

  /** The name of such a text lies between the separators, holds no `;`, and its comma
      is the first one of the text. */
  lemma {:induction false} BoundsOfName(a: string, pre: string, last: string, first: string, post: string)
    requires NameAt(pre, last, first, post) && a == pre + last + "," + first + post
    ensures |pre| + |last| + 1 + |first| <= |a|
    ensures a[|pre| + |last|] == ',' && ',' !in a[..|pre| + |last|]
    ensures ';' !in a[|pre|..|pre| + |last|] && ';' !in a[|pre| + |last| + 1..|pre| + |last| + 1 + |first|]
    ensures |pre| == 0 || (|pre| >= 2 && a[|pre| - 2] == ';' && a[|pre| - 1] == ' ')
    ensures var after := |pre| + |last| + 1 + |first|;
      after == |a| || (after + 2 <= |a| && a[after] == ';' && a[after + 1] == ' ')
  {
    var comma := |pre| + |last|;
    var after := comma + 1 + |first|;
    assert a[..comma] == pre + last;
    assert a[|pre|..comma] == last;
    assert a[comma + 1..after] == first;
    if pre != [] {
      assert pre[|pre| - 2..][0] == ';' && pre[|pre| - 2..][1] == ' ';
    }
    if post != [] {
      assert post[..2][0] == ';' && post[..2][1] == ' ';
      assert a[after..] == post;
    }
  }

  /** A pass on a text whose first comma is at `comma`, with no `;` in the name around it,
      which starts at the text's start or after a `"; "` and ends at the text's end or
      before a `"; "`, swaps around exactly that name. */
  lemma {:induction false} SwapAtBounds(a: string, before: int, comma: int, after: int)
    requires 0 <= before <= comma < after <= |a| && a[comma] == ',' && ',' !in a[..comma]
    requires ';' !in a[before..comma] && ';' !in a[comma + 1..after]
    requires before == 0 || (before >= 2 && a[before - 2] == ';' && a[before - 1] == ' ')
    requires after == |a| || (after + 2 <= |a| && a[after] == ';' && a[after + 1] == ' ')
    ensures SwapFirstComma(a) == SwapAround(a, before, comma, after)
  {
    IndexOfSingle(a, ',', comma);
    SeparatorBeforeAt(a, before, comma);
    SeparatorAfterAt(a, comma, after);
    SwapFirstCommaIs(a, comma, before, after);
  }

  /** The `"; "` before the comma is the one that ends just before the name. */
  lemma {:induction false} SeparatorBeforeAt(a: string, before: int, comma: int)
    requires 0 <= before <= comma < |a| && a[comma] == ',' && ';' !in a[before..comma]
    requires before == 0 || (before >= 2 && a[before - 2] == ';' && a[before - 1] == ' ')
    ensures LastIndexOfFrom(a, "; ", comma) == if before == 0 then -1 else before - 2
  {
    if before == 0 {
      assert a[0..comma + 1] == a[before..comma] + [a[comma]];
      LastIndexOfFromLast(a, "; ", comma, -1);
    } else {
      var k := before - 2;
      assert a[k..][..2] == "; ";
      StartsWithSlice(a[k..], "; ");
      assert a[k + 1..comma + 1] == [a[k + 1]] + a[before..comma] + [a[comma]];
      LastIndexOfFromLast(a, "; ", comma, k);
    }
  }

  /** The `"; "` after the comma is the one that starts just after the name. */
  lemma {:induction false} SeparatorAfterAt(a: string, comma: int, after: int)
    requires 0 <= comma < after <= |a| && a[comma] == ',' && ';' !in a[comma + 1..after]
    requires after == |a| || (after + 2 <= |a| && a[after] == ';' && a[after + 1] == ' ')
    ensures IndexOfFrom(a, "; ", comma) == if after == |a| then -1 else after
  {
    assert a[comma..after] == [a[comma]] + a[comma + 1..after];
    if after < |a| {
      assert a[after..][..2] == "; ";
      StartsWithSlice(a[after..], "; ");
    }
    IndexOfFromFirst(a, "; ", comma, after);
  }

  /** Unfolds one swap once the comma and both separators are known. */
  lemma {:induction false} SwapFirstCommaIs(a: string, comma: int, before: int, after: int)
    requires 0 <= before <= comma < after <= |a| && ',' in a && IndexOf(a, ",") == comma
    requires var l := LastIndexOfFrom(a, "; ", comma); before == if l + 2 < 2 then 0 else l + 2
    requires var n := IndexOfFrom(a, "; ", comma); after == if n < 0 then |a| else n
    ensures SwapFirstComma(a) == SwapAround(a, before, comma, after)
  {
  }

  /** One pass of the loop in place: the indices it computes are in range, the pass is
      SwapFirstComma, so the rest of the loop still ends in SwapCommas of the text, and
      one comma fewer is left. */
  lemma {:induction false} SwapStep(a: string, comma: int, before: int, after: int)
    requires ',' in a && 0 <= comma <= |a| && IndexOf(a, ",") == comma
    requires var l := LastIndexOfFrom(a, "; ", comma); before == if l + 2 < 2 then 0 else l + 2
    requires var n := IndexOfFrom(a, "; ", comma); after == if n < 0 then |a| else n
    ensures 0 <= before <= comma < after <= |a|
    ensures SwapCommas(SwapAround(a, before, comma, after)) == SwapCommas(a)
    ensures Count(SwapAround(a, before, comma, after), ',') < Count(a, ',')
  {
    ContainsSingle(a, ',');
    OccursAtSingle(a, ',', comma);
    SeparatorsAroundComma(a, comma);
    SwapFirstCommaCounts(a);
    SwapFirstCommaIs(a, comma, before, after);
  }

  lemma {:induction false} SwapAroundName(a: string, pre: string, last: string, first: string, post: string)
    requires a == pre + last + "," + first + post
    ensures SwapAround(a, |pre|, |pre| + |last|, |pre| + |last| + 1 + |first|) == pre + first + " " + last + post
  {
    var comma := |pre| + |last|;
    var after := comma + 1 + |first|;
    assert a[..|pre|] == pre;
    assert a[comma + 1..after] == first;
    assert a[|pre|..comma] == last;
    assert a[after..] == post;
  }

  /* ---------------------------------------------------------------- parseAuthor examples */

  /** A one-word name part: no blank or control char, no separator and no markup. */
  predicate Word(w: string) {
    && w != []
    && forall c :: c in w ==> c > ' ' && c != ',' && c != ';' && c != '\\' && c != '{' && c != '}' && c != '-'
  }

  lemma {:induction false} WordCollapsed(w: string)
    requires forall c :: c in w ==> c > ' '
    ensures Collapsed(w)
  {
    PlainCollapsed(w);
  }

  /** `" and "` can only start at a blank that is followed by `"and "`. */
  lemma {:induction false} NoAndIn(s: string, k: int)
    requires forall i :: 0 <= i < k && i < |s| && s[i] == ' ' ==> !StartsWith(s[i + 1..], "and ")
    ensures NoMatchBefore(s, " and ", k)
  {
    forall i | 0 <= i < k && i <= |s| ensures !StartsWith(s[i..], " and ") {
      if i < |s| {
        assert s[i..][1..] == s[i + 1..];
      }
    }
  }

  /** A blank-free word other than "and", followed by a blank, does not begin with
      `"and "`. */
  lemma {:induction false} NoAndAt(w: string, rest: string)
    requires ' ' !in w && w != "and" && rest != [] && rest[0] == ' '
    ensures !StartsWith(w + rest, "and ")
  {
    StartsWithSlice(w + rest, "and ");
    if |w + rest| >= 4 {
      assert (w + rest)[..4] != "and " by {
        if |w| >= 4 {
          assert (w + rest)[3] == w[3] && w[3] in w;
        } else if |w| == 3 {
          assert (w + rest)[..4][..3] == w;
        } else {
          assert (w + rest)[|w|] == ' ';
        }
      }
    }
  }

  /** A blank-free word does not begin with `"and "`. */
  lemma {:induction false} NoAndInWord(w: string)
    requires ' ' !in w
    ensures !StartsWith(w, "and ")
  {
    StartsWithSlice(w, "and ");
    if |w| >= 4 {
      assert w[3] in w;
    }
  }

  lemma {:induction false} TwoAuthorsKeepDecoded(l1: string, f1: string, l2: string, f2: string)
    requires Word(l1) && Word(f1) && Word(l2) && Word(f2)
    ensures var raw := l1 + ", " + f1 + " and " + l2 + ", " + f2;
      ReplaceUmlauts(raw) == raw
  {
    var raw := l1 + ", " + f1 + " and " + l2 + ", " + f2;
    TwoAuthorsCollapsed(l1, f1, l2, f2);
    TwoAuthorsUnmarked(l1, f1, l2, f2);
    ContainsHead(raw, "--");
    ReplaceUmlautsFixpoint(raw);
  }

  /** Two authors `Last, First` joined by `" and "` hold single blanks only. */
  lemma {:induction false} TwoAuthorsCollapsed(l1: string, f1: string, l2: string, f2: string)
    requires Word(l1) && Word(f1) && Word(l2) && Word(f2)
    ensures Collapsed(l1 + ", " + f1 + " and " + l2 + ", " + f2)
  {
    var p1 := l1 + ",";
    var p2 := l2 + ",";
    WordCollapsed(p1); WordCollapsed(f1); WordCollapsed("and"); WordCollapsed(p2); WordCollapsed(f2);
    assert f1[0] in f1 && f1[|f1| - 1] in f1 && f2[0] in f2 && p2[0] in l2;
    CollapsedJoin(p1, f1);
    CollapsedJoin(p1 + " " + f1, "and");
    CollapsedJoin(p1 + " " + f1 + " " + "and", p2);
    CollapsedJoin(p1 + " " + f1 + " " + "and" + " " + p2, f2);
    assert p1 + " " + f1 + " " + "and" + " " + p2 + " " + f2 == l1 + ", " + f1 + " and " + l2 + ", " + f2;
  }

  /** Two authors made of words hold no backslash, brace or dash. */
  lemma {:induction false} TwoAuthorsUnmarked(l1: string, f1: string, l2: string, f2: string)
    requires Word(l1) && Word(f1) && Word(l2) && Word(f2)
    ensures var raw := l1 + ", " + f1 + " and " + l2 + ", " + f2;
      '\\' !in raw && '{' !in raw && '}' !in raw && '-' !in raw
  {
  }

  lemma {:induction false} TwoAuthorsSeparated(l1: string, f1: string, l2: string, f2: string)
    requires ' ' !in l1 && ' ' !in f1 && ' ' !in l2 && ' ' !in f2 && f1 != "and"
    ensures Replace(l1 + ", " + f1 + " and " + l2 + ", " + f2, " and ", "; ")
      == l1 + ", " + f1 + "; " + l2 + ", " + f2
  {
    var x := l1 + ", " + f1;
    var y := l2 + ", " + f2;
    FirstNameNoAnd(l1, f1, " and " + y);
    LastNameNoAnd(l2, f2);
    SeparatedVia(x, y);
    SeparatedShape(l1, f1, l2, f2);
  }

  lemma {:induction false} SeparatedVia(x: string, y: string)
    requires Replace(x + (" and " + y), " and ", "; ") == x + Replace(" and " + y, " and ", "; ")
    requires Replace(y, " and ", "; ") == y
    ensures Replace(x + (" and " + y), " and ", "; ") == x + ("; " + y)
  {
    ReplaceHead(y, " and ", "; ");
  }

  lemma {:induction false} SeparatedShape(l1: string, f1: string, l2: string, f2: string)
    ensures l1 + ", " + f1 + " and " + l2 + ", " + f2 == (l1 + ", " + f1) + (" and " + (l2 + ", " + f2))
    ensures l1 + ", " + f1 + "; " + l2 + ", " + f2 == (l1 + ", " + f1) + ("; " + (l2 + ", " + f2))
  {
  }

  /** Before `" and "`, the first author `Last, First` holds no match. */
  lemma {:induction false} FirstNameNoAnd(l: string, f: string, t: string)
    requires ' ' !in l && ' ' !in f && f != "and" && t != [] && t[0] == ' '
    ensures Replace(l + ", " + f + t, " and ", "; ") == l + ", " + f + Replace(t, " and ", "; ")
  {
    var x := l + ", " + f;
    var s := x + t;
    forall i | 0 <= i < |x| && i != |l| + 1 ensures s[i] != ' ' {
      if i < |l| { assert s[i] == l[i] && l[i] in l; }
      if i > |l| + 1 { assert s[i] == f[i - |l| - 2] && f[i - |l| - 2] in f; }
    }
    assert s[|l| + 2..] == f + t;
    NoAndAt(f, t);
    NoAndIn(s, |x|);
    ReplacePrefixFree(s, |x|, " and ", "; ");
    assert s[..|x|] == x && s[|x|..] == t;
  }

  /** The last author `Last, First` holds no `" and "`. */
  lemma {:induction false} LastNameNoAnd(l: string, f: string)
    requires ' ' !in l && ' ' !in f
    ensures Replace(l + ", " + f, " and ", "; ") == l + ", " + f
  {
    var y := l + ", " + f;
    forall i | 0 <= i < |y| && i != |l| + 1 ensures y[i] != ' ' {
      if i < |l| { assert y[i] == l[i] && l[i] in l; }
      if i > |l| + 1 { assert y[i] == f[i - |l| - 2] && f[i - |l| - 2] in f; }
    }
    assert y[|l| + 2..] == f;
    NoAndInWord(f);
    NoAndIn(y, |y|);
    ReplacePrefixFree(y, |y|, " and ", "; ");
    assert y[..|y|] == y && y[|y|..] == [];
  }

  lemma {:induction false} TwoAuthorsFirstSwap(l1: string, f1: string, l2: string, f2: string)
    requires ',' !in l1 && ';' !in l1 && ';' !in f1
    ensures SwapFirstComma(l1 + ", " + f1 + "; " + l2 + ", " + f2)
      == " " + f1 + " " + l1 + "; " + l2 + ", " + f2
  {
    var post := "; " + l2 + ", " + f2;
    assert post[..2] == "; ";
    FirstSwapShape(l1, f1, l2, f2);
    SwapFirstCommaOn([], l1, " " + f1, post);
  }

  /** The two author names split around the first comma, before and after the swap. */
  lemma {:induction false} FirstSwapShape(l1: string, f1: string, l2: string, f2: string)
    ensures l1 + ", " + f1 + "; " + l2 + ", " + f2 == [] + l1 + "," + (" " + f1) + ("; " + l2 + ", " + f2)
    ensures [] + (" " + f1) + " " + l1 + ("; " + l2 + ", " + f2) == " " + f1 + " " + l1 + "; " + l2 + ", " + f2
  {
  }

  lemma {:induction false} TwoAuthorsSecondSwap(l1: string, f1: string, l2: string, f2: string)
    requires ',' !in f1 && ',' !in l1 && ',' !in l2 && ';' !in l2 && ';' !in f2
    ensures SwapFirstComma(" " + f1 + " " + l1 + "; " + l2 + ", " + f2)
      == " " + f1 + " " + l1 + ";  " + f2 + " " + l2
  {
    var pre := " " + f1 + " " + l1 + "; ";
    assert pre[|pre| - 2..] == "; ";
    SecondSwapShape(l1, f1, l2, f2);
    SwapFirstCommaOn(pre, l2, " " + f2, []);
  }

  /** The swapped first name and the second name split around its comma, before and after
      the swap. */
  lemma {:induction false} SecondSwapShape(l1: string, f1: string, l2: string, f2: string)
    ensures " " + f1 + " " + l1 + "; " + l2 + ", " + f2 == (" " + f1 + " " + l1 + "; ") + l2 + "," + (" " + f2) + []
    ensures (" " + f1 + " " + l1 + "; ") + (" " + f2) + " " + l2 + [] == " " + f1 + " " + l1 + ";  " + f2 + " " + l2
  {
  }

  lemma {:induction false} TwoAuthorsSwapped(l1: string, f1: string, l2: string, f2: string)
    requires Word(l1) && Word(f1) && Word(l2) && Word(f2)
    ensures SwapCommas(l1 + ", " + f1 + "; " + l2 + ", " + f2)
      == " " + f1 + " " + l1 + ";  " + f2 + " " + l2
  {
    var a := l1 + ", " + f1 + "; " + l2 + ", " + f2;
    var z := " " + f1 + " " + l1 + "; " + l2 + ", " + f2;
    var w := " " + f1 + " " + l1 + ";  " + f2 + " " + l2;
    assert ',' !in l1 && ';' !in l1 && ';' !in f1 && ',' !in f1;
    assert ',' !in l2 && ';' !in l2 && ';' !in f2 && ',' !in f2;
    TwoAuthorsFirstSwap(l1, f1, l2, f2);
    TwoAuthorsSecondSwap(l1, f1, l2, f2);
    assert a[|l1|] == ',' && z[|z| - |f2| - 2] == ',';
    NoCommaSwapped(l1, f1, l2, f2);
    assert SwapCommas(a) == SwapCommas(z) == SwapCommas(w) == w;
  }

  /** Two swapped names hold no comma when the names hold none. */
  lemma {:induction false} NoCommaSwapped(l1: string, f1: string, l2: string, f2: string)
    requires ',' !in l1 && ',' !in f1 && ',' !in l2 && ',' !in f2
    ensures ',' !in " " + f1 + " " + l1 + ";  " + f2 + " " + l2
  {
    var front := " " + f1 + " " + l1;
    var back := f2 + " " + l2;
    assert ',' !in front && ',' !in back;
    assert " " + f1 + " " + l1 + ";  " + f2 + " " + l2 == front + ";  " + back;
  }

  /** The separators `"; "` between the swapped names become `", "`. */
  lemma {:induction false} SeparatorsJoined(a: string, b: string)
    requires ';' !in a && ';' !in b
    ensures Replace(a + ("; " + b), "; ", ", ") == a + (", " + b)
  {
    ReplacePeel(a, "; " + b, "; ", ", ");
    ReplaceHead(b, "; ", ", ");
    ReplaceFree(b, "; ", ", ");
  }

  lemma {:induction false} TwoNamesSplit(a: string, b: string)
    requires ',' !in a && ',' !in b && a != []
    ensures Tokens(a + (", " + b), ',') == [a, " " + b]
  {
    var c := " " + b;
    assert a + (", " + b) == a + [','] + c;
    SplitFirst(a, ',', c);
    SplitNone(c, ',');
    assert Split(a + (", " + b), ',') == [a, c];
    NonEmptyKeeps([a, c]);
  }

  lemma {:induction false} TwoNamesTrimmed(n1: string, n2: string)
    requires Trimmed(n1) && Trimmed(n2)
    ensures TrimAll([" " + n1, " " + (" " + n2)]) == [n1, n2]
  {
    TrimBlank(n1);
    TrimBlank(" " + n2);
    TrimBlank(n2);
  }

  lemma {:induction false} WordFacts(w: string)
    requires Word(w)
    ensures ' ' !in w && ',' !in w && ';' !in w && w[0] > ' ' && w[|w| - 1] > ' '
  {
    assert w[0] in w && w[|w| - 1] in w;
  }

  /** The swapped name `" First Last"` holds no separator and is trimmed inside. */
  lemma {:induction false} NameFree(f: string, l: string)
    requires ',' !in f && ';' !in f && ',' !in l && ';' !in l
    requires f != [] && l != [] && f[0] > ' ' && l[|l| - 1] > ' '
    ensures var n := f + " " + l; ',' !in " " + n && ';' !in " " + n && Trimmed(n)
  {
  }

  /** The steps of AuthorNames, one equation each. */
  lemma {:induction false} AuthorNamesVia(raw: string, m: string, w: string, j: string, names: seq<string>)
    requires Replace(ReplaceUmlauts(raw), " and ", "; ") == m && SwapCommas(m) == w
    requires Replace(w, "; ", ", ") == j && TrimAll(Tokens(j, ',')) == names
    ensures AuthorNames(raw) == names
  {
  }

  lemma {:induction false} TwoNamesShape(l1: string, f1: string, l2: string, f2: string)
    ensures " " + f1 + " " + l1 + ";  " + f2 + " " + l2
      == (" " + (f1 + " " + l1)) + ("; " + (" " + (f2 + " " + l2)))
  {
  }

  /** `Smith, John and Doe, Jane` yields the names `John Smith` and `Jane Doe`: the
      authors are split at " and " and each `Last, First` is swapped. */
  lemma {:induction false} TwoAuthorsNames(l1: string, f1: string, l2: string, f2: string)
    requires Word(l1) && Word(f1) && Word(l2) && Word(f2) && f1 != "and"
    ensures AuthorNames(l1 + ", " + f1 + " and " + l2 + ", " + f2) == [f1 + " " + l1, f2 + " " + l2]
  {
    var raw := l1 + ", " + f1 + " and " + l2 + ", " + f2;
    var m := l1 + ", " + f1 + "; " + l2 + ", " + f2;
    var n1 := f1 + " " + l1;
    var n2 := f2 + " " + l2;
    var a := " " + n1;
    var b := " " + n2;
    TwoAuthorsKeepDecoded(l1, f1, l2, f2);
    TwoAuthorsSeparated(l1, f1, l2, f2);
    TwoAuthorsSwapped(l1, f1, l2, f2);
    TwoNamesShape(l1, f1, l2, f2);
    WordFacts(l1); WordFacts(f1); WordFacts(l2); WordFacts(f2);
    NameFree(f1, l1);
    NameFree(f2, l2);
    SeparatorsJoined(a, b);
    TwoNamesSplit(a, b);
    TwoNamesTrimmed(n1, n2);
    AuthorNamesVia(raw, m, a + ("; " + b), a + (", " + b), [n1, n2]);
  }

  /** A name written `First Last`, such as `Jane Doe`, is kept as it is. */
  lemma {:induction false} OneAuthorName(f: string, l: string)
    requires Word(f) && Word(l)
    ensures AuthorNames(f + " " + l) == [f + " " + l]
  {
    var raw := f + " " + l;
    WordFacts(f); WordFacts(l);
    OneAuthorKeepDecoded(f, l);
    OneNameNoAnd(f, l);
    NameFree(f, l);
    assert ',' !in raw && ';' !in raw;
    ReplaceFree(raw, "; ", ", ");
    SplitNone(raw, ',');
    NonEmptyKeeps([raw]);
    AuthorNamesVia(raw, raw, raw, raw, [raw]);
  }

  lemma {:induction false} OneAuthorKeepDecoded(f: string, l: string)
    requires Word(f) && Word(l)
    ensures ReplaceUmlauts(f + " " + l) == f + " " + l
  {
    var raw := f + " " + l;
    WordCollapsed(f); WordCollapsed(l);
    assert f[|f| - 1] in f && l[0] in l;
    CollapsedJoin(f, l);
    ContainsHead(raw, "--");
    ReplaceUmlautsFixpoint(raw);
  }

  /** `First Last` holds no `" and "`. */
  lemma {:induction false} OneNameNoAnd(f: string, l: string)
    requires ' ' !in f && ' ' !in l
    ensures Replace(f + " " + l, " and ", "; ") == f + " " + l
  {
    var y := f + " " + l;
    forall i | 0 <= i < |y| && i != |f| ensures y[i] != ' ' {
      if i < |f| { assert y[i] == f[i] && f[i] in f; }
      if i > |f| { assert y[i] == l[i - |f| - 1] && l[i - |f| - 1] in l; }
    }
    assert y[|f| + 1..] == l;
    NoAndInWord(l);
    NoAndIn(y, |y|);
    ReplacePrefixFree(y, |y|, " and ", "; ");
    assert y[..|y|] == y && y[|y|..] == [];
  }

  /* ---------------------------------------------------------------- year folder and file names */

  /** `FileUtils.concat` for two path parts, with `/` as the separator. */
  function Join(dir: string, name: string): string {
    dir + "/" + name
  }

  /** The decade folder `(year - year % 10) + "s"`, such as `1980s`. */
  function Decade(year: nat): string {
    NatToString(year - year % 10) + "s"
  }

  /** getYearPath: one folder for all years before 1970, one per decade up to 1989,
      and a decade folder with one sub-folder per year from 1990 on. */
  function YearPath(year: int): string {
    if year < 1970 then "0000s"
    else if year < 1990 then Decade(year)
    else Join(Decade(year), NatToString(year))
  }

  /** The folder class of a year, an independent statement of which years share a
      folder: 0 for every year before 1970, the decade number for 1970-1989, and the
      year itself from 1990 on. */
  function YearFolder(year: int): int {
    if year < 1970 then 0 else if year < 1990 then year / 10 else year
  }

  lemma {:induction false} DecadeHasNoSlash(year: nat)
    ensures '/' !in Decade(year)
  {
  }

  lemma {:induction false} YearPathSlash(year: int)
    ensures '/' in YearPath(year) <==> year >= 1990
  {
    if year >= 1990 {
      assert YearPath(year)[|Decade(year)|] == '/';
    } else if year >= 1970 {
      DecadeHasNoSlash(year);
    }
  }

  lemma {:induction false} YearPathZero(year: int)
    ensures YearPath(year) == "0000s" <==> year < 1970
  {
    if year >= 1970 {
      YearPathSlash(year);
      if year < 1990 {
        var d: nat := year - year % 10;
        NatToStringNoLeadingZero(d);
        assert Decade(year)[0] == NatToString(d)[0];
      }
    }
  }

  lemma {:induction false} DecadeInjective(y1: nat, y2: nat)
    requires Decade(y1) == Decade(y2)
    ensures y1 / 10 == y2 / 10
  {
    var a := NatToString(y1 - y1 % 10);
    var b := NatToString(y2 - y2 % 10);
    assert (a + "s")[..|a|] == a && (b + "s")[..|b|] == b;
    NatToStringInjective(y1 - y1 % 10, y2 - y2 % 10);
  }

  /** From 1990 on, the folder is the decade digits, `s`, and `/` with the year. */
  lemma {:induction false} LaterYearPath(year: nat)
    requires year >= 1990
    ensures YearPath(year) == NatToString(year - year % 10) + ['s'] + ("/" + NatToString(year))
  {
    Regroup(NatToString(year - year % 10) + "s", "/", NatToString(year), []);
  }

  lemma {:induction false} LaterYearInjective(y1: nat, y2: nat)
    requires y1 >= 1990 && y2 >= 1990 && YearPath(y1) == YearPath(y2)
    ensures y1 == y2
  {
    var x := "/" + NatToString(y1);
    var y := "/" + NatToString(y2);
    LaterYearPath(y1);
    LaterYearPath(y2);
    DigitPrefixUnique(NatToString(y1 - y1 % 10), NatToString(y2 - y2 % 10), x, y, 's');
    assert x[1..] == NatToString(y1) && y[1..] == NatToString(y2);
    NatToStringInjective(y1, y2);
  }

  /** Two years share a folder exactly when they fall in the same folder class. */
  lemma {:induction false} YearPathSameFolder(y1: int, y2: int)
    ensures YearPath(y1) == YearPath(y2) <==> YearFolder(y1) == YearFolder(y2)
  {
    YearPathSlash(y1);
    YearPathSlash(y2);
    YearPathZero(y1);
    YearPathZero(y2);
    if YearPath(y1) == YearPath(y2) {
      if y1 >= 1990 {
        LaterYearInjective(y1, y2);
      } else if y1 >= 1970 {
        DecadeInjective(y1, y2);
      }
    }
  }

  /** The base name of an entry's files: the key with every `:` turned into `-`,
      trimmed. */
  function FileBase(key: string): (b: string)
    ensures ':' !in b && Trimmed(b)
  {
    ReplaceRemovesChar(key, ':', "-");
    Trim(Replace(key, ":", "-"))
  }

  /** The name of an entry's PDF file, as in getPDFFile. */
  function PdfFileName(key: string): string {
    FileBase(key) + ".pdf"
  }

  /** The name of an entry's comments file, as in getCommentsFile. */
  function CommentsFileName(key: string): string {
    FileBase(key) + "-comments.pdf"
  }

  /** getPDFFile: the year folder joined with the PDF name. */
  function PdfFile(year: int, key: string): string {
    Join(YearPath(year), PdfFileName(key))
  }

  /** getCommentsFile: the year folder joined with the comments name. */
  function CommentsFile(year: int, key: string): string {
    Join(YearPath(year), CommentsFileName(key))
  }

  /** The file names hold no `:` before their suffix, and both files of an entry share
      their base name. */
  lemma {:induction false} FileNamesShareBase(key: string)
    ensures var b := FileBase(key);
      && PdfFileName(key)[..|b|] == b && CommentsFileName(key)[..|b|] == b
      && ':' !in b && EndsWith(PdfFileName(key), ".pdf") && EndsWith(CommentsFileName(key), "-comments.pdf")
  {
    AppendEnds(FileBase(key), ".pdf");
    AppendEnds(FileBase(key), "-comments.pdf");
  }

  /** A trimmed key without colons is used as it is. */
  lemma {:induction false} PlainKeyFileNames(key: string)
    requires ':' !in key && Trimmed(key)
    ensures PdfFileName(key) == key + ".pdf" && CommentsFileName(key) == key + "-comments.pdf"
  {
    ReplaceFree(key, ":", "-");
  }

  /** The last name of a name: the text after its last blank, as getLastname. */
  function GetLastname(name: string): (r: string)
    ensures ' ' !in r && |r| <= |name| && r == name[|name| - |r|..]
    ensures |r| < |name| ==> name[|name| - |r| - 1] == ' '
  {
    LastBlank(name);
    name[LastIndexOfFrom(name, " ", |name|) + 1..]
  }

  /** `name.lastIndexOf(" ")` is a blank with no blank after it, or -1. */
  lemma {:induction false} LastBlank(name: string)
    ensures var i := LastIndexOfFrom(name, " ", |name|);
      && -1 <= i < |name| && (i >= 0 ==> name[i] == ' ')
      && forall j :: i < j < |name| ==> name[j] != ' '
  {
    var i := LastIndexOfFrom(name, " ", |name|);
    if i >= 0 { OccursAtSingle(name, ' ', i); }
    forall j | i < j < |name| ensures name[j] != ' ' { OccursAtSingle(name, ' ', j); }
  }

  /** The last name of `First Last` is `Last`. */
  lemma {:induction false} GetLastnameOf(first: string, last: string)
    requires ' ' !in last
    ensures GetLastname(first + " " + last) == last
  {
    var name := first + " " + last;
    LastBlank(name);
    assert name[|first|] == ' ';
    forall j | |first| < j < |name| ensures name[j] != ' ' {
      assert name[j] == last[j - |first| - 1] && last[j - |first| - 1] in last;
    }
    assert name[|first| + 1..] == last;
  }

  /** A name without a blank is its own last name. */
  lemma {:induction false} GetLastnameNoBlank(name: string)
    requires ' ' !in name
    ensures GetLastname(name) == name
  {
    LastBlank(name);
    forall j | 0 <= j < |name| ensures name[j] != ' ' {
      assert name[j] in name;
    }
  }

  /* ---------------------------------------------------------------- fields of a parsed entry */

  /** A parsed jbibtex entry: its type (`article`, `inproceedings`, ...), its key and its
      fields, each field name mapped to the field's user string. */
  datatype RawEntry = RawEntry(typeName: string, keyName: string, fields: map<string, string>)

  const KEY_AUTHOR := "author"
  const KEY_EDITOR := "editor"
  const KEY_TITLE := "title"
  const KEY_BOOKTITLE := "booktitle"
  const KEY_JOURNAL := "journal"
  const KEY_YEAR := "year"
  const KEY_MONTH := "month"
  const KEY_DOI := "doi"
  const KEY_URL := "url"

  /** `entry.getField(name)`: the field's user string, or None for a missing field. */
  function Field(e: RawEntry, name: string): (r: Option<string>)
    ensures r.Some? <==> name in e.fields
    ensures r.Some? ==> r.value == e.fields[name]
  {
    if name in e.fields then Some(e.fields[name]) else None
  }

  /** getAttribute: the field's user string, or "" for a missing field. */
  function Attribute(e: RawEntry, name: string): (r: string)
    ensures name in e.fields ==> r == e.fields[name]
    ensures name !in e.fields ==> r == EMPTY_ATTRIBUTE
  {
    match Field(e, name)
    case Some(v) => v
    case None => EMPTY_ATTRIBUTE
  }

  /** isDefined: a value that is present, not empty, not "unknown", and not a
      parenthesised placeholder such as "(misc)". */
  predicate IsDefined(attribute: Option<string>) {
    && attribute.Some?
    && attribute.value != []
    && attribute.value != UNKNOWN_ATTRIBUTE
    && attribute.value != EMPTY_ATTRIBUTE
    && (!StartsWith(attribute.value, "(") || !EndsWith(attribute.value, ")"))
  }

  /** isDefined in plain terms: false exactly for a missing value, "", "unknown", and a
      text that starts with `(` and ends with `)`. */
  lemma {:induction false} IsDefinedIff(a: Option<string>)
    ensures IsDefined(a) <==>
      && a.Some? && a.value != "" && a.value != "unknown"
      && !(a.value[0] == '(' && a.value[|a.value| - 1] == ')')
  {
    if a.Some? && a.value != [] {
      var v := a.value;
      StartsWithSlice(v, "(");
      StartsWithSlice(v[|v| - 1..], ")");
    }
  }

  /* ---------------------------------------------------------------- venue */

  /** The venue parseVenue computes for an entry whose venue is still unknown: the
      placeholder "(type)" for an incollection in any case; otherwise the upper-cased
      journal if there is one, else the upper-cased booktitle, else the placeholder. */
  function VenueOf(typeName: string, booktitle: Option<string>, journal: Option<string>): string {
    var placeholder := "(" + typeName + ")";
    if EqualsIgnoreCase(placeholder, "(incollection)") then placeholder
    else if journal.Some? then ToUpper(journal.value)
    else if booktitle.Some? then ToUpper(booktitle.value)
    else placeholder
  }

  lemma {:induction false} PlaceholderUndefined(typeName: string)
    ensures !IsDefined(Some("(" + typeName + ")"))
  {
    var v := "(" + typeName + ")";
    IsDefinedIff(Some(v));
  }

  /** An incollection keeps its placeholder, which is not a defined venue; the check
      ignores case. */
  lemma {:induction false} IncollectionVenue(typeName: string, booktitle: Option<string>, journal: Option<string>)
    requires EqualsIgnoreCase(typeName, "incollection")
    ensures VenueOf(typeName, booktitle, journal) == "(" + typeName + ")"
    ensures !IsDefined(Some(VenueOf(typeName, booktitle, journal)))
  {
    var v := "(" + typeName + ")";
    var w := "(incollection)";
    assert forall i :: 0 <= i < |v| ==> UpperChar(v[i]) == UpperChar(w[i]) by {
      forall i | 0 <= i < |v| ensures UpperChar(v[i]) == UpperChar(w[i]) {
        if 0 < i < |v| - 1 {
          assert v[i] == typeName[i - 1] && w[i] == "incollection"[i - 1];
        }
      }
    }
    PlaceholderUndefined(typeName);
  }

  /** Outside incollection, a journal overrides the booktitle, and a booktitle is used
      only when there is no journal. */
  lemma {:induction false} VenuePriority(typeName: string, booktitle: Option<string>, journal: Option<string>)
    requires !EqualsIgnoreCase("(" + typeName + ")", "(incollection)")
    ensures journal.Some? ==> VenueOf(typeName, booktitle, journal) == ToUpper(journal.value)
    ensures journal.None? && booktitle.Some? ==> VenueOf(typeName, booktitle, journal) == ToUpper(booktitle.value)
    ensures journal.None? && booktitle.None? ==> !IsDefined(Some(VenueOf(typeName, booktitle, journal)))
  {
    PlaceholderUndefined(typeName);
  }

  /* ---------------------------------------------------------------- year and month */

  /** parseYear: a year still 0 is read from the year field with Integer.parseInt; a
      missing or malformed field leaves it unchanged. */
  function YearOf(current: int, yearField: Option<string>): int {
    if current != 0 then current
    else match yearField
      case None => current
      case Some(text) =>
        match ParseInt(text)
        case Some(v) => v
        case None => current
  }

  /** A year field holding the decimal text of a year gives that year. */
  lemma {:induction false} YearOfText(y: nat)
    requires y <= MAX_INT
    ensures YearOf(0, Some(NatToString(y))) == y
  {
    ParseIntOfNatToString(y);
  }

  /** A year already set, or a field that is not a number, leaves the year unchanged. */
  lemma {:induction false} YearOfKeeps(current: int, yearField: Option<string>)
    requires current != 0 || yearField.None? || ParseInt(yearField.value).None?
    ensures YearOf(current, yearField) == current
  {
  }

  const MONTH_NAME_TO_NUMBER: map<string, int> := map[
    "january" := 1, "february" := 2, "march" := 3, "april" := 4,
    "may" := 5, "june" := 6, "july" := 7, "august" := 8,
    "september" := 9, "october" := 10, "november" := 11, "december" := 12]

  /** The English month names, January first: the reference for MONTH_NAME_TO_NUMBER. */
  const MONTH_NAMES: seq<string> := [
    "january", "february", "march", "april", "may", "june",
    "july", "august", "september", "october", "november", "december"]

  /** getMonthAsNumber: the month field, lower-cased, looked up in the month table; a
      missing field reads as "" and gives None. */
  function MonthAsNumber(e: RawEntry): (r: Option<int>)
    ensures r.Some? ==> 1 <= r.value <= 12
  {
    var monthName := ToLower(Attribute(e, KEY_MONTH));
    if monthName in MONTH_NAME_TO_NUMBER then Some(MONTH_NAME_TO_NUMBER[monthName]) else None
  }

  lemma {:induction false} MonthTable(name: string, n: int)
    ensures (name in MONTH_NAME_TO_NUMBER && MONTH_NAME_TO_NUMBER[name] == n)
        <==> (1 <= n <= 12 && MONTH_NAMES[n - 1] == name)
  {
  }

  /** The month is n exactly when the field, lower-cased, is the n-th month name. */
  lemma {:induction false} MonthAsNumberIff(e: RawEntry, n: int)
    ensures MonthAsNumber(e) == Some(n) <==>
      (1 <= n <= 12 && ToLower(Attribute(e, KEY_MONTH)) == MONTH_NAMES[n - 1])
  {
    MonthTable(ToLower(Attribute(e, KEY_MONTH)), n);
  }

  /* ================================================================ toURL */

  /** The characters toURL removes by default because they are not allowed in a path or
      URL segment. */
  const URL_UNSAFE := [':', '?', '\\', '/', '#']

  /** The fifteen replacements toURL puts in, in this order, when the caller has not set
      them: HTML entities of umlauts, sharp s, ampersand and en dash, the mis-decoded
      replacement char, and the unsafe chars, which are dropped. */
  const DEFAULT_URL_REPLACEMENTS: seq<(string, string)> := [
    ("&auml;", "ae"), ("&ouml;", "oe"), ("&uuml;", "ue"), ("&Auml;", "Ae"),
    ("&Ouml;", "Oe"), ("\U{00EF}\U{00BF}\U{00BD}", "O"), ("&Uuml;", "Ue"), ("&szlig;", "ss"),
    ("&amp;", "and"), ("&#8211;", "-"), (":", ""), ("?", ""), ("\\", ""), ("/", ""),
    ("#", "")]

  /** Map.putIfAbsent for each pair in turn. */
  function PutAllIfAbsent(m: map<string, string>, ps: seq<(string, string)>): (r: map<string, string>)
    ensures forall k :: k in m ==> k in r && r[k] == m[k]
    ensures forall i :: 0 <= i < |ps| ==> ps[i].0 in r
    decreases |ps|
  {
    if ps == [] then m
    else
      var m' := if ps[0].0 in m then m else m[ps[0].0 := ps[0].1];
      PutAllIfAbsent(m', ps[1..])
  }

  /** A key added by PutAllIfAbsent is a key of one of the pairs, and its value is that
      pair's value. */
  lemma {:induction false} PutAllIfAbsentFrom(m: map<string, string>, ps: seq<(string, string)>, k: string)
    requires k in PutAllIfAbsent(m, ps) && k !in m
    ensures exists i :: 0 <= i < |ps| && ps[i] == (k, PutAllIfAbsent(m, ps)[k])
    decreases |ps|
  {
    var m' := if ps[0].0 in m then m else m[ps[0].0 := ps[0].1];
    if k == ps[0].0 {
      assert ps[0] == (k, PutAllIfAbsent(m, ps)[k]);
    } else {
      PutAllIfAbsentFrom(m', ps[1..], k);
      var i :| 0 <= i < |ps[1..]| && ps[1..][i] == (k, PutAllIfAbsent(m', ps[1..])[k]);
      assert ps[i + 1] == ps[1..][i];
    }
  }

  /** The replacement table of toURL: a copy of the caller's overwrites, then
      putIfAbsent of each default, so that the caller's values win. */
  function UrlReplacements(overwrites: map<string, string>): (m: map<string, string>)
    ensures forall k :: k in overwrites ==> k in m && m[k] == overwrites[k]
    ensures forall i :: 0 <= i < |DEFAULT_URL_REPLACEMENTS| ==> DEFAULT_URL_REPLACEMENTS[i].0 in m
  {
    PutAllIfAbsent(overwrites, DEFAULT_URL_REPLACEMENTS)
  }

  /** A key of the table the caller did not set is a default key and carries its
      default value. */
  lemma {:induction false} UrlReplacementDefault(overwrites: map<string, string>, k: string)
    requires k in UrlReplacements(overwrites) && k !in overwrites
    ensures exists i ::
      0 <= i < |DEFAULT_URL_REPLACEMENTS| && DEFAULT_URL_REPLACEMENTS[i] == (k, UrlReplacements(overwrites)[k])
  {
    PutAllIfAbsentFrom(overwrites, DEFAULT_URL_REPLACEMENTS, k);
  }

  /** Every default key starts with one of `& \U{00EF} : ? \ / #`, and no default value
      holds an unsafe char. */
  lemma {:induction false} DefaultUrlPairs(i: int)
    requires 0 <= i < |DEFAULT_URL_REPLACEMENTS|
    ensures |DEFAULT_URL_REPLACEMENTS[i].0| >= 1
    ensures DEFAULT_URL_REPLACEMENTS[i].0[0] in "&\U{00EF}:?\\/#"
    ensures forall c :: c in URL_UNSAFE ==> c !in DEFAULT_URL_REPLACEMENTS[i].1
  {
  }

  /** Each unsafe char is a key of the table. */
  lemma {:induction false} UnsafeKeys(overwrites: map<string, string>)
    ensures forall c :: c in URL_UNSAFE ==> [c] in UrlReplacements(overwrites)
  {
    var d := DEFAULT_URL_REPLACEMENTS;
    forall c | c in URL_UNSAFE ensures [c] in UrlReplacements(overwrites) {
      var i := if c == ':' then 10 else if c == '?' then 11 else if c == '\\' then 12
        else if c == '/' then 13 else 14;
      assert d[i].0 == [c];
    }
  }

  /** Where the caller set nothing, every value of the table avoids the unsafe chars;
      the caller's own values are taken as given. */
  lemma {:induction false} UrlValuesSafe(overwrites: map<string, string>, k: string, c: char)
    requires k in UrlReplacements(overwrites) && c in URL_UNSAFE
    requires k in overwrites ==> c !in overwrites[k]
    ensures c !in UrlReplacements(overwrites)[k]
  {
    if k !in overwrites {
      UrlReplacementDefault(overwrites, k);
      var i :| 0 <= i < |DEFAULT_URL_REPLACEMENTS| &&
        DEFAULT_URL_REPLACEMENTS[i] == (k, UrlReplacements(overwrites)[k]);
      DefaultUrlPairs(i);
    }
  }

  /** A key of the table the caller did not set starts with `& \U{00EF} : ? \ / #`. */
  lemma {:induction false} UrlKeyStart(overwrites: map<string, string>, k: string)
    requires k in UrlReplacements(overwrites) && k !in overwrites
    ensures |k| >= 1 && k[0] in "&\U{00EF}:?\\/#"
  {
    UrlReplacementDefault(overwrites, k);
    var i :| 0 <= i < |DEFAULT_URL_REPLACEMENTS| &&
      DEFAULT_URL_REPLACEMENTS[i] == (k, UrlReplacements(overwrites)[k]);
    DefaultUrlPairs(i);
  }

  /** `order` lists every key of the table exactly once: one iteration order of the
      HashMap's entry set. */
  predicate EnumeratesKeys(order: seq<string>, m: map<string, string>) {
    && (forall k :: k in order ==> k in m)
    && (forall k :: k in m ==> k in order)
    && (forall i, j :: 0 <= i < j < |order| ==> order[i] != order[j])
  }

  /** The text after each key of `order` has in turn been replaced by its value. */
  function ReplaceInOrder(s: string, m: map<string, string>, order: seq<string>): string
    requires forall k :: k in order ==> k in m
    decreases |order|
  {
    if order == [] then s
    else ReplaceInOrder(Replace(s, order[0], m[order[0]]), m, order[1..])
  }

  /** toURL: every replacement of the table applied to `s`, in the iteration order
      `order` of the table. */
  method ToURL(s: string, overwrites: map<string, string>, order: seq<string>) returns (r: string)
    requires EnumeratesKeys(order, UrlReplacements(overwrites))
    ensures r == ReplaceInOrder(s, UrlReplacements(overwrites), order)
  {
    r := ApplyInOrder(s, UrlReplacements(overwrites), order);
  }

  /** The replacement loop of toURL: `s = s.replace(key, value)` for each key in turn. */
  method ApplyInOrder(s: string, replacements: map<string, string>, order: seq<string>) returns (r: string)
    requires forall k :: k in order ==> k in replacements
    ensures r == ReplaceInOrder(s, replacements, order)
  {
    r := s;
    var i := 0;
    while i < |order|
      invariant 0 <= i <= |order|
      invariant ReplaceInOrder(r, replacements, order[i..]) == ReplaceInOrder(s, replacements, order)
    {
      ReplaceInOrderStep(r, replacements, order, i);
      r := Replace(r, order[i], replacements[order[i]]);
      i := i + 1;
    }
  }

  /** The replacements from `i` on are the one at `i`, then those after it. */
  lemma {:induction false} ReplaceInOrderStep(s: string, m: map<string, string>, order: seq<string>, i: int)
    requires 0 <= i < |order| && forall k :: k in order ==> k in m
    ensures order[i] in m
    ensures ReplaceInOrder(s, m, order[i..]) == ReplaceInOrder(Replace(s, order[i], m[order[i]]), m, order[i + 1..])
  {
    assert order[i] in order;
    assert forall k :: k in order[i..] ==> k in order;
    assert order[i..][1..] == order[i + 1..];
  }

  /** Replacements whose values avoid a char never bring it back. */
  lemma {:induction false} ReplaceInOrderKeepsAbsent(s: string, m: map<string, string>, order: seq<string>, c: char)
    requires forall k :: k in order ==> k in m
    requires forall k :: k in m ==> c !in m[k]
    requires c !in s
    ensures c !in ReplaceInOrder(s, m, order)
    decreases |order|
  {
    if order != [] {
      assert order[0] in order;
      assert forall k :: k in order[1..] ==> k in order;
      ReplaceKeepsAbsent(s, order[0], m[order[0]], c);
      ReplaceInOrderKeepsAbsent(Replace(s, order[0], m[order[0]]), m, order[1..], c);
    }
  }

  /** A one-char key whose value, like every other value, avoids the char removes it
      for good, wherever the key stands in the order. */
  lemma {:induction false} ReplaceInOrderRemoves(s: string, m: map<string, string>, order: seq<string>, c: char)
    requires forall k :: k in order ==> k in m
    requires forall k :: k in m ==> c !in m[k]
    requires [c] in order
    ensures c !in ReplaceInOrder(s, m, order)
    decreases |order|
  {
    assert order[0] in order;
    assert forall k :: k in order[1..] ==> k in order;
    var t := Replace(s, order[0], m[order[0]]);
    if order[0] == [c] {
      ReplaceRemovesChar(s, c, m[[c]]);
      ReplaceInOrderKeepsAbsent(t, m, order[1..], c);
    } else {
      assert [c] in order[1..] by {
        var i :| 0 <= i < |order| && order[i] == [c];
        assert i != 0;
        assert order[1..][i - 1] == [c];
      }
      ReplaceInOrderRemoves(t, m, order[1..], c);
    }
  }

  /** Whatever the iteration order, and whatever the caller overwrites with values free
      of them, the result of toURL holds none of `: ? \ / #`. */
  lemma {:induction false} UrlHasNoUnsafeChars(s: string, overwrites: map<string, string>, order: seq<string>)
    requires EnumeratesKeys(order, UrlReplacements(overwrites))
    requires forall k, c :: k in overwrites && c in URL_UNSAFE ==> c !in overwrites[k]
    ensures forall c :: c in URL_UNSAFE ==> c !in ReplaceInOrder(s, UrlReplacements(overwrites), order)
  {
    var m := UrlReplacements(overwrites);
    UnsafeKeys(overwrites);
    forall c | c in URL_UNSAFE
      ensures c !in ReplaceInOrder(s, m, order)
    {
      forall k | k in m ensures c !in m[k] {
        UrlValuesSafe(overwrites, k, c);
      }
      ReplaceInOrderRemoves(s, m, order, c);
    }
  }

  /** Text free of `&`, of the first char of the mis-decoded replacement char, and of
      the unsafe chars comes out of toURL with no overwrites unchanged. */
  lemma {:induction false} PlainTextUrl(s: string, order: seq<string>)
    requires EnumeratesKeys(order, UrlReplacements(map[]))
    requires forall c :: c in s ==> c !in "&\U{00EF}:?\\/#"
    ensures ReplaceInOrder(s, UrlReplacements(map[]), order) == s
  {
    var m := UrlReplacements(map[]);
    forall k | k in order ensures |k| >= 1 && k[0] in "&\U{00EF}:?\\/#" {
      UrlKeyStart(map[], k);
    }
    PlainTextUrlFrom(s, m, order);
  }

  lemma {:induction false} PlainTextUrlFrom(s: string, m: map<string, string>, order: seq<string>)
    requires forall k :: k in order ==> k in m && |k| >= 1 && k[0] in "&\U{00EF}:?\\/#"
    requires forall c :: c in s ==> c !in "&\U{00EF}:?\\/#"
    ensures ReplaceInOrder(s, m, order) == s
    decreases |order|
  {
    if order != [] {
      assert order[0] in order;
      assert forall k :: k in order[1..] ==> k in order;
      ReplaceFree(s, order[0], m[order[0]]);
      PlainTextUrlFrom(s, m, order[1..]);
    }
  }

  /* ================================================================ tags */

  /** A LinkedHashMap from tag key to tag list: its entries in insertion order. */
  type TagList = seq<(string, seq<string>)>

  function Keys(m: TagList): seq<string> {
    if m == [] then [] else [m[0].0] + Keys(m[1..])
  }

  /** LinkedHashMap.get: the value of the key's entry, if any. */
  function Lookup(m: TagList, k: string): Option<seq<string>> {
    if m == [] then None else if m[0].0 == k then Some(m[0].1) else Lookup(m[1..], k)
  }

  /** LinkedHashMap.put: a present key keeps its place and takes the new value; a new
      key is appended at the end. */
  function LinkedPut(m: TagList, k: string, v: seq<string>): TagList {
    if m == [] then [(k, v)]
    else if m[0].0 == k then [(k, v)] + m[1..]
    else [m[0]] + LinkedPut(m[1..], k, v)
  }

  /** After put, the key maps to the new value and every other key to its old value. */
  lemma {:induction false} LookupPut(m: TagList, k: string, v: seq<string>, k': string)
    ensures Lookup(LinkedPut(m, k, v), k') == if k' == k then Some(v) else Lookup(m, k')
  {
    if m != [] && m[0].0 != k {
      LookupPut(m[1..], k, v, k');
    }
  }

  /** put keeps the insertion order of the keys, appending a key seen for the first time. */
  lemma {:induction false} KeysPut(m: TagList, k: string, v: seq<string>)
    ensures Keys(LinkedPut(m, k, v)) == if k in Keys(m) then Keys(m) else Keys(m) + [k]
  {
    if m != [] && m[0].0 != k {
      KeysPut(m[1..], k, v);
      assert Keys(m) == [m[0].0] + Keys(m[1..]);
    }
  }

  /** What parseTags computes for the tag keys `keys` when `tags` is still empty: the
      umlaut-free text of each present tag field in key order, and `list0` with each
      present key put to the trimmed comma-separated tokens of that text. */
  function TagsOf(e: RawEntry, keys: seq<string>, list0: TagList): (seq<string>, TagList)
    decreases |keys|
  {
    if keys == [] then ([], list0)
    else
      var prev := TagsOf(e, keys[..|keys| - 1], list0);
      var k := keys[|keys| - 1];
      match Field(e, k)
      case None => prev
      case Some(v) =>
        var tag := ReplaceUmlauts(v);
        (prev.0 + [tag], LinkedPut(prev.1, k, TrimmedTokens(tag)))
  }

  /** A tag key has the tokens of its field exactly when it is one of the keys and the
      entry has that field; any other key keeps its earlier list. */
  lemma {:induction false} TagsLookup(e: RawEntry, keys: seq<string>, list0: TagList, k: string)
    ensures Lookup(TagsOf(e, keys, list0).1, k) ==
      if k in keys && k in e.fields then Some(TrimmedTokens(ReplaceUmlauts(e.fields[k])))
      else Lookup(list0, k)
    decreases |keys|
  {
    if keys != [] {
      var init := keys[..|keys| - 1];
      var last := keys[|keys| - 1];
      assert keys == init + [last];
      TagsLookup(e, init, list0, k);
      var prev := TagsOf(e, init, list0);
      if last in e.fields {
        LookupPut(prev.1, last, TrimmedTokens(ReplaceUmlauts(e.fields[last])), k);
      }
    }
  }

  /** A text is among the tags exactly when it is the umlaut-free text of a present
      tag field. */
  lemma {:induction false} TagsText(e: RawEntry, keys: seq<string>, list0: TagList, t: string)
    ensures t in TagsOf(e, keys, list0).0 <==>
      exists k :: k in keys && k in e.fields && t == ReplaceUmlauts(e.fields[k])
    decreases |keys|
  {
    if keys != [] {
      var init := keys[..|keys| - 1];
      var last := keys[|keys| - 1];
      var prev := TagsOf(e, init, list0).0;
      TagsText(e, init, list0, t);
      TagsOfStep(e, keys, list0);
      InInit(keys, last);
      if t in TagsOf(e, keys, list0).0 {
        if t in prev {
          var k :| k in init && k in e.fields && t == ReplaceUmlauts(e.fields[k]);
          InInit(keys, k);
        } else {
          assert last in e.fields && t == ReplaceUmlauts(e.fields[last]);
        }
      }
      if exists k :: k in keys && k in e.fields && t == ReplaceUmlauts(e.fields[k]) {
        var k :| k in keys && k in e.fields && t == ReplaceUmlauts(e.fields[k]);
        InInit(keys, k);
      }
    }
  }

  /** One more tag key appends the text of its field, when the entry has it. */
  lemma {:induction false} TagsOfStep(e: RawEntry, keys: seq<string>, list0: TagList)
    requires keys != []
    ensures var prev := TagsOf(e, keys[..|keys| - 1], list0).0;
      var last := keys[|keys| - 1];
      && (last !in e.fields ==> TagsOf(e, keys, list0).0 == prev)
      && (last in e.fields ==> TagsOf(e, keys, list0).0 == prev + [ReplaceUmlauts(e.fields[last])])
      && (forall t :: t in TagsOf(e, keys, list0).0 <==>
            t in prev || (last in e.fields && t == ReplaceUmlauts(e.fields[last])))
  {
  }

  /** With no earlier tag lists, every tag list is trimmed and comma-free. */
  lemma {:induction false} TagListsWellFormed(e: RawEntry, keys: seq<string>, k: string)
    ensures match Lookup(TagsOf(e, keys, []).1, k)
      case None => true
      case Some(ts) => forall t :: t in ts ==> Trimmed(t) && ',' !in t
  {
    TagsLookup(e, keys, [], k);
  }

  /* ================================================================ author source */

  /** The author text parseAuthor reads for an author still unknown, and whether it
      names editors: the author field (false), else the editor field (true), else ""
      (true). */
  function AuthorField(e: RawEntry): (string, bool) {
    if KEY_AUTHOR in e.fields then (e.fields[KEY_AUTHOR], false)
    else if KEY_EDITOR in e.fields then (e.fields[KEY_EDITOR], true)
    else (EMPTY_ATTRIBUTE, true)
  }

  /** The author text and editor flag parseAuthor starts from: a known author keeps
      its flag, an unknown one is read by AuthorField. */
  function AuthorSource(current: string, editors: bool, e: RawEntry): (string, bool) {
    if current == UNKNOWN_ATTRIBUTE then AuthorField(e) else (current, editors)
  }

  /** What parseAuthor leaves in `author`, `authorList` and `authorsAreEditors`, given
      their values before and the entry: the swapped author text, the list extended by
      the author names, and the editor flag. */
  function ParsedAuthors(current: string, editors: bool, list: seq<string>, e: RawEntry): (string, seq<string>, bool) {
    var src := AuthorSource(current, editors, e);
    (AuthorString(src.0), list + AuthorNames(src.0), src.1)
  }

  /** A fresh entry takes its authors from the author field, else from the editor
      field, and every name in its list is trimmed and comma-free. */
  lemma {:induction false} FreshAuthors(e: RawEntry)
    ensures var (text, names, editors) := ParsedAuthors(UNKNOWN_ATTRIBUTE, false, [], e);
      && text == AuthorString(AuthorField(e).0)
      && names == AuthorNames(AuthorField(e).0)
      && editors == (KEY_AUTHOR !in e.fields)
      && (forall n :: n in names ==> Trimmed(n) && ',' !in n)
  {
    FreshAuthorSource(e);
    EmptyPrefix(AuthorNames(AuthorField(e).0));
  }

  /** An unknown author is read from the entry by AuthorField. */
  lemma {:induction false} FreshAuthorSource(e: RawEntry)
    ensures AuthorSource(UNKNOWN_ATTRIBUTE, false, e) == AuthorField(e)
    ensures AuthorField(e).1 == (KEY_AUTHOR !in e.fields)
  {
  }

  /** Appending to the empty list gives the appended list. */
  lemma {:induction false} EmptyPrefix(names: seq<string>)
    ensures [] + names == names
  {
  }

  /** An entry without authors and editors gets no author names and counts as edited. */
  lemma {:induction false} NoAuthorsNoNames(e: RawEntry)
    requires KEY_AUTHOR !in e.fields && KEY_EDITOR !in e.fields
    ensures AuthorField(e) == ("", true)
    ensures AuthorNames("") == []
  {
    assert ReplaceUmlauts("") == "" by {
      ReplaceUmlautsFixpoint("");
    }
    assert AuthorString("") == "";
    assert Split("", ',') == [""];
  }

  /* ================================================================ parsed attributes */

  /** parseKey: an unknown key is taken from the entry. */
  function ParsedKey(current: string, e: RawEntry): string {
    if current == UNKNOWN_ATTRIBUTE then e.keyName else current
  }

  /** parseTitle: an unknown title is read from the title field ("" if missing), and
      the title is then decoded. */
  function ParsedTitle(current: string, e: RawEntry): string {
    ReplaceUmlauts(if current == UNKNOWN_ATTRIBUTE then Attribute(e, KEY_TITLE) else current)
  }

  /** parseVenue: an unknown venue is computed by VenueOf. */
  function ParsedVenue(current: string, e: RawEntry): string {
    if current == UNKNOWN_ATTRIBUTE then VenueOf(e.typeName, Field(e, KEY_BOOKTITLE), Field(e, KEY_JOURNAL))
    else current
  }

  /** parseDOIandURL: an empty DOI or URL is read from its field. */
  function ParsedLink(current: string, e: RawEntry, name: string): string {
    if current == EMPTY_ATTRIBUTE then Attribute(e, name) else current
  }

  /** parseTags: only while no tag is known are the tag keys read (TagsOf). */
  function ParsedTags(tags: seq<string>, tagList: TagList, e: RawEntry, keys: seq<string>): (seq<string>, TagList) {
    if tags == [] then TagsOf(e, keys, tagList) else (tags, tagList)
  }

  /** A fresh entry: its key and title come from the entry, the venue from VenueOf,
      the DOI and URL from their fields, and the tags from TagsOf with no earlier
      lists. */
  lemma {:induction false} FreshAttributes(e: RawEntry, keys: seq<string>)
    ensures ParsedKey(UNKNOWN_ATTRIBUTE, e) == e.keyName
    ensures ParsedTitle(UNKNOWN_ATTRIBUTE, e) == ReplaceUmlauts(Attribute(e, KEY_TITLE))
    ensures ParsedVenue(UNKNOWN_ATTRIBUTE, e) == VenueOf(e.typeName, Field(e, KEY_BOOKTITLE), Field(e, KEY_JOURNAL))
    ensures ParsedLink(EMPTY_ATTRIBUTE, e, KEY_DOI) == Attribute(e, KEY_DOI)
    ensures ParsedTags([], [], e, keys) == TagsOf(e, keys, [])
  {
  }

  /** Each parse step is idempotent: a second run finds the attribute known and keeps
      it, except that the title is decoded once more. */
  lemma {:induction false} ParsedKnownKept(current: string, e: RawEntry)
    requires current != UNKNOWN_ATTRIBUTE
    ensures ParsedKey(current, e) == current && ParsedVenue(current, e) == current
    ensures ParsedTitle(current, e) == ReplaceUmlauts(current)
  {
  }

  /* ================================================================ the entry object */

  /** An entry as MibTeX holds it: the parsed jbibtex entry, the tag keys of the viewer,
      and the attributes the parse methods fill in from them. */
  class BibtexEntry {
    const entry: RawEntry
    const tagKeys: seq<string>

    var typeName: string
    var key: string
    var author: string
    var authorList: seq<string>
    var authorsAreEditors: bool
    var title: string
    var venue: string
    var doi: string
    var url: string
    var year: int
    var tags: seq<string>
    var tagList: TagList
    var citations: int
    var lastUpdate: int

    /** Builds the entry from a parsed jbibtex entry. In the source every attribute
        starts unknown (or empty) and the parse methods then run in the order key, type,
        author, title, venue, year, tags, DOI and URL. Each parse method reads and writes
        only its own attributes (see their modifies clauses), so the constructor assigns
        each attribute what its parse method computes from the initial value. */
    constructor (entry: RawEntry, tagKeys: seq<string>)
      ensures this.entry == entry && this.tagKeys == tagKeys
      ensures key == ParsedKey(UNKNOWN_ATTRIBUTE, entry) && typeName == entry.typeName
      ensures (author, authorList, authorsAreEditors) == ParsedAuthors(UNKNOWN_ATTRIBUTE, false, [], entry)
      ensures title == ParsedTitle(UNKNOWN_ATTRIBUTE, entry)
      ensures venue == ParsedVenue(UNKNOWN_ATTRIBUTE, entry)
      ensures year == YearOf(0, Field(entry, KEY_YEAR))
      ensures (tags, tagList) == ParsedTags([], [], entry, tagKeys)
      ensures doi == ParsedLink(EMPTY_ATTRIBUTE, entry, KEY_DOI) && url == ParsedLink(EMPTY_ATTRIBUTE, entry, KEY_URL)
      ensures citations == CitationEntry.NOT_IN_CITATION_SERVICE && lastUpdate == 0
    {
      this.entry := entry;
      this.tagKeys := tagKeys;
      typeName := entry.typeName;
      key := ParsedKey(UNKNOWN_ATTRIBUTE, entry);
      var parsed := ParsedAuthors(UNKNOWN_ATTRIBUTE, false, [], entry);
      author := parsed.0;
      authorList := parsed.1;
      authorsAreEditors := parsed.2;
      title := ParsedTitle(UNKNOWN_ATTRIBUTE, entry);
      venue := ParsedVenue(UNKNOWN_ATTRIBUTE, entry);
      doi := ParsedLink(EMPTY_ATTRIBUTE, entry, KEY_DOI);
      url := ParsedLink(EMPTY_ATTRIBUTE, entry, KEY_URL);
      year := YearOf(0, Field(entry, KEY_YEAR));
      var parsedTags := ParsedTags([], [], entry, tagKeys);
      tags := parsedTags.0;
      tagList := parsedTags.1;
      citations := CitationEntry.NOT_IN_CITATION_SERVICE;
      lastUpdate := 0;
    }

    /** parseKey: an unknown key is taken from the entry. */
    method ParseKey()
      modifies this`key
      ensures key == ParsedKey(old(key), entry)
    {
      if key == UNKNOWN_ATTRIBUTE {
        key := entry.keyName;
      }
    }

    /** parseType: the type is always taken from the entry. */
    method ParseType()
      modifies this`typeName
      ensures typeName == entry.typeName
    {
      typeName := entry.typeName;
    }

    /** parseAuthor: picks the author text (AuthorSource), decodes it, swaps every
        `Last, First` to `First Last` one comma at a time, and appends the trimmed names
        to the author list. */
    method ParseAuthor()
      modifies this`author, this`authorsAreEditors, this`authorList
      ensures (author, authorList, authorsAreEditors) ==
        ParsedAuthors(old(author), old(authorsAreEditors), old(authorList), entry)
    {
      ghost var src := AuthorSource(author, authorsAreEditors, entry);
      if author == UNKNOWN_ATTRIBUTE {
        var field := Field(entry, KEY_AUTHOR);
        authorsAreEditors := false;
        if field.None? {
          field := Field(entry, KEY_EDITOR);
          authorsAreEditors := true;
        }
        if field.None? {
          author := EMPTY_ATTRIBUTE;
        } else {
          author := field.value;
        }
      }
      assert author == src.0 && authorsAreEditors == src.1;
      author := ReplaceUmlauts(author);
      author := Replace(author, " and ", "; ");
      ghost var separated := author;
      author := SwapNames(author);
      AuthorStages(src.0, separated, author);
      author := Replace(author, "; ", ", ");
      var names := TrimmedTokenList(author);
      authorList := authorList + names;
    }

    /** parseTitle: an unknown title is read from the title field ("" if missing); the
        title is then decoded. */
    method ParseTitle()
      modifies this`title
      ensures title == ParsedTitle(old(title), entry)
    {
      if title == UNKNOWN_ATTRIBUTE {
        var field := Field(entry, KEY_TITLE);
        if field.None? {
          title := EMPTY_ATTRIBUTE;
        } else {
          title := field.value;
        }
      }
      title := ReplaceUmlauts(title);
    }

    /** parseVenue: an unknown venue becomes the "(type)" placeholder, which an
        incollection keeps; otherwise the booktitle and then the journal, upper-cased,
        override it when present. */
    method ParseVenue()
      modifies this`venue
      ensures venue == ParsedVenue(old(venue), entry)
    {
      if venue == UNKNOWN_ATTRIBUTE {
        venue := "(" + entry.typeName + ")";
        if EqualsIgnoreCase(venue, "(incollection)") {
          return;
        }
        var booktitle := Field(entry, KEY_BOOKTITLE);
        if booktitle.Some? {
          venue := ToUpper(booktitle.value);
        }
        var journal := Field(entry, KEY_JOURNAL);
        if journal.Some? {
          venue := ToUpper(journal.value);
        }
      }
    }

    /** parseDOIandURL: an empty DOI or URL is read from its field when present. */
    method ParseDOIandURL()
      modifies this`doi, this`url
      ensures doi == ParsedLink(old(doi), entry, KEY_DOI)
      ensures url == ParsedLink(old(url), entry, KEY_URL)
    {
      if doi == EMPTY_ATTRIBUTE {
        var field := Field(entry, KEY_DOI);
        if field.Some? {
          doi := field.value;
        }
      }
      if url == EMPTY_ATTRIBUTE {
        var field := Field(entry, KEY_URL);
        if field.Some? {
          url := field.value;
        }
      }
    }

    /** parseYear: a year still 0 is parsed from the year field when that is a number. */
    method ParseYear()
      modifies this`year
      ensures year == YearOf(old(year), Field(entry, KEY_YEAR))
    {
      if year == 0 {
        var field := Field(entry, KEY_YEAR);
        if field.Some? {
          var parsed := ParseInt(field.value);
          if parsed.Some? {
            year := parsed.value;
          }
        }
      }
    }

    /** parseTags: with no tags yet, each tag key present in the entry adds its decoded
        text to `tags` and puts its trimmed comma-separated tokens in `tagList`. */
    method ParseTags()
      modifies this`tags, this`tagList
      ensures (tags, tagList) == ParsedTags(old(tags), old(tagList), entry, tagKeys)
    {
      if tags == [] {
        ghost var list0 := tagList;
        for i := 0 to |tagKeys|
          invariant (tags, tagList) == TagsOf(entry, tagKeys[..i], list0)
        {
          assert tagKeys[..i + 1][..i] == tagKeys[..i];
          var value := Field(entry, tagKeys[i]);
          if value.Some? {
            var tag := ReplaceUmlauts(value.value);
            tags := tags + [tag];
            var tagsForKey := TrimmedTokenList(tag);
            tagList := LinkedPut(tagList, tagKeys[i], tagsForKey);
          }
        }
        assert tagKeys[..|tagKeys|] == tagKeys;
      }
    }
  }
}


