/** The candidate selection of MibTeX's `ScholarCitations.getCitations`: the result page
    for a title is scanned for the hit whose normalized title is closest to the query,
    ties going to the hit cited more often, with one retry on the part of the title
    before its first colon. Fetching the page and scraping the hits out of its HTML are
    a parameter `fetch` from the query title to its page, and the Levenshtein distance
    is a parameter `dist`. */
module ScholarCitations {
  import opened JavaStrings
  import CitationEntry

  /** A hit on the result page: its title text, tags and annotations already removed,
      and its "Cited by" count when the hit shows one. */
  datatype Candidate = Candidate(title: string, citedBy: Option<nat>)

  /** A result page: whether it holds the robot-detection heading, and its hits. */
  datatype Page = Page(robot: bool, candidates: seq<Candidate>)

  /** The running best of the scan: `citations` is -1 while no hit was accepted. */
  datatype Best = Best(citations: int, distance: int)

  /** The distance the scan starts from. */
  const START_DISTANCE := 99999

  /** The best before any hit is looked at. */
  const START := Best(-1, START_DISTANCE)

  /* ---------------------------------------------------------------- normalization */

  /** The chars regular-expression `\w` matches: ASCII letters, digits and `_`. */
  predicate IsWordChar(c: char) {
    'a' <= c <= 'z' || 'A' <= c <= 'Z' || '0' <= c <= '9' || c == '_'
  }

  /** `s.replaceAll("\\W", "")`: every char that is not a word char removed. */
  function KeepWordChars(s: string): string
    decreases |s|
  {
    if s == [] then [] else (if IsWordChar(s[0]) then [s[0]] else []) + KeepWordChars(s[1..])
  }

  /** `s.toLowerCase().replaceAll("\\W", "")`, applied to both titles before they are
      compared. */
  function Normalize(s: string): string {
    KeepWordChars(ToLower(s))
  }

  /** Text made of lower-case letters, digits and `_` only. */
  predicate NormalForm(s: string) {
    forall i :: 0 <= i < |s| ==> IsWordChar(s[i]) && !('A' <= s[i] <= 'Z')
  }

  /** Only word chars of the text survive, and those that do are chars of the text. */
  lemma {:induction false} KeepWordCharsFrom(s: string, c: char)
    ensures c in KeepWordChars(s) ==> c in s && IsWordChar(c)
    decreases |s|
  {
    if s != [] {
      KeepWordCharsFrom(s[1..], c);
    }
  }

  /** A text of word chars only is kept whole. */
  lemma {:induction false} KeepWordCharsAll(s: string)
    requires forall i :: 0 <= i < |s| ==> IsWordChar(s[i])
    ensures KeepWordChars(s) == s
    decreases |s|
  {
    if s != [] {
      KeepWordCharsAll(s[1..]);
      assert [s[0]] + s[1..] == s;
    }
  }

  /** A normalized title holds only lower-case letters, digits and `_`. */
  lemma {:induction false} NormalizeNormal(s: string)
    ensures NormalForm(Normalize(s))
  {
    var r := Normalize(s);
    forall i | 0 <= i < |r| ensures IsWordChar(r[i]) && !('A' <= r[i] <= 'Z') {
      KeepWordCharsFrom(ToLower(s), r[i]);
      var j :| 0 <= j < |ToLower(s)| && ToLower(s)[j] == r[i];
    }
  }

  /** A title in normal form is its own normalization. */
  lemma {:induction false} NormalizeFixes(s: string)
    requires NormalForm(s)
    ensures Normalize(s) == s
  {
    assert ToLower(s) == s;
    KeepWordCharsAll(s);
  }

  /** Normalizing twice is normalizing once, so the comparison sees each title only up
      to case and non-word chars. */
  lemma {:induction false} NormalizeIdempotent(s: string)
    ensures Normalize(Normalize(s)) == Normalize(s)
  {
    NormalizeNormal(s);
    NormalizeFixes(Normalize(s));
  }

  /* ---------------------------------------------------------------- the scan */

  /** The distance of a hit from the query, both titles normalized. */
  function Distance(dist: (string, string) -> nat, query: string, c: Candidate): nat {
    dist(Normalize(c.title), Normalize(query))
  }

  /** A hit qualifies when its distance is below 10% of the query's raw length,
      `d < length() / 100 * 10` in exact arithmetic. */
  predicate Close(query: string, d: int) {
    10 * d < Length(query)
  }

  /** What a hit is worth: its "Cited by" count, or 0 for a hit without one. */
  function Value(c: Candidate): nat {
    match c.citedBy
    case Some(n) => n
    case None => 0
  }

  /** One iteration of the scan loop. A cited hit wins at a smaller distance, or at the
      same distance with a higher count; a hit without a count wins, as 0 citations,
      only at a strictly smaller distance. */
  function Consider(b: Best, query: string, d: int, c: Candidate): Best {
    match c.citedBy
    case Some(n) =>
      if Close(query, d) then
        if d < b.distance then Best(n, d)
        else if d == b.distance && n > b.citations then Best(n, d)
        else b
      else b
    case None =>
      if Close(query, d) && d < b.distance then Best(0, d) else b
  }

  /** The best after the first `n` hits. */
  function ScanTo(dist: (string, string) -> nat, query: string, cands: seq<Candidate>, n: nat): Best
    requires n <= |cands|
  {
    if n == 0 then START
    else Consider(ScanTo(dist, query, cands, n - 1), query, Distance(dist, query, cands[n - 1]), cands[n - 1])
  }

  /** The best after all hits. */
  function Scan(dist: (string, string) -> nat, query: string, cands: seq<Candidate>): Best {
    ScanTo(dist, query, cands, |cands|)
  }

  /** The best `b` after the first `n` hits, stated without the scan: no qualifying hit is
      closer, no qualifying cited hit as close has a higher count, and unless nothing was
      accepted some qualifying hit at that distance is worth exactly `b.citations`. */
  predicate Summarizes(dist: (string, string) -> nat, query: string, cands: seq<Candidate>, n: nat, b: Best)
    requires n <= |cands|
  {
    && -1 <= b.citations && b.distance <= START_DISTANCE
    && (b.citations < 0 ==> b.distance == START_DISTANCE)
    && (forall i :: 0 <= i < n && Close(query, Distance(dist, query, cands[i])) ==>
          b.distance <= Distance(dist, query, cands[i]))
    && (forall i :: (0 <= i < n && Close(query, Distance(dist, query, cands[i])) &&
                     Distance(dist, query, cands[i]) == b.distance && cands[i].citedBy.Some?) ==>
          cands[i].citedBy.value <= b.citations)
    && (b.citations >= 0 ==>
          exists i :: 0 <= i < n && Close(query, Distance(dist, query, cands[i])) &&
                      Distance(dist, query, cands[i]) == b.distance && Value(cands[i]) == b.citations)
  }

  /** One more hit keeps the summary. */
  lemma {:induction false} ConsiderSummarizes(dist: (string, string) -> nat, query: string,
                                              cands: seq<Candidate>, n: nat, b: Best)
    requires n < |cands| && Summarizes(dist, query, cands, n, b)
    ensures Summarizes(dist, query, cands, n + 1,
                       Consider(b, query, Distance(dist, query, cands[n]), cands[n]))
  {
    var d := Distance(dist, query, cands[n]);
    var b' := Consider(b, query, d, cands[n]);
    if b' != b {
      assert b'.distance == d && b'.citations == Value(cands[n]);
      if b'.distance < b.distance {
        forall i | 0 <= i < n && Close(query, Distance(dist, query, cands[i])) &&
                   Distance(dist, query, cands[i]) == b'.distance
          ensures false
        {
        }
      }
    }
  }

  /** The scan computes the best hit as Summarizes states it. */
  lemma {:induction false} ScanSummarizes(dist: (string, string) -> nat, query: string, cands: seq<Candidate>, n: nat)
    requires n <= |cands|
    ensures Summarizes(dist, query, cands, n, ScanTo(dist, query, cands, n))
    decreases n
  {
    if n > 0 {
      var b := ScanTo(dist, query, cands, n - 1);
      ScanSummarizes(dist, query, cands, n - 1);
      ConsiderSummarizes(dist, query, cands, n - 1, b);
    }
  }

  /** A hit without a count never displaces a cited hit at the same distance. */
  lemma {:induction false} UncitedNeverDisplaces(b: Best, query: string, d: int, title: string)
    requires b.citations >= 0
    requires d == b.distance
    ensures Consider(b, query, d, Candidate(title, None)) == b
  {
  }

  /* ---------------------------------------------------------------- getCitations */

  /** The query after the first attempt found nothing: the part before the first `:`. */
  function RetryTitle(title: string): string
    requires Contains(title, ":")
  {
    title[..IndexOf(title, ":")]
  }

  /** The part before the first colon has no colon, so there is at most one retry. */
  lemma {:induction false} RetryTitleHasNoColon(title: string)
    requires Contains(title, ":")
    ensures !Contains(RetryTitle(title), ":")
  {
    var k := IndexOf(title, ":");
    var p := RetryTitle(title);
    forall j | 0 <= j < k ensures title[j] != ':' {
      OccursAtSingle(title, ':', j);
    }
    assert ':' !in p by {
      forall j | 0 <= j < |p| ensures p[j] != ':' { assert p[j] == title[j]; }
    }
    ContainsSingle(p, ':');
  }

  /** One fetch and scan: ROBOT, the count of the best hit, or None when no hit was
      accepted. */
  function Attempt(fetch: string -> Page, dist: (string, string) -> nat, query: string): Option<int> {
    var page := fetch(query);
    if page.robot then Some(CitationEntry.ROBOT)
    else
      var b := Scan(dist, query, page.candidates);
      if b.citations >= 0 then Some(b.citations) else None
  }

  /** getCitations: the attempt on the title, then on the part before its first colon,
      then NOT_FOUND. */
  function Citations(fetch: string -> Page, dist: (string, string) -> nat, title: string): int
    decreases if Contains(title, ":") then 1 else 0
  {
    match Attempt(fetch, dist, title)
    case Some(r) => r
    case None =>
      if Contains(title, ":") then
        RetryTitleHasNoColon(title);
        Citations(fetch, dist, RetryTitle(title))
      else CitationEntry.NOT_FOUND
  }

  /** The retry never retries: getCitations is at most two attempts. */
  lemma {:induction false} CitationsRetryOnce(fetch: string -> Page, dist: (string, string) -> nat, title: string)
    ensures Citations(fetch, dist, title) ==
      match Attempt(fetch, dist, title)
      case Some(r) => r
      case None =>
        if !Contains(title, ":") then CitationEntry.NOT_FOUND
        else match Attempt(fetch, dist, RetryTitle(title))
          case Some(r) => r
          case None => CitationEntry.NOT_FOUND
  {
    if Attempt(fetch, dist, title).None? && Contains(title, ":") {
      RetryTitleHasNoColon(title);
    }
  }

  /** An attempt yields ROBOT or a count: the count of the best hit, which is never
      negative. */
  lemma {:induction false} AttemptOutcome(fetch: string -> Page, dist: (string, string) -> nat, query: string)
    ensures match Attempt(fetch, dist, query)
      case Some(r) => (r == CitationEntry.ROBOT) == fetch(query).robot && (r != CitationEntry.ROBOT ==> r >= 0)
      case None => !fetch(query).robot
  {
  }

  /** A robot page ends the lookup before any hit is looked at. */
  lemma {:induction false} CitationsRobot(fetch: string -> Page, dist: (string, string) -> nat, title: string)
    requires fetch(title).robot
    ensures Citations(fetch, dist, title) == CitationEntry.ROBOT
  {
  }

  /** The result is ROBOT, NOT_FOUND or a count of citations. */
  lemma {:induction false} CitationsOutcome(fetch: string -> Page, dist: (string, string) -> nat, title: string)
    ensures var r := Citations(fetch, dist, title);
      r == CitationEntry.ROBOT || r == CitationEntry.NOT_FOUND || r >= 0
    decreases if Contains(title, ":") then 1 else 0
  {
    AttemptOutcome(fetch, dist, title);
    if Attempt(fetch, dist, title).None? && Contains(title, ":") {
      RetryTitleHasNoColon(title);
      CitationsOutcome(fetch, dist, RetryTitle(title));
    }
  }

  /** A count found on the first attempt belongs to the best hit for the title. */
  lemma {:induction false} CitationsFromBest(fetch: string -> Page, dist: (string, string) -> nat, title: string)
    requires !fetch(title).robot
    requires Scan(dist, title, fetch(title).candidates).citations >= 0
    ensures var cands := fetch(title).candidates;
      Citations(fetch, dist, title) == Scan(dist, title, cands).citations &&
      Summarizes(dist, title, cands, |cands|, Scan(dist, title, cands))
  {
    ScanSummarizes(dist, title, fetch(title).candidates, |fetch(title).candidates|);
  }

  /** getCitations with the page fetch and the distance as parameters. */
  method GetCitations(fetch: string -> Page, dist: (string, string) -> nat, title: string) returns (r: int)
    ensures r == Citations(fetch, dist, title)
    decreases if Contains(title, ":") then 1 else 0
  {
    var page := fetch(title);
    if page.robot {
      return CitationEntry.ROBOT;
    }
    var bestElementCitations: int := -1;
    var bestElementDistance := START_DISTANCE;
    var i := 0;
    while i < |page.candidates|
      invariant 0 <= i <= |page.candidates|
      invariant Best(bestElementCitations, bestElementDistance) == ScanTo(dist, title, page.candidates, i)
    {
      var candidate := page.candidates[i];
      var elementDistance := dist(Normalize(candidate.title), Normalize(title));
      match candidate.citedBy {
        case Some(citations) =>
          if Close(title, elementDistance) {
            if elementDistance < bestElementDistance {
              bestElementCitations := citations;
              bestElementDistance := elementDistance;
            } else if elementDistance == bestElementDistance {
              if citations > bestElementCitations {
                bestElementCitations := citations;
                bestElementDistance := elementDistance;
              }
            }
          }
        case None =>
          if Close(title, elementDistance) && elementDistance < bestElementDistance {
            bestElementCitations := 0;
            bestElementDistance := elementDistance;
          }
      }
      i := i + 1;
    }
    if bestElementCitations >= 0 {
      return bestElementCitations;
    }
    if IndexOf(title, ":") >= 0 {
      RetryTitleHasNoColon(title);
      r := GetCitations(fetch, dist, title[..IndexOf(title, ":")]);
      return;
    }
    return CitationEntry.NOT_FOUND;
  }
}
