// The two regular expressions `getUrls` applies to the Authority Information
// Access extension value, and the way JavaScript's non-global
// `String.prototype.match` runs them:
//
//   issuer URL  /http[^\s]+\.der/
//   OCSP URL    /http[^\s]+ocsp[^\s"]*/
//
// The engine is modelled step by step (start positions tried left to right; at
// each one the greedy `[^\s]+` first takes the whole non-whitespace run and
// then gives characters back one at a time), and is proved to report exactly
// the leftmost match, extended as far as it goes.
module UrlPatterns {
  import opened Options
  import opened JsText

  datatype Pattern =
    | IssuerDer   // /http[^\s]+\.der/
    | OcspUrl     // /http[^\s]+ocsp[^\s"]*/

  /** The negated character classes of the two patterns: `[^\s]` and `[^\s"]`. */
  datatype Class = NotSpace | NotSpaceOrQuote

  predicate InClass(c: char, k: Class) {
    match k
    case NotSpace => !IsSpace(c)
    case NotSpaceOrQuote => !IsSpace(c) && c != '"'
  }

  predicate AllIn(t: string, k: Class) {
    forall m :: 0 <= m < |t| ==> InClass(t[m], k)
  }

  const Http: string := "http"
  const DotDer: string := ".der"
  const Ocsp: string := "ocsp"

  /** A matched substring, `s[start..end]`. */
  datatype Span = Span(start: nat, end: nat)

  // ---------------------------------------------------------------------
  // What the patterns denote

  /** `t` is `http`, a non-empty `[^\s]` run, `ocsp` at index `k`, then a `[^\s"]` run. */
  ghost predicate OcspSplitAt(t: string, k: int) {
    5 <= k && k + 4 <= |t|
    && t[..4] == Http && AllIn(t[4..k], NotSpace)
    && t[k..k + 4] == Ocsp && AllIn(t[k + 4..], NotSpaceOrQuote)
  }

  /** The strings each pattern matches as a whole. */
  ghost predicate InLanguage(p: Pattern, t: string) {
    match p
    case IssuerDer =>
      |t| >= 9 && t[..4] == Http && AllIn(t[4..|t| - 4], NotSpace) && t[|t| - 4..] == DotDer
    case OcspUrl =>
      exists k :: OcspSplitAt(t, k)
  }

  /** `s[i..j]` is a match of `p`. */
  ghost predicate MatchesAt(p: Pattern, s: string, i: int, j: int) {
    0 <= i <= j <= |s| && InLanguage(p, s[i..j])
  }

  /** Some substring of `s` matches `p`. */
  ghost predicate Occurs(p: Pattern, s: string) {
    exists i, j :: MatchesAt(p, s, i, j)
  }

  /** `sp` is a match of `p` with no match starting further left and no longer match from the same start. */
  ghost predicate LeftmostLongest(p: Pattern, s: string, sp: Span) {
    MatchesAt(p, s, sp.start, sp.end)
    && (forall i, j :: 0 <= i < sp.start ==> !MatchesAt(p, s, i, j))
    && (forall j :: sp.end < j ==> !MatchesAt(p, s, sp.start, j))
  }

  // ---------------------------------------------------------------------
  // How the engine runs them

  /** Where a greedy run of class `k` that starts at `j` stops: the first index at or after `j` outside the class, or `|s|`. */
  function RunEnd(s: string, j: nat, k: Class): (e: nat)
    requires j <= |s|
    ensures j <= e <= |s|
    ensures AllIn(s[j..e], k)
    ensures e < |s| ==> !InClass(s[e], k)
    decreases |s| - j
  {
    if j == |s| || !InClass(s[j], k) then j
    else
      var e := RunEnd(s, j + 1, k);
      assert forall m :: 0 < m < e - j ==> s[j..e][m] == s[j + 1..e][m - 1];
      e
  }

  /**
   * Backtracking of a greedy `[^\s]+` into the literal `lit`: the literal is
   * tried after the longest run (at `k`), then after ever shorter runs, down to
   * position `lo`; the first position where it matches is returned.
   */
  function Backtrack(s: string, lit: string, lo: nat, k: int): (r: Option<nat>)
    requires k <= |s|
    ensures r.Some? ==> lo <= r.value <= k && OccursAt(s, lit, r.value)
    ensures r.Some? ==> forall m :: r.value < m <= k ==> !OccursAt(s, lit, m)
    ensures r.None? ==> forall m :: lo <= m <= k ==> !OccursAt(s, lit, m)
    decreases k + 1 - lo
  {
    if k < lo then None
    else if OccursAt(s, lit, k) then Some(k)
    else Backtrack(s, lit, lo, k - 1)
  }

  /** The end of the match the engine finds for `p` when it starts at `i`, or None when every alternative fails there. */
  function MatchAt(p: Pattern, s: string, i: nat): (r: Option<nat>)
    requires i <= |s|
    ensures r.Some? ==> i + 9 <= r.value <= |s|
  {
    if !OccursAt(s, Http, i) then None
    else
      var e := RunEnd(s, i + 4, NotSpace);
      match p
      case IssuerDer =>
        (match Backtrack(s, DotDer, i + 5, e)
         case None => None
         case Some(k) => Some(k + 4))
      case OcspUrl =>
        (match Backtrack(s, Ocsp, i + 5, e)
         case None => None
         case Some(k) => Some(RunEnd(s, k + 4, NotSpaceOrQuote)))
  }

  /** The engine's scan over start positions `i`, `i + 1`, ..., `|s|`: the first start at which the pattern matches wins. */
  function SearchFrom(p: Pattern, s: string, i: nat): (r: Option<Span>)
    requires i <= |s|
    ensures r.Some? ==> i <= r.value.start <= |s| && MatchAt(p, s, r.value.start) == Some(r.value.end)
    ensures r.Some? ==> forall m :: i <= m < r.value.start ==> MatchAt(p, s, m).None?
    ensures r.None? ==> forall m :: i <= m <= |s| ==> MatchAt(p, s, m).None?
    decreases |s| - i
  {
    match MatchAt(p, s, i)
    case Some(end) => Some(Span(i, end))
    case None => if i == |s| then None else SearchFrom(p, s, i + 1)
  }

  // ---------------------------------------------------------------------
  // The engine against the denotation

  lemma Slice(s: string, i: int, j: int, a: int, b: int)
    requires 0 <= i <= j <= |s| && 0 <= a <= b <= j - i
    ensures s[i..j][a..b] == s[i + a..i + b]
  {
    forall m | 0 <= m < b - a ensures s[i..j][a..b][m] == s[i + a..i + b][m] {
    }
  }

  lemma AllInSlice(s: string, a: int, b: int, c: int, d: int, k: Class)
    requires 0 <= a <= c <= d <= b <= |s| && AllIn(s[a..b], k)
    ensures AllIn(s[c..d], k)
  {
    forall m | 0 <= m < d - c ensures InClass(s[c..d][m], k) {
      assert s[c..d][m] == s[a..b][m + c - a];
    }
  }

  lemma AllInJoin(s: string, a: int, b: int, c: int, k: Class)
    requires 0 <= a <= b <= c <= |s| && AllIn(s[a..b], k) && AllIn(s[b..c], k)
    ensures AllIn(s[a..c], k)
  {
    forall m | 0 <= m < c - a ensures InClass(s[a..c][m], k) {
      if m < b - a {
        assert s[a..c][m] == s[a..b][m];
      } else {
        assert s[a..c][m] == s[b..c][m - (b - a)];
      }
    }
  }

  /** The three literals contain neither whitespace nor a double quote. */
  lemma LiteralInClass(s: string, lit: string, i: int, k: Class)
    requires lit == Http || lit == DotDer || lit == Ocsp
    requires OccursAt(s, lit, i)
    ensures AllIn(s[i..i + 4], k)
  {
    var t := s[i..i + 4];
    forall m | 0 <= m < |t| ensures InClass(t[m], k) {
      assert t[m] == lit[m];
    }
  }

  /** A greedy run that starts at `j` reaches at least as far as any stretch of the class that starts there. */
  lemma RunEndCovers(s: string, j: nat, c: int, k: Class)
    requires j <= c <= |s| && AllIn(s[j..c], k)
    ensures c <= RunEnd(s, j, k)
  {
  }

  /** Whatever the engine reports at start `i` is a match. */
  lemma {:induction false} MatchAtSound(p: Pattern, s: string, i: nat)
    requires i <= |s| && MatchAt(p, s, i).Some?
    ensures MatchesAt(p, s, i, MatchAt(p, s, i).value)
  {
    match p
    case IssuerDer => IssuerSound(s, i);
    case OcspUrl => OcspSound(s, i);
  }

  lemma IssuerSound(s: string, i: nat)
    requires i <= |s| && MatchAt(IssuerDer, s, i).Some?
    ensures MatchesAt(IssuerDer, s, i, MatchAt(IssuerDer, s, i).value)
  {
    assert OccursAt(s, Http, i);
    var e := RunEnd(s, i + 4, NotSpace);
    var k := Backtrack(s, DotDer, i + 5, e).value;
    var j := k + 4;
    assert MatchAt(IssuerDer, s, i) == Some(j);
    Slice(s, i, j, 0, 4);
    AllInSlice(s, i + 4, e, i + 4, k, NotSpace);
    Slice(s, i, j, 4, j - i - 4);
    Slice(s, i, j, j - i - 4, j - i);
  }

  lemma OcspSound(s: string, i: nat)
    requires i <= |s| && MatchAt(OcspUrl, s, i).Some?
    ensures MatchesAt(OcspUrl, s, i, MatchAt(OcspUrl, s, i).value)
  {
    assert OccursAt(s, Http, i);
    var e := RunEnd(s, i + 4, NotSpace);
    var k := Backtrack(s, Ocsp, i + 5, e).value;
    var j := RunEnd(s, k + 4, NotSpaceOrQuote);
    assert MatchAt(OcspUrl, s, i) == Some(j);
    Slice(s, i, j, 0, 4);
    AllInSlice(s, i + 4, e, i + 4, k, NotSpace);
    Slice(s, i, j, 4, k - i);
    Slice(s, i, j, k - i, k - i + 4);
    Slice(s, i, j, k - i + 4, j - i);
    assert OcspSplitAt(s[i..j], k - i);
  }

  /** Every match from start `i` is found by the engine there, and none is longer than the one it reports. */
  lemma {:induction false} MatchAtLongest(p: Pattern, s: string, i: nat, j: int)
    requires MatchesAt(p, s, i, j)
    ensures MatchAt(p, s, i).Some? && j <= MatchAt(p, s, i).value
  {
    Slice(s, i, j, 0, 4);
    assert OccursAt(s, Http, i);
    match p
    case IssuerDer => IssuerLongest(s, i, j);
    case OcspUrl => OcspLongest(s, i, j);
  }

  lemma IssuerLongest(s: string, i: nat, j: int)
    requires MatchesAt(IssuerDer, s, i, j) && OccursAt(s, Http, i)
    ensures MatchAt(IssuerDer, s, i).Some? && j <= MatchAt(IssuerDer, s, i).value
  {
    Slice(s, i, j, 4, j - i - 4);
    Slice(s, i, j, j - i - 4, j - i);
    LiteralInClass(s, DotDer, j - 4, NotSpace);
    AllInJoin(s, i + 4, j - 4, j, NotSpace);
    RunEndCovers(s, i + 4, j, NotSpace);
    // `.der` at j - 4 lies inside the range that Backtrack searches
    assert OccursAt(s, DotDer, j - 4) && i + 5 <= j - 4 <= RunEnd(s, i + 4, NotSpace);
  }

  lemma OcspLongest(s: string, i: nat, j: int)
    requires MatchesAt(OcspUrl, s, i, j) && OccursAt(s, Http, i)
    ensures MatchAt(OcspUrl, s, i).Some? && j <= MatchAt(OcspUrl, s, i).value
  {
    var t := s[i..j];
    var e := RunEnd(s, i + 4, NotSpace);
    var kt :| OcspSplitAt(t, kt);
    var a := i + kt;
    Slice(s, i, j, 4, kt);
    Slice(s, i, j, kt, kt + 4);
    Slice(s, i, j, kt + 4, j - i);
    LiteralInClass(s, Ocsp, a, NotSpace);
    AllInJoin(s, i + 4, a, a + 4, NotSpace);
    RunEndCovers(s, i + 4, a + 4, NotSpace);
    var b := Backtrack(s, Ocsp, i + 5, e);
    assert OccursAt(s, Ocsp, a);
    var k := b.value;
    if k + 4 < j {
      AllInSlice(s, a + 4, j, k + 4, j, NotSpaceOrQuote);
      RunEndCovers(s, k + 4, j, NotSpaceOrQuote);
    }
  }

  /**
   * `s.match(p)`: the span of the first match, or None for `null`. It is None
   * exactly when no substring of `s` matches, and otherwise it is the leftmost
   * match, extended as far as it goes.
   */
  function Exec(p: Pattern, s: string): (r: Option<Span>)
    ensures r.Some? <==> Occurs(p, s)
    ensures r.Some? ==> LeftmostLongest(p, s, r.value)
  {
    var r := SearchFrom(p, s, 0);
    ExecAgainstSearch(p, s, r);
    r
  }

  lemma ExecAgainstSearch(p: Pattern, s: string, r: Option<Span>)
    requires r == SearchFrom(p, s, 0)
    ensures r.Some? <==> Occurs(p, s)
    ensures r.Some? ==> LeftmostLongest(p, s, r.value)
  {
    forall i, j | MatchesAt(p, s, i, j)
      ensures MatchAt(p, s, i).Some? && j <= MatchAt(p, s, i).value
    {
      MatchAtLongest(p, s, i, j);
    }
    if r.Some? {
      MatchAtSound(p, s, r.value.start);
    }
  }

  /** The leftmost-longest match is unique, so it pins down what `Exec` reports. */
  lemma LeftmostLongestUnique(p: Pattern, s: string, a: Span, b: Span)
    requires LeftmostLongest(p, s, a) && LeftmostLongest(p, s, b)
    ensures a == b
  {
  }

  /** What `Exec` reports is determined by the declarative description alone. */
  lemma ExecReports(p: Pattern, s: string, sp: Span)
    requires LeftmostLongest(p, s, sp)
    ensures Exec(p, s) == Some(sp)
  {
    LeftmostLongestUnique(p, s, Exec(p, s).value, sp);
  }

  /** Every match begins with `http`. */
  lemma {:induction false} MatchStartsWithHttp(p: Pattern, s: string, i: int, j: int)
    ensures MatchesAt(p, s, i, j) ==> OccursAt(s, Http, i)
  {
    if MatchesAt(p, s, i, j) {
      var t := s[i..j];
      assert t[..4] == s[i..i + 4];
      if p.OcspUrl? {
        var k :| OcspSplitAt(t, k);
      }
    }
  }

  /** Every match is at least `"http"`, one character and a four-character literal long, so a match is never the empty string. */
  lemma {:induction false} MatchLength(p: Pattern, t: string)
    requires InLanguage(p, t)
    ensures |t| >= 9
  {
    if p.OcspUrl? {
      var k :| OcspSplitAt(t, k);
    }
  }

  /**
   * The extent of the issuer match: it starts with `http`, contains no
   * whitespace, and ends at the last `.der` inside the unbroken non-whitespace
   * run that follows that `http`.
   */
  lemma IssuerExtent(s: string)
    requires Exec(IssuerDer, s).Some?
    ensures var sp := Exec(IssuerDer, s).value;
      OccursAt(s, Http, sp.start) && OccursAt(s, DotDer, sp.end - 4)
      && sp.start + 5 <= sp.end - 4 && AllIn(s[sp.start..sp.end], NotSpace)
      && forall m :: sp.end - 4 < m && m + 4 <= |s| && AllIn(s[sp.start..m + 4], NotSpace)
           ==> !OccursAt(s, DotDer, m)
  {
    var sp := Exec(IssuerDer, s).value;
    var i, j := sp.start, sp.end;
    var e := RunEnd(s, i + 4, NotSpace);
    var k := Backtrack(s, DotDer, i + 5, e).value;
    assert j == k + 4;
    LiteralInClass(s, Http, i, NotSpace);
    LiteralInClass(s, DotDer, k, NotSpace);
    AllInSlice(s, i + 4, e, i + 4, k, NotSpace);
    AllInJoin(s, i, i + 4, k, NotSpace);
    AllInJoin(s, i, k, j, NotSpace);
    forall m | sp.end - 4 < m && m + 4 <= |s| && AllIn(s[i..m + 4], NotSpace)
      ensures !OccursAt(s, DotDer, m)
    {
      AllInSlice(s, i, m + 4, i + 4, m + 4, NotSpace);
      RunEndCovers(s, i + 4, m + 4, NotSpace);
    }
  }

  /**
   * `k` is where the `ocsp` of the OCSP match `sp` sits: at least five
   * characters after the start, the last `ocsp` inside the unbroken
   * non-whitespace run that follows the `http`; the match then extends up to,
   * not including, the first whitespace or double quote after it, or to the end
   * of the string.
   */
  ghost predicate OcspAnchoredAt(s: string, sp: Span, k: int) {
    sp.start + 5 <= k && k + 4 <= sp.end <= |s| && OccursAt(s, Ocsp, k)
    && AllIn(s[sp.start..k + 4], NotSpace)
    && (forall m :: k < m && m + 4 <= |s| && AllIn(s[sp.start..m + 4], NotSpace) ==> !OccursAt(s, Ocsp, m))
    && AllIn(s[k + 4..sp.end], NotSpaceOrQuote)
    && (sp.end == |s| || !InClass(s[sp.end], NotSpaceOrQuote))
  }

  /** The extent of the OCSP match: it starts with `http` and is anchored at its last `ocsp` as described above. */
  lemma OcspExtent(s: string)
    requires Exec(OcspUrl, s).Some?
    ensures OccursAt(s, Http, Exec(OcspUrl, s).value.start)
    ensures exists k :: OcspAnchoredAt(s, Exec(OcspUrl, s).value, k)
  {
    var sp := Exec(OcspUrl, s).value;
    var i, j := sp.start, sp.end;
    assert OccursAt(s, Http, i);
    var e := RunEnd(s, i + 4, NotSpace);
    var k := Backtrack(s, Ocsp, i + 5, e).value;
    OcspStopsAt(s, i, e, k, j);
    LiteralInClass(s, Http, i, NotSpace);
    LiteralInClass(s, Ocsp, k, NotSpace);
    AllInSlice(s, i + 4, e, i + 4, k, NotSpace);
    AllInJoin(s, i, i + 4, k, NotSpace);
    AllInJoin(s, i, k, k + 4, NotSpace);
    OcspIsLastInRun(s, i, e, k);
    assert OcspAnchoredAt(s, sp, k);
  }

  lemma OcspStopsAt(s: string, i: nat, e: nat, k: nat, j: nat)
    requires i + 4 <= |s| && e == RunEnd(s, i + 4, NotSpace) && Backtrack(s, Ocsp, i + 5, e) == Some(k)
    requires MatchAt(OcspUrl, s, i) == Some(j)
    ensures k + 4 <= j && AllIn(s[k + 4..j], NotSpaceOrQuote) && (j == |s| || !InClass(s[j], NotSpaceOrQuote))
  {
    assert OccursAt(s, Http, i);
  }

  lemma OcspIsLastInRun(s: string, i: nat, e: nat, k: nat)
    requires i + 4 <= |s| && e == RunEnd(s, i + 4, NotSpace) && Backtrack(s, Ocsp, i + 5, e) == Some(k)
    ensures forall m :: k < m && m + 4 <= |s| && AllIn(s[i..m + 4], NotSpace) ==> !OccursAt(s, Ocsp, m)
  {
    forall m | k < m && m + 4 <= |s| && AllIn(s[i..m + 4], NotSpace)
      ensures !OccursAt(s, Ocsp, m)
    {
      AllInSlice(s, i, m + 4, i + 4, m + 4, NotSpace);
      RunEndCovers(s, i + 4, m + 4, NotSpace);
    }
  }
}
