/**
 * The two tag patterns of mdtogo, as a hand-written scanner with the
 * semantics of Go's regexp.FindAllStringSubmatch on them:
 *
 *   visible form:  <!--mdtogo:F-->CONTENT<!--mdtogo-->
 *   hidden form:   <!--mdtogo:F<ws>CONTENT-->
 *
 * where F is Short, Long or Examples, <ws> is one character of the RE2 class
 * `\s`, and CONTENT is lazy: it ends at the first closing marker. Matches are
 * leftmost and do not overlap: after a match the search resumes at its end.
 */
module Tags {
  import opened Text
  import opened Docs

  const Opener: string := "<!--mdtogo:"
  const Closer: string := "<!--mdtogo-->"
  const CommentEnd: string := "-->"

  /**
   * The shape of one tag pattern: the opening for each field, whether one
   * whitespace character must follow the opening, and the closing marker.
   */
  datatype Pattern = Pattern(shortOpen: string, longOpen: string, examplesOpen: string,
                             space: bool, closing: string)
  {
    function Opening(f: Field): string
    {
      match f
      case Short => shortOpen
      case Long => longOpen
      case Examples => examplesOpen
    }

    /** No two field openings can match at the same place. */
    predicate Exclusive()
    {
      forall f, g :: f != g ==> Clash(Opening(f), Opening(g))
    }
  }

  /** `a` and `b` differ at some index both have. */
  predicate Clash(a: string, b: string)
  {
    exists i :: 0 <= i < |a| && i < |b| && a[i] != b[i]
  }

  /** `<!--mdtogo:(Short|Long|Examples)-->([\s\S]*?)<!--mdtogo-->` */
  const VisibleTag: Pattern :=
    Pattern(Opener + "Short" + CommentEnd, Opener + "Long" + CommentEnd,
            Opener + "Examples" + CommentEnd, false, Closer)

  /** `<!--mdtogo:(Short|Long|Examples)\s+?([\s\S]*?)-->` */
  const HiddenTag: Pattern :=
    Pattern(Opener + "Short", Opener + "Long", Opener + "Examples", true, CommentEnd)

  /**
   * A text holding one visible region of field `f` around `c`, between
   * `pre` and `post`: `pre` <!--mdtogo:F--> `c` <!--mdtogo--> `post`.
   */
  function RegionText(pre: string, f: Field, c: string, post: string): string
  {
    (pre + VisibleTag.Opening(f)) + (c + (Closer + post))
  }

  /** One match: the field named in the tag, the captured content, and the span s[start..end]. */
  datatype Match = Match(field: Field, content: string, start: nat, end: nat)

  /** `pat` occurs in `s` at index `k`. */
  predicate IsAt(s: string, pat: string, k: nat)
  {
    k + |pat| <= |s| && forall i :: 0 <= i < |pat| ==> s[k + i] == pat[i]
  }

  /** The first occurrence of `pat` in `s` at or after `i`. */
  function FindFrom(s: string, pat: string, i: nat): (r: Option<nat>)
    ensures r.Some? ==> i <= r.value && IsAt(s, pat, r.value)
    ensures r.Some? ==> forall j :: i <= j < r.value ==> !IsAt(s, pat, j)
    ensures r.None? ==> forall j :: i <= j ==> !IsAt(s, pat, j)
    decreases |s| - i
  {
    if i + |pat| > |s| then None
    else if IsAt(s, pat, i) then Some(i)
    else FindFrom(s, pat, i + 1)
  }

  /** Where the captured content of a region of field `f` opened at `p` begins. */
  function ContentStart(pat: Pattern, f: Field, p: nat): nat
  {
    p + |pat.Opening(f)| + (if pat.space then 1 else 0)
  }

  /**
   * s[p..e] is a string `pat` accepts for field `f`: the opening, the
   * whitespace character if the pattern has one, any content, and the
   * closing marker ending at `e`.
   */
  predicate RegionAt(pat: Pattern, s: string, p: nat, f: Field, e: nat)
  {
    var w := p + |pat.Opening(f)|;
    IsAt(s, pat.Opening(f), p)
    && (pat.space ==> w < |s| && IsRegexSpace(s[w]))
    && ContentStart(pat, f, p) + |pat.closing| <= e
    && IsAt(s, pat.closing, e - |pat.closing|)
  }

  /** Two different field names cannot open at the same place. */
  lemma OpeningUnique(pat: Pattern, s: string, p: nat, f: Field, g: Field)
    requires pat.Exclusive()
    requires IsAt(s, pat.Opening(f), p) && IsAt(s, pat.Opening(g), p)
    ensures f == g
  {
  }

  /** The field whose opening stands at `p`, trying the alternatives in order. */
  function FieldAt(pat: Pattern, s: string, p: nat): (r: Option<Field>)
    ensures r.Some? ==> IsAt(s, pat.Opening(r.value), p)
    ensures r.None? ==> forall f: Field :: !IsAt(s, pat.Opening(f), p)
  {
    if IsAt(s, pat.Opening(Short), p) then Some(Short)
    else if IsAt(s, pat.Opening(Long), p) then Some(Long)
    else if IsAt(s, pat.Opening(Examples), p) then Some(Examples)
    else None
  }

  /**
   * The match `pat` finds when it starts at `p`: the region with the field
   * named there, whose content runs to the first closing marker (the
   * content is lazy).
   */
  function MatchAt(pat: Pattern, s: string, p: nat): Option<Match>
  {
    match FieldAt(pat, s, p)
    case None => None
    case Some(f) =>
      var w := p + |pat.Opening(f)|;
      if pat.space && !(w < |s| && IsRegexSpace(s[w])) then None
      else
        var b := ContentStart(pat, f, p);
        match FindFrom(s, pat.closing, b)
        case None => None
        case Some(k) => Some(Match(f, s[b..k], p, k + |pat.closing|))
  }

  /**
   * A match at `p` is a region `pat` accepts, starting at `p` and ending
   * within `s`, whose content is the text between opening and closing.
   */
  lemma MatchAtSound(pat: Pattern, s: string, p: nat)
    requires MatchAt(pat, s, p).Some?
    ensures MatchAt(pat, s, p).value.start == p && MatchAt(pat, s, p).value.end <= |s|
    ensures RegionAt(pat, s, p, MatchAt(pat, s, p).value.field, MatchAt(pat, s, p).value.end)
    ensures MatchAt(pat, s, p).value.content
            == s[ContentStart(pat, MatchAt(pat, s, p).value.field, p)..MatchAt(pat, s, p).value.end - |pat.closing|]
  {
  }

  /** There is a match at `p` exactly when some region starts at `p`. */
  lemma MatchAtComplete(pat: Pattern, s: string, p: nat, f: Field, e: nat)
    requires pat.Exclusive()
    requires RegionAt(pat, s, p, f, e)
    ensures MatchAt(pat, s, p).Some?
  {
    var g := FieldAt(pat, s, p).value;
    OpeningUnique(pat, s, p, f, g);
  }

  /**
   * The match at `p` is the shortest region starting there, and no region
   * of another field starts there.
   */
  lemma MatchAtShortest(pat: Pattern, s: string, p: nat)
    requires pat.Exclusive()
    requires MatchAt(pat, s, p).Some?
    ensures forall f, e :: RegionAt(pat, s, p, f, e) ==>
              f == MatchAt(pat, s, p).value.field && MatchAt(pat, s, p).value.end <= e
  {
    var g := FieldAt(pat, s, p).value;
    forall f, e | RegionAt(pat, s, p, f, e)
      ensures f == MatchAt(pat, s, p).value.field && MatchAt(pat, s, p).value.end <= e
    {
      OpeningUnique(pat, s, p, f, g);
    }
  }

  /** Each entry of `ats` is a match starting at its own index and ending after it. */
  predicate Advancing(ats: seq<Option<Match>>)
  {
    forall p :: 0 <= p < |ats| && ats[p].Some? ==> ats[p].value.start == p < ats[p].value.end <= |ats|
  }

  /** The match `pat` would find at each position of `s`. */
  function Candidates(pat: Pattern, s: string): (ats: seq<Option<Match>>)
    requires pat.closing != []
    ensures |ats| == |s| && Advancing(ats)
    ensures forall p :: 0 <= p < |s| ==> ats[p] == MatchAt(pat, s, p)
  {
    MatchesAdvance(pat, s);
    seq(|s|, p requires 0 <= p < |s| => MatchAt(pat, s, p))
  }

  /** Every match starts where it is looked for and ends after that, within the text. */
  lemma MatchesAdvance(pat: Pattern, s: string)
    requires pat.closing != []
    ensures forall p :: 0 <= p < |s| && MatchAt(pat, s, p).Some? ==>
              MatchAt(pat, s, p).value.start == p < MatchAt(pat, s, p).value.end <= |s|
  {
    forall p | 0 <= p < |s| && MatchAt(pat, s, p).Some?
      ensures MatchAt(pat, s, p).value.start == p < MatchAt(pat, s, p).value.end <= |s|
    {
      MatchAtSound(pat, s, p);
    }
  }

  /**
   * The leftmost, non-overlapping selection from the candidates: take the
   * match at `from` if there is one and resume at its end, else move on by
   * one. Every selected match is the candidate at its start; the selection
   * is in order and does not overlap.
   */
  function Scan(ats: seq<Option<Match>>, from: nat): (r: seq<Match>)
    requires Advancing(ats)
    ensures forall i :: 0 <= i < |r| ==> from <= r[i].start < |ats| && ats[r[i].start] == Some(r[i])
    ensures forall i, j :: 0 <= i < j < |r| ==> r[i].end <= r[j].start
    decreases |ats| - from
  {
    if from >= |ats| then []
    else
      match ats[from]
      case None => Scan(ats, from + 1)
      case Some(m) => [m] + Scan(ats, m.end)
  }

  /** Without candidates the scan selects nothing. */
  lemma {:induction false} ScanNothing(ats: seq<Option<Match>>, from: nat)
    requires Advancing(ats)
    requires forall p :: from <= p < |ats| ==> ats[p].None?
    ensures Scan(ats, from) == []
    decreases |ats| - from
  {
    if from < |ats| {
      ScanNothing(ats, from + 1);
    }
  }

  /** Position `p` lies inside one of the matches `r`. */
  predicate Covers(r: seq<Match>, p: nat)
  {
    exists i :: 0 <= i < |r| && r[i].start <= p < r[i].end
  }

  /** The scan skips no candidate: each one lies inside a selected match. */
  lemma {:induction false} ScanLeftmost(ats: seq<Option<Match>>, from: nat, p: nat)
    requires Advancing(ats)
    requires from <= p < |ats| && ats[p].Some?
    ensures Covers(Scan(ats, from), p)
    decreases |ats| - from
  {
    var r := Scan(ats, from);
    if ats[from].None? {
      assert r == Scan(ats, from + 1);
      ScanLeftmost(ats, from + 1, p);
    } else {
      var m := ats[from].value;
      var rest := Scan(ats, m.end);
      assert r == [m] + rest;
      if p < m.end {
        assert r[0].start <= p < r[0].end;
      } else {
        ScanLeftmost(ats, m.end, p);
        var i :| 0 <= i < |rest| && rest[i].start <= p < rest[i].end;
        assert r[i + 1] == rest[i];
      }
    }
  }

  /** FindAllStringSubmatch(s, -1) for `pat`. */
  function FindAll(pat: Pattern, s: string): seq<Match>
    requires pat.closing != []
  {
    Scan(Candidates(pat, s), 0)
  }

  /**
   * Every match FindAll reports is the match `pat` finds at its start, and
   * the matches lie in order without overlapping.
   */
  lemma FindAllSound(pat: Pattern, s: string)
    requires pat.closing != []
    ensures forall i :: 0 <= i < |FindAll(pat, s)| ==>
              FindAll(pat, s)[i].start < |s| && MatchAt(pat, s, FindAll(pat, s)[i].start) == Some(FindAll(pat, s)[i])
    ensures forall i, j :: 0 <= i < j < |FindAll(pat, s)| ==> FindAll(pat, s)[i].end <= FindAll(pat, s)[j].start
  {
  }

  /**
   * Leftmost matching: every position where `pat` could start a match lies
   * inside one of the matches found, so no match is skipped.
   */
  lemma FindAllLeftmost(pat: Pattern, s: string, p: nat)
    requires pat.closing != []
    requires p < |s| && MatchAt(pat, s, p).Some?
    ensures Covers(FindAll(pat, s), p)
  {
    ScanLeftmost(Candidates(pat, s), 0, p);
  }

  /** An occurrence inside a slice is an occurrence in the whole text. */
  lemma IsAtInSlice(s: string, lo: nat, hi: nat, c: string, j: nat)
    requires lo <= hi <= |s|
    ensures IsAt(s[lo..hi], c, j) ==> IsAt(s, c, lo + j)
  {
    if IsAt(s[lo..hi], c, j) {
      forall i | 0 <= i < |c| ensures s[lo + j + i] == c[i] {
        assert s[lo..hi][j + i] == s[lo + j + i];
      }
    }
  }

  /** The captured content never holds the closing marker. */
  lemma ContentHasNoClosing(pat: Pattern, s: string, p: nat, j: nat)
    requires pat.Exclusive() && pat.closing != []
    requires MatchAt(pat, s, p).Some?
    ensures !IsAt(MatchAt(pat, s, p).value.content, pat.closing, j)
  {
    var m := MatchAt(pat, s, p).value;
    MatchAtSound(pat, s, p);
    var b := ContentStart(pat, m.field, p);
    var c := pat.closing;
    IsAtInSlice(s, b, m.end - |c|, c, j);
    MatchAtShortest(pat, s, p);
    assert IsAt(s, c, b + j) ==> RegionAt(pat, s, p, m.field, b + j + |c|);
  }

  /** A text in which no opening of `pat` occurs yields no match. */
  lemma NoOpeningNoMatches(pat: Pattern, s: string)
    requires pat.closing != []
    requires forall p: nat, f: Field :: !IsAt(s, pat.Opening(f), p)
    ensures FindAll(pat, s) == []
  {
    var ats := Candidates(pat, s);
    assert forall p :: 0 <= p < |s| ==> MatchAt(pat, s, p).None?;
    ScanNothing(ats, 0);
  }

  /** Both tag patterns of mdtogo are well formed. */
  lemma TagsWellFormed()
    ensures VisibleTag.closing != [] && VisibleTag.Exclusive()
    ensures HiddenTag.closing != [] && HiddenTag.Exclusive()
  {
    var n := |Opener|;
    forall f, g | f != g ensures Clash(VisibleTag.Opening(f), VisibleTag.Opening(g)) {
      assert VisibleTag.Opening(f)[n] == FieldName(f)[0];
      assert VisibleTag.Opening(g)[n] == FieldName(g)[0];
    }
    forall f, g | f != g ensures Clash(HiddenTag.Opening(f), HiddenTag.Opening(g)) {
      assert HiddenTag.Opening(f)[n] == FieldName(f)[0];
      assert HiddenTag.Opening(g)[n] == FieldName(g)[0];
    }
  }

  /** Every opening of either pattern begins with `<!--mdtogo:`. */
  lemma OpeningsStartWithOpener(f: Field)
    ensures VisibleTag.Opening(f)[..|Opener|] == Opener
    ensures HiddenTag.Opening(f)[..|Opener|] == Opener
  {
  }

  /** An occurrence of a string is an occurrence of each of its prefixes. */
  lemma IsAtPrefix(s: string, c: string, n: nat, p: nat)
    requires n <= |c| && IsAt(s, c, p)
    ensures IsAt(s, c[..n], p)
  {
  }

  /** An occurrence past the end of `x` is an occurrence in `y`. */
  lemma IsAtSuffix(x: string, y: string, pat: string, p: nat)
    requires IsAt(x + y, pat, p) && p >= |x|
    ensures IsAt(y, pat, p - |x|)
  {
    forall i | 0 <= i < |pat| ensures y[p - |x| + i] == pat[i] {
      assert (x + y)[p + i] == y[p - |x| + i];
    }
  }

  /** A marker: a string whose only '<' is its first character, as every mdtogo tag part is. */
  predicate Marker(pat: string)
  {
    pat != [] && pat[0] == '<' && forall i :: 0 < i < |pat| ==> pat[i] != '<'
  }

  /** An occurrence that ends within `x` is an occurrence in `x`. */
  lemma IsAtInPrefix(x: string, y: string, pat: string, p: nat)
    requires IsAt(x + y, pat, p) && p + |pat| <= |x|
    ensures IsAt(x, pat, p)
  {
    forall i | 0 <= i < |pat| ensures x[p + i] == pat[i] {
      assert (x + y)[p + i] == x[p + i];
    }
  }

  /** An occurrence that straddles the end of `x` meets the first character of `y`. */
  lemma StraddleAt(x: string, y: string, pat: string, p: nat)
    requires IsAt(x + y, pat, p) && p < |x| < p + |pat|
    ensures pat[|x| - p] == y[0]
  {
    assert (x + y)[p + (|x| - p)] == y[0];
  }

  /**
   * A marker cannot straddle the boundary before a '<': an occurrence in
   * `x` + `y`, where `y` starts with '<', lies wholly in `x` or wholly in `y`.
   */
  lemma MarkerSplit(x: string, y: string, pat: string, p: nat)
    requires Marker(pat) && IsAt(x + y, pat, p)
    requires y != [] && y[0] == '<'
    ensures IsAt(x, pat, p) || (p >= |x| && IsAt(y, pat, p - |x|))
  {
    if p + |pat| <= |x| {
      IsAtInPrefix(x, y, pat, p);
    } else if p < |x| {
      StraddleAt(x, y, pat, p);
      assert false;
    } else {
      IsAtSuffix(x, y, pat, p);
    }
  }

  /**
   * A marker cannot start inside another marker `x`: an occurrence in
   * `x` + `y` starts at 0 or lies wholly in `y`.
   */
  lemma MarkerSkip(x: string, y: string, pat: string, p: nat)
    requires Marker(pat) && Marker(x) && IsAt(x + y, pat, p)
    ensures p == 0 || (p >= |x| && IsAt(y, pat, p - |x|))
  {
    if p < |x| {
      assert (x + y)[p + 0] == pat[0];
    } else {
      IsAtSuffix(x, y, pat, p);
    }
  }

  /**
   * In `pre` + `o` + `c` + `cl` + `post`, where `o` and `cl` are markers,
   * `pat` is a marker that does not start `cl`, and `pre`, `c` and `post`
   * do not hold `pat`, the only occurrence of `pat` is at the start of `o`.
   */
  lemma OnlyAtOpening(pre: string, o: string, c: string, cl: string, post: string, pat: string, p: nat)
    requires Marker(pat) && Marker(o) && Marker(cl)
    requires |pat| <= |cl| && !IsAt(cl, pat, 0)
    requires forall q: nat :: !IsAt(pre, pat, q)
    requires forall q: nat :: !IsAt(c, pat, q)
    requires forall q: nat :: !IsAt(post, pat, q)
    requires IsAt(pre + o + c + cl + post, pat, p)
    ensures p == |pre|
  {
    var r3 := cl + post;
    var r2 := c + r3;
    var r1 := o + r2;
    assert pre + o + c + cl + post == pre + r1;
    MarkerSplit(pre, r1, pat, p);
    if p > |pre| {
      var q1 := p - |pre|;
      MarkerSkip(o, r2, pat, q1);
      if q1 >= |o| {
        var q2 := q1 - |o|;
        MarkerSplit(c, r3, pat, q2);
        if q2 >= |c| {
          NotAtStart(cl, post, pat);
          MarkerSkip(cl, post, pat, q2 - |c|);
        }
      }
    }
  }

  /** A pattern no longer than `x` that does not start `x` does not start `x` + `y`. */
  lemma NotAtStart(x: string, y: string, pat: string)
    requires |pat| <= |x| && !IsAt(x, pat, 0)
    ensures !IsAt(x + y, pat, 0)
  {
    if IsAt(x + y, pat, 0) {
      IsAtInPrefix(x, y, pat, 0);
    }
  }

  /** The first occurrence at or after `i` is the one at `k` when none lies in between. */
  lemma FindFromAt(s: string, pat: string, i: nat, k: nat)
    requires i <= k && IsAt(s, pat, k)
    requires forall j :: i <= j < k ==> !IsAt(s, pat, j)
    ensures FindFrom(s, pat, i) == Some(k)
  {
  }

  /**
   * In `x` + (`c` + (`cl` + `post`)), with no `cl` in `c`, the first `cl`
   * after `x` is the one that follows `c`.
   */
  lemma FirstClosing(x: string, c: string, cl: string, post: string)
    requires Marker(cl)
    requires forall q: nat :: !IsAt(c, cl, q)
    ensures FindFrom(x + (c + (cl + post)), cl, |x|) == Some(|x| + |c|)
  {
    var r3 := cl + post;
    var s := x + (c + r3);
    forall j | |x| <= j < |x| + |c| ensures !IsAt(s, cl, j) {
      if IsAt(s, cl, j) {
        IsAtSuffix(x, c + r3, cl, j);
        MarkerSplit(c, r3, cl, j - |x|);
      }
    }
    ClosingFollows(x, c, cl, post);
    FindFromAt(s, cl, |x|, |x| + |c|);
  }

  lemma ClosingFollows(x: string, c: string, cl: string, post: string)
    ensures IsAt(x + (c + (cl + post)), cl, |x| + |c|)
  {
    var s := x + (c + (cl + post));
    assert s == (x + c) + (cl + post);
    forall i | 0 <= i < |cl| ensures s[|x| + |c| + i] == cl[i] {
      assert ((x + c) + (cl + post))[|x + c| + i] == (cl + post)[i];
    }
  }

  lemma MarkersOfTags(f: Field)
    ensures Marker(Opener) && Marker(Closer) && Marker(VisibleTag.Opening(f))
    ensures |Opener| <= |Closer| && !IsAt(Closer, Opener, 0)
  {
    var o := VisibleTag.Opening(f);
    assert o == Opener + FieldName(f) + CommentEnd;
    forall i | 0 < i < |o| ensures o[i] != '<' {
      if i < |Opener| {
        assert o[i] == Opener[i];
      } else if i < |Opener| + |FieldName(f)| {
        assert o[i] == FieldName(f)[i - |Opener|];
      } else {
        assert o[i] == CommentEnd[i - |Opener| - |FieldName(f)|];
      }
    }
    assert Closer[10] != Opener[10];
  }

  /** The field names start with different letters. */
  lemma FieldInitials(f: Field, g: Field)
    requires FieldName(f)[0] == FieldName(g)[0]
    ensures f == g
  {
  }

  /** Where no match starts, FindAll finds nothing. */
  lemma NoMatchesFound(pat: Pattern, s: string)
    requires pat.closing != []
    requires forall p :: 0 <= p < |s| ==> MatchAt(pat, s, p).None?
    ensures FindAll(pat, s) == []
  {
    ScanNothing(Candidates(pat, s), 0);
  }

  /** The scan passes over positions without candidates. */
  lemma {:induction false} ScanSkip(ats: seq<Option<Match>>, from: nat, k: nat)
    requires Advancing(ats)
    requires from <= k <= |ats|
    requires forall p :: from <= p < k ==> ats[p].None?
    ensures Scan(ats, from) == Scan(ats, k)
    decreases k - from
  {
    if from < k {
      ScanSkip(ats, from + 1, k);
    }
  }

  /** Where a match starts at `k` only, FindAll finds exactly that match. */
  lemma OneMatchFound(pat: Pattern, s: string, k: nat)
    requires pat.closing != []
    requires k < |s| && MatchAt(pat, s, k).Some?
    requires forall p :: 0 <= p < |s| && p != k ==> MatchAt(pat, s, p).None?
    ensures FindAll(pat, s) == [MatchAt(pat, s, k).value]
  {
    var ats := Candidates(pat, s);
    var m := MatchAt(pat, s, k).value;
    ScanSkip(ats, 0, k);
    ScanNothing(ats, m.end);
    assert Scan(ats, k) == [m] + Scan(ats, m.end);
  }

  /** The parts of a visible region. */
  lemma RegionParts(pre: string, f: Field, c: string, post: string)
    ensures RegionText(pre, f, c, post) == pre + VisibleTag.Opening(f) + c + Closer + post
  {
  }

  /** What MatchAt computes for a pattern without the whitespace step. */
  lemma MatchAtPlain(pat: Pattern, s: string, p: nat, f: Field, b: nat, k: nat, c: string, e: nat)
    requires !pat.space && FieldAt(pat, s, p) == Some(f)
    requires b == p + |pat.Opening(f)| && FindFrom(s, pat.closing, b) == Some(k)
    requires b <= k <= |s| && s[b..k] == c && e == k + |pat.closing|
    ensures MatchAt(pat, s, p) == Some(Match(f, c, p, e))
  {
  }

  /** A pattern with the whitespace step fails where no white space follows the opening. */
  lemma MatchAtNoSpace(pat: Pattern, s: string, p: nat, f: Field)
    requires pat.space && FieldAt(pat, s, p) == Some(f)
    requires p + |pat.Opening(f)| < |s| && !IsRegexSpace(s[p + |pat.Opening(f)|])
    ensures MatchAt(pat, s, p).None?
  {
  }

  /** The field of the opening that occurs at `p`. */
  lemma FieldAtOpening(pat: Pattern, s: string, p: nat, f: Field)
    requires pat.Exclusive() && IsAt(s, pat.Opening(f), p)
    ensures FieldAt(pat, s, p) == Some(f)
  {
    OpeningUnique(pat, s, p, f, FieldAt(pat, s, p).value);
  }

  /** The region's opening stands at its start. */
  lemma RegionOpening(pre: string, f: Field, c: string, post: string)
    ensures IsAt(RegionText(pre, f, c, post), VisibleTag.Opening(f), |pre|)
  {
    IsAtFront(pre, VisibleTag.Opening(f), c + (Closer + post));
  }

  /** Where the opening, the text and the closing marker of such a region lie. */
  lemma PlainParts(pat: Pattern, pre: string, f: Field, c: string, post: string, s: string)
    requires pat.Exclusive() && Marker(pat.closing)
    requires forall q: nat :: !IsAt(c, pat.closing, q)
    requires s == (pre + pat.Opening(f)) + (c + (pat.closing + post))
    ensures FieldAt(pat, s, |pre|) == Some(f)
    ensures FindFrom(s, pat.closing, |pre + pat.Opening(f)|) == Some(|pre + pat.Opening(f)| + |c|)
    ensures s[|pre + pat.Opening(f)|..|pre + pat.Opening(f)| + |c|] == c
    ensures |pre + pat.Opening(f)| == |pre| + |pat.Opening(f)|
    ensures |s| - |post| == |pre + pat.Opening(f)| + |c| + |pat.closing| && |pre| < |s|
  {
    var o := pat.Opening(f);
    var x := pre + o;
    IsAtFront(pre, o, c + (pat.closing + post));
    FieldAtOpening(pat, s, |pre|, f);
    FirstClosing(x, c, pat.closing, post);
    SliceOfJoint(x, c, pat.closing + post);
  }

  /** `m` occurs in (`x` + `m`) + `y` right after `x`. */
  lemma IsAtFront(x: string, m: string, y: string)
    ensures IsAt((x + m) + y, m, |x|)
  {
    forall i | 0 <= i < |m| ensures ((x + m) + y)[|x| + i] == m[i] {
      assert ((x + m) + y)[|x| + i] == (x + m)[|x| + i];
    }
  }

  lemma SliceOfJoint(x: string, c: string, y: string)
    ensures (x + (c + y))[|x|..|x| + |c|] == c
  {
    assert (x + (c + y))[|x|..] == c + y;
  }

  /** Where the hidden and visible openings of a field first differ, and how. */
  lemma OpeningChars(f: Field)
    ensures |Opener| < |HiddenTag.Opening(f)| < |VisibleTag.Opening(f)|
    ensures VisibleTag.Opening(f)[|Opener|] == FieldName(f)[0]
    ensures HiddenTag.Opening(f)[|Opener|] == FieldName(f)[0]
    ensures VisibleTag.Opening(f)[|HiddenTag.Opening(f)|] == '-'
  {
    var n := |Opener|;
    assert VisibleTag.Opening(f) == (Opener + FieldName(f)) + CommentEnd;
    assert HiddenTag.Opening(f) == Opener + FieldName(f);
  }

  /** The only place a tag opener occurs in the region's text is the region's start. */
  lemma OpenerOfRegion(pre: string, f: Field, c: string, post: string, p: nat)
    requires forall q: nat :: !IsAt(pre, Opener, q)
    requires forall q: nat :: !IsAt(c, Opener, q)
    requires forall q: nat :: !IsAt(post, Opener, q)
    requires IsAt(RegionText(pre, f, c, post), Opener, p)
    ensures p == |pre|
  {
    MarkersOfTags(f);
    RegionParts(pre, f, c, post);
    OnlyAtOpening(pre, VisibleTag.Opening(f), c, Closer, post, Opener, p);
  }

  /** An opening of either pattern at `p` is an occurrence of the opener at `p`. */
  lemma OpeningHasOpener(pat: Pattern, s: string, f: Field, p: nat)
    requires pat == VisibleTag || pat == HiddenTag
    requires IsAt(s, pat.Opening(f), p)
    ensures IsAt(s, Opener, p)
  {
    OpeningsStartWithOpener(f);
    IsAtPrefix(s, pat.Opening(f), |Opener|, p);
  }

  /** Away from the region's start, neither pattern matches. */
  lemma NoMatchAwayFromRegion(pat: Pattern, pre: string, f: Field, c: string, post: string, p: nat)
    requires pat == VisibleTag || pat == HiddenTag
    requires forall q: nat :: !IsAt(pre, Opener, q)
    requires forall q: nat :: !IsAt(c, Opener, q)
    requires forall q: nat :: !IsAt(post, Opener, q)
    requires p != |pre|
    ensures MatchAt(pat, RegionText(pre, f, c, post), p).None?
  {
    var s := RegionText(pre, f, c, post);
    match FieldAt(pat, s, p)
    case Some(g) =>
      OpeningHasOpener(pat, s, g, p);
      OpenerOfRegion(pre, f, c, post, p);
    case None =>
  }

  /**
   * The hidden pattern does not match at a visible region's start: the
   * field name is followed by '-', not by white space.
   */
  lemma NoHiddenMatchAtRegion(pre: string, f: Field, c: string, post: string)
    ensures MatchAt(HiddenTag, RegionText(pre, f, c, post), |pre|).None?
  {
    var s := RegionText(pre, f, c, post);
    var o := VisibleTag.Opening(f);
    var n := |Opener|;
    RegionOpening(pre, f, c, post);
    OpeningChars(f);
    match FieldAt(HiddenTag, s, |pre|)
    case Some(g) =>
      OpeningChars(g);
      assert s[|pre| + n] == o[n];
      assert s[|pre| + n] == HiddenTag.Opening(g)[n];
      FieldInitials(f, g);
      var h := |HiddenTag.Opening(f)|;
      assert s[|pre| + h] == o[h];
      MatchAtNoSpace(HiddenTag, s, |pre|, f);
    case None =>
  }

  /**
   * A text whose only tag is one visible region: the visible pattern finds
   * exactly that region, with its field and text, and the hidden pattern
   * finds nothing.
   */
  lemma OneRegionFound(pre: string, f: Field, c: string, post: string) returns (m: Match)
    requires forall q: nat :: !IsAt(pre, Opener, q)
    requires forall q: nat :: !IsAt(c, Opener, q)
    requires forall q: nat :: !IsAt(post, Opener, q)
    requires forall q: nat :: !IsAt(c, Closer, q)
    ensures m.field == f && m.content == c
    ensures m.start == |pre| && m.end + |post| == |RegionText(pre, f, c, post)|
    ensures FindAll(VisibleTag, RegionText(pre, f, c, post)) == [m]
    ensures FindAll(HiddenTag, RegionText(pre, f, c, post)) == []
  {
    m := VisibleRegionFound(pre, f, c, post);
    HiddenNothingFound(pre, f, c, post);
  }

  /** The visible pattern finds exactly the one region. */
  lemma VisibleRegionFound(pre: string, f: Field, c: string, post: string) returns (m: Match)
    requires forall q: nat :: !IsAt(pre, Opener, q)
    requires forall q: nat :: !IsAt(c, Opener, q)
    requires forall q: nat :: !IsAt(post, Opener, q)
    requires forall q: nat :: !IsAt(c, Closer, q)
    ensures m.field == f && m.content == c
    ensures m.start == |pre| && m.end + |post| == |RegionText(pre, f, c, post)|
    ensures FindAll(VisibleTag, RegionText(pre, f, c, post)) == [m]
  {
    VisibleParts(pre, f, c, post);
    NoOtherVisibleMatch(pre, f, c, post);
    m := Match(f, c, |pre|, |RegionText(pre, f, c, post)| - |post|);
    OnlyPlainMatch(VisibleTag, RegionText(pre, f, c, post), |pre|, f, |pre + VisibleTag.Opening(f)|,
      c, |RegionText(pre, f, c, post)| - |post|, m);
  }

  /** Where the parts of a visible region lie. */
  lemma VisibleParts(pre: string, f: Field, c: string, post: string)
    requires forall q: nat :: !IsAt(c, Closer, q)
    ensures PlainAt(VisibleTag, RegionText(pre, f, c, post), |pre|, f, |pre + VisibleTag.Opening(f)|,
      c, |RegionText(pre, f, c, post)| - |post|)
  {
    TagsWellFormed();
    MarkersOfTags(f);
    PlainParts(VisibleTag, pre, f, c, post, RegionText(pre, f, c, post));
  }

  /** The visible pattern matches a visible region nowhere but at its start. */
  lemma NoOtherVisibleMatch(pre: string, f: Field, c: string, post: string)
    requires forall q: nat :: !IsAt(pre, Opener, q)
    requires forall q: nat :: !IsAt(c, Opener, q)
    requires forall q: nat :: !IsAt(post, Opener, q)
    ensures OnlyMatchAt(VisibleTag, RegionText(pre, f, c, post), |pre|)
  {
    forall p | 0 <= p < |RegionText(pre, f, c, post)| && p != |pre|
      ensures MatchAt(VisibleTag, RegionText(pre, f, c, post), p).None?
    {
      NoMatchAwayFromRegion(VisibleTag, pre, f, c, post, p);
    }
  }

  /**
   * A pattern without the whitespace step whose opening of `f` stands at
   * `p`, followed from `b` by the text `c` up to the first closing marker,
   * so that the match ends at `e`.
   */
  predicate PlainAt(pat: Pattern, s: string, p: nat, f: Field, b: nat, c: string, e: nat)
  {
    match FindFrom(s, pat.closing, b)
    case None => false
    case Some(k) =>
      && pat.closing != [] && p < |s|
      && !pat.space && FieldAt(pat, s, p) == Some(f)
      && b == p + |pat.Opening(f)| && b <= k <= |s| && s[b..k] == c && e == k + |pat.closing|
  }

  /** No position of `s` other than `p` starts a match. */
  predicate OnlyMatchAt(pat: Pattern, s: string, p: nat)
  {
    forall q :: 0 <= q < |s| && q != p ==> MatchAt(pat, s, q).None?
  }

  /**
   * When the match at `p` is the plain region described by `b`, `k` and
   * `e`, and no other position starts a match, FindAll finds that region
   * alone.
   */
  lemma OnlyPlainMatch(pat: Pattern, s: string, p: nat, f: Field, b: nat, c: string, e: nat, m: Match)
    requires m == Match(f, c, p, e)
    requires PlainAt(pat, s, p, f, b, c, e) && OnlyMatchAt(pat, s, p)
    ensures FindAll(pat, s) == [m]
  {
    MatchAtPlain(pat, s, p, f, b, FindFrom(s, pat.closing, b).value, c, e);
    OneMatchFound(pat, s, p);
  }

  /** The hidden pattern finds nothing in a visible region. */
  lemma HiddenNothingFound(pre: string, f: Field, c: string, post: string)
    requires forall q: nat :: !IsAt(pre, Opener, q)
    requires forall q: nat :: !IsAt(c, Opener, q)
    requires forall q: nat :: !IsAt(post, Opener, q)
    ensures FindAll(HiddenTag, RegionText(pre, f, c, post)) == []
  {
    TagsWellFormed();
    var s := RegionText(pre, f, c, post);
    forall p | 0 <= p < |s| ensures MatchAt(HiddenTag, s, p).None? {
      if p == |pre| {
        NoHiddenMatchAtRegion(pre, f, c, post);
      } else {
        NoMatchAwayFromRegion(HiddenTag, pre, f, c, post, p);
      }
    }
    NoMatchesFound(HiddenTag, s);
  }
}
