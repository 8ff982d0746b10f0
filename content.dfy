/**
 * cleanUpContent: the normaliser applied to the text of Long and Examples
 * regions. The text is split into lines; a line starting with a code fence
 * (three backticks) flips the indentation state and is dropped; other lines
 * are indented by two spaces while the state is on, and every backtick is
 * rewritten so that the line can sit inside a Go raw string literal.
 */
module Content {
  import opened Text

  /**
   * What one backtick becomes: close the raw string, concatenate an
   * interpreted string holding a backtick, reopen the raw string.
   */
  const Escaped: string := "` + \"`\" + `"

  /** Number of occurrences of `c` in `s`. */
  function Count(s: string, c: char): (n: nat)
    ensures n == 0 <==> c !in s
  {
    if s == [] then 0 else (if s[0] == c then 1 else 0) + Count(s[1..], c)
  }

  /** Index of the first `c` in `s`, or |s| when there is none. */
  function FirstIndex(s: string, c: char): (k: nat)
    ensures k <= |s|
    ensures k < |s| ==> s[k] == c
    ensures forall j :: 0 <= j < k ==> s[j] != c
  {
    if s == [] || s[0] == c then 0 else 1 + FirstIndex(s[1..], c)
  }

  /** bufio.ScanLines removes one carriage return at the end of each line. */
  function DropCR(line: string): string
  {
    if |line| > 0 && line[|line| - 1] == '\r' then line[..|line| - 1] else line
  }

  /**
   * The tokens a bufio.Scanner with ScanLines yields for `t`: the text split
   * at each newline, with no empty token after a final newline and none at
   * all for empty text. No token holds a newline or a character not in `t`.
   */
  function ScanLines(t: string): seq<string>
    decreases |t|
  {
    if t == [] then []
    else
      var k := FirstIndex(t, '\n');
      if k == |t| then [DropCR(t)]
      else [DropCR(t[..k])] + ScanLines(t[k + 1..])
  }

  /** No token holds a newline, and every character of a token occurs in `t`. */
  lemma {:induction false} ScanLinesChars(t: string)
    ensures forall k :: 0 <= k < |ScanLines(t)| ==> '\n' !in ScanLines(t)[k]
    ensures forall k, c :: 0 <= k < |ScanLines(t)| && c in ScanLines(t)[k] ==> c in t
    decreases |t|
  {
    if t != [] {
      var k := FirstIndex(t, '\n');
      if k == |t| {
        assert forall c :: c in DropCR(t) ==> c in t;
      } else {
        var rest := t[k + 1..];
        ScanLinesChars(rest);
        assert forall c :: c in DropCR(t[..k]) ==> c in t[..k];
        assert forall c :: c in rest ==> c in t;
        assert ScanLines(t) == [DropCR(t[..k])] + ScanLines(rest);
      }
    }
  }

  /**
   * On text without carriage returns that does not end in a newline,
   * joining the scanned lines with newlines gives the text back.
   */
  lemma {:induction false} ScanLinesJoin(t: string)
    requires '\r' !in t
    requires t == [] || t[|t| - 1] != '\n'
    ensures Join(ScanLines(t), "\n") == t
    decreases |t|
  {
    if t != [] {
      var k := FirstIndex(t, '\n');
      if k == |t| {
        assert DropCR(t) == t;
      } else {
        var line, rest := ScanLinesSplit(t);
        ScanLinesJoin(rest);
        assert ScanLines(rest) != [];
        assert ScanLines(t) == [line] + ScanLines(rest);
      }
    }
  }

  /** The first line of `t` and the text after its newline, when `t` holds a newline before its end. */
  lemma ScanLinesSplit(t: string) returns (line: string, rest: string)
    requires '\r' !in t
    requires t != [] && t[|t| - 1] != '\n' && FirstIndex(t, '\n') < |t|
    ensures t == line + "\n" + rest && rest != [] && rest[|rest| - 1] != '\n'
    ensures '\r' !in rest && DropCR(line) == line
    ensures ScanLines(t) == [line] + ScanLines(rest)
  {
    var k := FirstIndex(t, '\n');
    line, rest := t[..k], t[k + 1..];
    assert k < |t| - 1;
    assert '\r' !in rest by {
      forall c | c in rest ensures c != '\r' { assert c in t; }
    }
    assert rest[|rest| - 1] == t[|t| - 1];
    assert DropCR(line) == line by {
      if |line| > 0 { assert line[k - 1] == t[k - 1]; }
    }
    assert t == line + "\n" + rest;
  }

  /**
   * strings.HasPrefix(line, "```"): the line opens or closes a Markdown
   * code block.
   */
  predicate IsFence(line: string)
  {
    |line| >= 3 && line[0] == '`' && line[1] == '`' && line[2] == '`'
  }

  /**
   * strings.ReplaceAll(line, "`", Escaped). Each backtick grows the line by
   * the ten extra characters of the escape.
   */
  function Escape(s: string): (r: string)
    ensures |r| == |s| + 10 * Count(s, '`')
  {
    if s == [] then []
    else (if s[0] == '`' then Escaped else [s[0]]) + Escape(s[1..])
  }

  /** `s` with every carriage return removed. */
  function WithoutCR(s: string): (r: string)
    ensures '\r' !in r
    ensures '\r' !in s ==> r == s
  {
    if s == [] then []
    else
      assert s == [s[0]] + s[1..];
      (if s[0] == '\r' then [] else [s[0]]) + WithoutCR(s[1..])
  }

  /**
   * The value of the Go source text `t` placed between two backticks: each
   * escape sequence closes the raw literal, adds a backtick and opens a new
   * one, and every carriage return inside a raw literal is discarded.
   */
  function Unescape(t: string): string
    decreases |t|
  {
    if t == [] then []
    else if |t| >= |Escaped| && t[..|Escaped|] == Escaped then "`" + Unescape(t[|Escaped|..])
    else if t[0] == '\r' then Unescape(t[1..])
    else [t[0]] + Unescape(t[1..])
  }

  /**
   * Escaping loses only carriage returns: the Go literal evaluates back to
   * the line without them, and to the line itself when it holds none.
   */
  lemma {:induction false} EscapeRoundTrip(s: string)
    ensures Unescape(Escape(s)) == WithoutCR(s)
    ensures '\r' !in s ==> Unescape(Escape(s)) == s
  {
    if s != [] {
      var rest := Escape(s[1..]);
      EscapeRoundTrip(s[1..]);
      if s[0] == '`' {
        assert (Escaped + rest)[..|Escaped|] == Escaped;
        assert (Escaped + rest)[|Escaped|..] == rest;
      } else {
        assert ([s[0]] + rest)[1..] == rest;
        assert ([s[0]] + rest)[0] != Escaped[0];
      }
    }
  }

  /**
   * Every backtick of `t` starts a complete escape sequence, so `t` can be
   * placed between two backticks without ending the raw string early.
   */
  predicate RawSafe(t: string)
    decreases |t|
  {
    t == []
    || (|t| >= |Escaped| && t[..|Escaped|] == Escaped && RawSafe(t[|Escaped|..]))
    || (t[0] != '`' && RawSafe(t[1..]))
  }

  lemma {:induction false} EscapeRawSafe(s: string)
    ensures RawSafe(Escape(s))
  {
    if s != [] {
      var rest := Escape(s[1..]);
      EscapeRawSafe(s[1..]);
      if s[0] == '`' {
        assert (Escaped + rest)[..|Escaped|] == Escaped;
        assert (Escaped + rest)[|Escaped|..] == rest;
      } else {
        assert ([s[0]] + rest)[1..] == rest;
      }
    }
  }

  /** Escaping changes a line exactly when the line holds a backtick. */
  lemma EscapeIdentity(s: string)
    ensures Escape(s) == s <==> '`' !in s
  {
    if '`' !in s {
      EscapeNoBacktick(s);
    }
  }

  lemma {:induction false} EscapeNoBacktick(s: string)
    requires '`' !in s
    ensures Escape(s) == s
  {
    if s != [] {
      assert '`' !in s[1..];
      EscapeNoBacktick(s[1..]);
      assert s == [s[0]] + s[1..];
    }
  }

  /** The two-space prefix applied inside a code fence. */
  function Indented(indent: bool, line: string): string
  {
    if indent then "  " + line else line
  }

  /** Number of fence lines in `ls`. */
  function FenceCount(ls: seq<string>): (n: nat)
    ensures n <= |ls|
  {
    if ls == [] then 0 else (if IsFence(ls[0]) then 1 else 0) + FenceCount(ls[1..])
  }

  lemma {:induction false} FenceCountAppend(a: seq<string>, b: seq<string>)
    ensures FenceCount(a + b) == FenceCount(a) + FenceCount(b)
  {
    if a != [] {
      assert (a + b)[1..] == a[1..] + b;
      FenceCountAppend(a[1..], b);
    } else {
      assert a + b == b;
    }
  }

  /**
   * The lines the scanner loop keeps, before escaping, starting in
   * indentation state `indent`: fence lines flip the state and are dropped,
   * the others are indented while the state is on. One line is kept per
   * non-fence input line.
   */
  function Kept(ls: seq<string>, indent: bool): seq<string>
  {
    if ls == [] then []
    else if IsFence(ls[0]) then Kept(ls[1..], !indent)
    else [Indented(indent, ls[0])] + Kept(ls[1..], indent)
  }

  /** Fence lines are dropped and every other line is kept: one output line per non-fence line. */
  lemma {:induction false} KeptLength(ls: seq<string>, indent: bool)
    ensures |Kept(ls, indent)| == |ls| - FenceCount(ls)
  {
    if ls != [] {
      KeptLength(ls[1..], if IsFence(ls[0]) then !indent else indent);
    }
  }

  /** Every line escaped, as the scanner loop does before collecting it. */
  function EscapeAll(ls: seq<string>): (r: seq<string>)
    ensures |r| == |ls|
    ensures forall k :: 0 <= k < |ls| ==> r[k] == Escape(ls[k])
  {
    seq(|ls|, k requires 0 <= k < |ls| => Escape(ls[k]))
  }

  lemma EscapeAllAppend(a: seq<string>, b: seq<string>)
    ensures EscapeAll(a + b) == EscapeAll(a) + EscapeAll(b)
  {
    var l := EscapeAll(a + b);
    var r := EscapeAll(a) + EscapeAll(b);
    forall k | 0 <= k < |l| ensures l[k] == r[k] {
      if k < |a| {
        assert (a + b)[k] == a[k];
      } else {
        assert (a + b)[k] == b[k - |a|];
      }
    }
  }

  /**
   * Every collected line can be placed in a Go raw string literal: each of
   * its backticks starts a complete escape sequence.
   */
  lemma EscapedLinesRawSafe(ls: seq<string>)
    ensures forall k :: 0 <= k < |EscapeAll(ls)| ==> RawSafe(EscapeAll(ls)[k])
  {
    forall k | 0 <= k < |ls| ensures RawSafe(EscapeAll(ls)[k]) {
      EscapeRawSafe(ls[k]);
    }
  }

  /** Whether an odd number of fences is among `ls`: the state they leave flipped. */
  predicate OddFences(ls: seq<string>)
  {
    ls != [] && (IsFence(ls[0]) != OddFences(ls[1..]))
  }

  lemma {:induction false} OddFencesCount(ls: seq<string>)
    ensures OddFences(ls) == (FenceCount(ls) % 2 == 1)
  {
    if ls != [] {
      OddFencesCount(ls[1..]);
    }
  }

  /**
   * The scanner over `a` then `b`: the lines of `a` are kept first, then
   * those of `b`, in the state `a` leaves behind.
   */
  lemma {:induction false} KeptAppend(a: seq<string>, b: seq<string>, indent: bool)
    ensures Kept(a + b, indent) == Kept(a, indent) + Kept(b, indent != OddFences(a))
  {
    if a == [] {
      assert a + b == b;
    } else if IsFence(a[0]) {
      KeptAppend(a[1..], b, !indent);
      KeptAppendFence(a, b, indent);
    } else {
      KeptAppend(a[1..], b, indent);
      KeptAppendLine(a, b, indent);
    }
  }

  /** The step of KeptAppend for a leading fence line. */
  lemma KeptAppendFence(a: seq<string>, b: seq<string>, indent: bool)
    requires a != [] && IsFence(a[0])
    requires Kept(a[1..] + b, !indent) == Kept(a[1..], !indent) + Kept(b, !indent != OddFences(a[1..]))
    ensures Kept(a + b, indent) == Kept(a, indent) + Kept(b, indent != OddFences(a))
  {
    assert (a + b)[0] == a[0];
    assert (a + b)[1..] == a[1..] + b;
  }

  /** The step of KeptAppend for a leading line that is not a fence. */
  lemma KeptAppendLine(a: seq<string>, b: seq<string>, indent: bool)
    requires a != [] && !IsFence(a[0])
    requires Kept(a[1..] + b, indent) == Kept(a[1..], indent) + Kept(b, indent != OddFences(a[1..]))
    ensures Kept(a + b, indent) == Kept(a, indent) + Kept(b, indent != OddFences(a))
  {
    var rest := a[1..];
    var ab := a + b;
    assert ab[0] == a[0] && ab[1..] == rest + b;
    KeptUnfold(ab, indent);
    KeptUnfold(a, indent);
    ConsAssoc(Indented(indent, a[0]), Kept(rest, indent), Kept(b, indent != OddFences(rest)));
  }

  /** Kept and OddFences one line in, when that line is not a fence. */
  lemma KeptUnfold(ls: seq<string>, indent: bool)
    requires ls != [] && !IsFence(ls[0])
    ensures Kept(ls, indent) == [Indented(indent, ls[0])] + Kept(ls[1..], indent)
    ensures OddFences(ls) == OddFences(ls[1..])
  {
  }

  lemma ConsAssoc(x: string, front: seq<string>, back: seq<string>)
    ensures [x] + (front + back) == ([x] + front) + back
  {
  }

  /**
   * Where each input line goes: a non-fence line j becomes output line
   * j - (fences before it), indented exactly when the starting state differs
   * from the parity of the fences before it.
   */
  lemma KeptAt(ls: seq<string>, indent: bool, j: nat)
    requires j < |ls| && !IsFence(ls[j])
    ensures j - FenceCount(ls[..j]) < |Kept(ls, indent)|
    ensures Kept(ls, indent)[j - FenceCount(ls[..j])]
         == Indented(indent != (FenceCount(ls[..j]) % 2 == 1), ls[j])
  {
    var front := ls[..j];
    var back := ls[j..];
    assert ls == front + back;
    KeptAppend(front, back, indent);
    KeptLength(front, indent);
    OddFencesCount(front);
    var state := indent != OddFences(front);
    assert back[0] == ls[j];
    assert Kept(back, state) == [Indented(state, ls[j])] + Kept(back[1..], state);
  }

  /**
   * An unmatched opening fence is not corrected: when the fence count is
   * odd, every line after the last fence is indented.
   */
  lemma UnclosedFenceIndentsToEnd(ls: seq<string>, j: nat)
    requires FenceCount(ls) % 2 == 1
    requires j < |ls| && forall k :: j <= k < |ls| ==> !IsFence(ls[k])
    ensures j - FenceCount(ls[..j]) < |Kept(ls, false)|
    ensures Kept(ls, false)[j - FenceCount(ls[..j])] == "  " + ls[j]
  {
    assert ls == ls[..j] + ls[j..];
    FenceCountAppend(ls[..j], ls[j..]);
    assert forall k :: 0 <= k < |ls[j..]| ==> ls[j..][k] == ls[j + k];
    NoFences(ls[j..]);
    assert FenceCount(ls[..j]) == FenceCount(ls);
    KeptAt(ls, false, j);
  }

  lemma {:induction false} NoFences(ls: seq<string>)
    requires forall k :: 0 <= k < |ls| ==> !IsFence(ls[k])
    ensures FenceCount(ls) == 0
  {
    if ls != [] {
      NoFences(ls[1..]);
    }
  }

  /** Without fences, every line is kept as it is. */
  lemma {:induction false} KeptPlain(ls: seq<string>)
    requires forall k :: 0 <= k < |ls| ==> !IsFence(ls[k])
    ensures Kept(ls, false) == ls
  {
    if ls != [] {
      KeptPlain(ls[1..]);
      assert ls == [ls[0]] + ls[1..];
    }
  }

  /** Lines without backticks are neither fences nor changed by escaping. */
  lemma PlainLines(ls: seq<string>)
    requires forall k :: 0 <= k < |ls| ==> '`' !in ls[k]
    ensures forall k :: 0 <= k < |ls| ==> !IsFence(ls[k])
    ensures EscapeAll(ls) == ls
  {
    forall k | 0 <= k < |ls| ensures !IsFence(ls[k]) && Escape(ls[k]) == ls[k] {
      if |ls[k]| >= 3 { assert ls[k][0] in ls[k]; }
      EscapeNoBacktick(ls[k]);
    }
  }

  /** The lines of a region's text once its surrounding newlines are trimmed. */
  function Lines(text: string): seq<string>
  {
    ScanLines(Trim(text, Newlines))
  }

  /**
   * What cleanUpContent returns: the kept lines, escaped, joined by newlines
   * between exactly one leading and one trailing newline.
   */
  function CleanUp(text: string): (r: string)
    ensures |r| >= 2 && r[0] == '\n' && r[|r| - 1] == '\n'
  {
    "\n" + Join(EscapeAll(Kept(Lines(text), false)), "\n") + "\n"
  }

  /** Raw-string safety survives concatenation. */
  lemma {:induction false} RawSafeAppend(a: string, b: string)
    requires RawSafe(a) && RawSafe(b)
    ensures RawSafe(a + b)
    decreases |a|
  {
    var e := |Escaped|;
    if a == [] {
      assert a + b == b;
    } else if |a| >= e && a[..e] == Escaped && RawSafe(a[e..]) {
      RawSafeAppend(a[e..], b);
      RawSafeEscapeFirst(a, b);
    } else {
      RawSafeAppend(a[1..], b);
      RawSafeCharFirst(a, b);
    }
  }

  /** The step of RawSafeAppend when `a` starts with an escape sequence. */
  lemma RawSafeEscapeFirst(a: string, b: string)
    requires |a| >= |Escaped| && a[..|Escaped|] == Escaped
    requires RawSafe(a[|Escaped|..] + b)
    ensures RawSafe(a + b)
  {
    var e := |Escaped|;
    assert (a + b)[..e] == Escaped;
    assert (a + b)[e..] == a[e..] + b;
  }

  /** The step of RawSafeAppend when `a` starts with a character other than a backtick. */
  lemma RawSafeCharFirst(a: string, b: string)
    requires a != [] && a[0] != '`'
    requires RawSafe(a[1..] + b)
    ensures RawSafe(a + b)
  {
    assert (a + b)[0] == a[0];
    assert (a + b)[1..] == a[1..] + b;
  }

  /** Joining raw-string safe parts with a raw-string safe separator is raw-string safe. */
  lemma {:induction false} JoinRawSafe(parts: seq<string>, sep: string)
    requires forall k :: 0 <= k < |parts| ==> RawSafe(parts[k])
    requires RawSafe(sep)
    ensures RawSafe(Join(parts, sep))
  {
    if |parts| > 1 {
      JoinRawSafe(parts[1..], sep);
      RawSafeAppend(parts[0], sep);
      RawSafeAppend(parts[0] + sep, Join(parts[1..], sep));
    }
  }

  /**
   * The whole text cleanUpContent returns can be placed between the two
   * backticks of a Go raw string literal: none of its backticks ends it.
   */
  lemma CleanUpRawSafe(text: string)
    ensures RawSafe(CleanUp(text))
  {
    var lines := EscapeAll(Kept(Lines(text), false));
    EscapedLinesRawSafe(Kept(Lines(text), false));
    assert RawSafe("\n") by {
      assert "\n"[1..] == [];
    }
    JoinRawSafe(lines, "\n");
    RawSafeAppend("\n", Join(lines, "\n"));
    RawSafeAppend("\n" + Join(lines, "\n"), "\n");
  }

  /**
   * A carriage return inside a line ends no line, so cleanUpContent keeps
   * it ("a\rb" gives "\na\rb\n"); the Go literal holding the result then
   * drops it.
   */
  lemma InteriorCarriageReturn(x: char, y: char)
    requires x != '\n' && x != '\r' && x != '`'
    requires y != '\n' && y != '\r' && y != '`'
    ensures Lines([x, '\r', y]) == [[x, '\r', y]]
    ensures CleanUp([x, '\r', y]) == "\n" + [x, '\r', y] + "\n"
    ensures Unescape(CleanUp([x, '\r', y])) == "\n" + [x, y] + "\n"
  {
    var s := [x, '\r', y];
    OneInnerLine(s);
    EscapeNoBacktick(s);
    assert EscapeAll([s]) == [s];
    UnescapeWrapped(x, y);
  }

  /** Text without a newline, a leading or trailing carriage return or a backtick is one line. */
  lemma OneInnerLine(s: string)
    requires s != [] && '\n' !in s && '`' !in s && s[|s| - 1] != '\r'
    ensures Lines(s) == [s] && Kept([s], false) == [s]
  {
    var r := Trim(s, Newlines);
    assert !Cuts(Newlines, s[0]) && !Cuts(Newlines, s[|s| - 1]);
    assert r == s;
    assert FirstIndex(s, '\n') == |s|;
  }

  /** The Go value of a carriage return between two characters and newlines: the raw literal drops it. */
  lemma UnescapeWrapped(x: char, y: char)
    requires x != '\r' && x != '`' && y != '\r' && y != '`'
    ensures Unescape("\n" + [x, '\r', y] + "\n") == "\n" + [x, y] + "\n"
  {
    var t := "\n" + [x, '\r', y] + "\n";
    assert t[1..] == [x, '\r', y, '\n'];
    assert t[1..][1..] == ['\r', y, '\n'];
    assert t[1..][1..][1..] == [y, '\n'];
    assert t[1..][1..][1..][1..] == "\n";
    assert Unescape("\n") == "\n";
    assert Unescape([y, '\n']) == [y, '\n'];
    assert Unescape(['\r', y, '\n']) == [y, '\n'];
    assert Unescape([x, '\r', y, '\n']) == [x, y, '\n'];
  }

  /**
   * Text with no backticks (hence no fences) and no carriage returns comes
   * back with its outer newlines trimmed and exactly one newline added on
   * each side.
   */
  lemma PlainTextRoundTrip(text: string)
    requires '`' !in text && '\r' !in text
    ensures CleanUp(text) == "\n" + Trim(text, Newlines) + "\n"
  {
    var t := Trim(text, Newlines);
    forall c | c in t ensures c in text { TrimInfix(text, Newlines, c); }
    var ls := ScanLines(t);
    assert ls == Lines(text);
    ScanLinesChars(t);
    forall k | 0 <= k < |ls| ensures '`' !in ls[k] {
      assert forall c :: c in ls[k] ==> c in t;
    }
    PlainLines(ls);
    KeptPlain(ls);
    assert t == [] || t[|t| - 1] != '\n';
    ScanLinesJoin(t);
    assert Join(EscapeAll(Kept(ls, false)), "\n") == t;
  }

  /** One step of the scanner loop, on the lines from `i` on. */
  lemma KeptStep(ls: seq<string>, i: nat, indent: bool)
    requires i < |ls|
    ensures Kept(ls[i..], indent)
         == if IsFence(ls[i]) then Kept(ls[i + 1..], !indent)
            else [Indented(indent, ls[i])] + Kept(ls[i + 1..], indent)
  {
    assert ls[i..][0] == ls[i];
    assert ls[i..][1..] == ls[i + 1..];
  }

  /**
   * The scanner loop of cleanUpContent: fence lines toggle the indentation
   * and are dropped, other lines are indented while it is on, escaped and
   * collected.
   */
  method CollectLines(ls: seq<string>) returns (lines: seq<string>)
    ensures lines == EscapeAll(Kept(ls, false))
  {
    lines := [];
    ghost var kept: seq<string> := [];
    var indent := false;
    var i := 0;
    while i < |ls|
      invariant i <= |ls|
      invariant kept + Kept(ls[i..], indent) == Kept(ls, false)
      invariant lines == EscapeAll(kept)
    {
      var line := ls[i];
      KeptStep(ls, i, indent);
      if IsFence(line) {
        indent := !indent;
      } else {
        if indent {
          line := "  " + line;
        }
        EscapeAllAppend(kept, [line]);
        kept := kept + [line];
        line := Escape(line);
        lines := lines + [line];
      }
      i := i + 1;
    }
    assert ls[i..] == [];
    assert kept == Kept(ls, false);
  }

  /** cleanUpContent: trim, scan, collect, and join between two newlines. */
  method CleanUpContent(text: string) returns (r: string)
    ensures r == CleanUp(text)
  {
    var lines := CollectLines(Lines(text));
    r := "\n" + Join(lines, "\n") + "\n";
  }
}
