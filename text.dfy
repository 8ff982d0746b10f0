/**
 * String helpers from Go's standard library that mdtogo relies on:
 * strings.Join, strings.Trim / strings.TrimSpace, and the two notions of
 * "whitespace" in play (unicode.IsSpace for TrimSpace and Title, the RE2
 * class `\s` for the tag patterns).
 */
module Text {

  datatype Option<T> = None | Some(value: T)

  /** strings.Join: the parts separated by `sep`. */
  function Join(parts: seq<string>, sep: string): string
  {
    if parts == [] then ""
    else if |parts| == 1 then parts[0]
    else parts[0] + sep + Join(parts[1..], sep)
  }

  /** Each part followed by `sep`. */
  function Terminated(parts: seq<string>, sep: string): string
  {
    if parts == [] then "" else parts[0] + sep + Terminated(parts[1..], sep)
  }

  /** Joining a non-empty list and appending one more separator terminates every part. */
  lemma {:induction false} JoinTerminated(parts: seq<string>, sep: string)
    requires parts != []
    ensures Join(parts, sep) + sep == Terminated(parts, sep)
  {
    if |parts| > 1 {
      JoinTerminated(parts[1..], sep);
    }
  }

  lemma {:induction false} TerminatedAppend(a: seq<string>, b: seq<string>, sep: string)
    ensures Terminated(a + b, sep) == Terminated(a, sep) + Terminated(b, sep)
  {
    if a == [] {
      assert a + b == b;
    } else {
      assert (a + b)[1..] == a[1..] + b;
      TerminatedAppend(a[1..], b, sep);
    }
  }

  /** unicode.IsSpace, the set strings.TrimSpace removes. */
  predicate IsSpace(c: char)
  {
    c == '\t' || c == '\n' || c == '\U{B}' || c == '\U{C}' || c == '\r' || c == ' '
    || c == '\U{85}' || c == '\U{A0}' || c == '\U{1680}'
    || ('\U{2000}' <= c <= '\U{200A}')
    || c == '\U{2028}' || c == '\U{2029}' || c == '\U{202F}' || c == '\U{205F}' || c == '\U{3000}'
  }

  /** The RE2 class `\s`, which is [\t\n\f\r ] (no vertical tab, ASCII only). */
  predicate IsRegexSpace(c: char)
  {
    c == '\t' || c == '\n' || c == '\U{C}' || c == '\r' || c == ' '
  }

  /**
   * The two sets of characters mdtogo trims: the cut set "\n" of
   * strings.Trim, and the white space of strings.TrimSpace.
   */
  datatype Cutset = Newlines | Spaces

  predicate Cuts(cut: Cutset, c: char)
  {
    match cut
    case Newlines => c == '\n'
    case Spaces => IsSpace(c)
  }

  /** Number of leading characters of `s` that are in `cut`. */
  function Lead(s: string, cut: Cutset): (n: nat)
    ensures n <= |s|
    ensures forall j :: 0 <= j < n ==> Cuts(cut, s[j])
    ensures n < |s| ==> !Cuts(cut, s[n])
  {
    if s != [] && Cuts(cut, s[0]) then 1 + Lead(s[1..], cut) else 0
  }

  /** Number of trailing characters of `s` that are in `cut`. */
  function Trail(s: string, cut: Cutset): (n: nat)
    ensures n <= |s|
    ensures forall j :: |s| - n <= j < |s| ==> Cuts(cut, s[j])
    ensures n < |s| ==> !Cuts(cut, s[|s| - 1 - n])
  {
    if s != [] && Cuts(cut, s[|s| - 1]) then 1 + Trail(s[..|s| - 1], cut) else 0
  }

  /**
   * strings.Trim(s, "\n") and strings.TrimSpace(s): the result is the middle
   * of `s` that remains once every leading and every trailing cut character
   * is removed.
   */
  function Trim(s: string, cut: Cutset): (r: string)
    ensures Lead(s, cut) + |r| <= |s| && r == s[Lead(s, cut)..Lead(s, cut) + |r|]
    ensures r != [] ==> !Cuts(cut, r[0]) && !Cuts(cut, r[|r| - 1])
    ensures forall j :: 0 <= j < Lead(s, cut) ==> Cuts(cut, s[j])
    ensures forall j :: Lead(s, cut) + |r| <= j < |s| ==> Cuts(cut, s[j])
  {
    var i := Lead(s, cut);
    if i == |s| then ""
    else
      var n := Trail(s, cut);
      assert i < |s| - n;
      s[i..|s| - n]
  }

  /** Every character of Trim(s, cut) occurs in `s`. */
  lemma TrimInfix(s: string, cut: Cutset, c: char)
    requires c in Trim(s, cut)
    ensures c in s
  {
    var r := Trim(s, cut);
    var i := Lead(s, cut);
    var k :| 0 <= k < |r| && r[k] == c;
    assert s[i + k] == c;
  }
}
