/**
 * The variable-name prefix of a documentation file: the last element of the
 * file's directory (filepath.Dir then filepath.Split), title-cased with
 * strings.Title, with every '-' removed.
 */
module Names {
  import opened Text

  /** Index of the last '/' in `s`. */
  function LastSlash(s: string): (r: Option<nat>)
    ensures r.Some? ==> r.value < |s| && s[r.value] == '/'
    ensures r.Some? ==> forall j :: r.value < j < |s| ==> s[j] != '/'
    ensures r.None? ==> forall j :: 0 <= j < |s| ==> s[j] != '/'
  {
    if s == [] then None
    else if s[|s| - 1] == '/' then Some(|s| - 1)
    else LastSlash(s[..|s| - 1])
  }

  /** `s` without its trailing slashes. */
  function StripSlashes(s: string): (r: string)
    ensures |r| <= |s| && r == s[..|r|]
    ensures r != [] ==> r[|r| - 1] != '/'
    ensures forall j :: |r| <= j < |s| ==> s[j] == '/'
  {
    if s != [] && s[|s| - 1] == '/' then StripSlashes(s[..|s| - 1]) else s
  }

  /** The part of `s` after its last '/'. */
  function LastElement(s: string): string
  {
    match LastSlash(s)
    case None => s
    case Some(i) => s[i + 1..]
  }

  /**
   * The name filepath.Split gives for filepath.Dir(path): "." for a path with
   * no directory, "" for a file in the root, else the last element of the
   * directory part with its trailing slashes removed.
   */
  function DirName(path: string): string
  {
    match LastSlash(path)
    case None => "."
    case Some(i) => LastElement(StripSlashes(path[..i]))
  }

  /** The last slash is the one after which no slash follows. */
  lemma LastSlashAt(s: string, i: nat)
    requires i < |s| && s[i] == '/'
    requires forall j :: i < j < |s| ==> s[j] != '/'
    ensures LastSlash(s) == Some(i)
  {
  }

  /**
   * For `prefix` + `dir` + "/" + `file`, where `dir` is one non-empty path
   * element and `prefix` is empty or ends in a slash, the name is `dir`.
   */
  lemma DirNameOf(prefix: string, dir: string, file: string)
    requires dir != [] && forall j :: 0 <= j < |dir| ==> dir[j] != '/'
    requires forall j :: 0 <= j < |file| ==> file[j] != '/'
    requires prefix == [] || prefix[|prefix| - 1] == '/'
    ensures DirName(prefix + dir + "/" + file) == dir
  {
    var d := prefix + dir;
    var path := d + ("/" + file);
    assert prefix + dir + "/" + file == path;
    SlashThenFile(d, file);
    assert path[..|d|] == d;
    assert d[|d| - 1] == dir[|dir| - 1];
    assert StripSlashes(d) == d;
    LastElementOf(prefix, dir);
  }

  /** In `d` + "/" + `file` with no slash in `file`, the last slash is the one before `file`. */
  lemma {:induction false} SlashThenFile(d: string, file: string)
    requires forall j :: 0 <= j < |file| ==> file[j] != '/'
    ensures LastSlash(d + ("/" + file)) == Some(|d|)
  {
    var path := d + ("/" + file);
    if file == [] {
      assert path == d + ['/'];
    } else {
      var init := file[..|file| - 1];
      assert path[..|path| - 1] == d + ("/" + init);
      assert path[|path| - 1] == file[|file| - 1];
      SlashThenFile(d, init);
    }
  }

  /** The last element of `prefix` + `dir` is `dir` when `prefix` is empty or ends in a slash. */
  lemma LastElementOf(prefix: string, dir: string)
    requires forall j :: 0 <= j < |dir| ==> dir[j] != '/'
    requires prefix == [] || prefix[|prefix| - 1] == '/'
    ensures LastElement(prefix + dir) == dir
  {
    var d := prefix + dir;
    assert forall j :: |prefix| <= j < |d| ==> d[j] == dir[j - |prefix|];
    if prefix == [] {
      assert d == dir;
    } else {
      LastSlashAt(d, |prefix| - 1);
      assert d[|prefix|..] == dir;
    }
  }

  predicate IsAsciiAlphanumeric(c: char)
  {
    'a' <= c <= 'z' || 'A' <= c <= 'Z' || '0' <= c <= '9'
  }

  /**
   * The separator test of strings.Title: ASCII letters, digits and '_' are
   * not separators, other ASCII characters are; above ASCII, white space is.
   */
  predicate IsSeparator(c: char)
  {
    if c as int <= 0x7F then !(IsAsciiAlphanumeric(c) || c == '_') else IsSpace(c)
  }

  /** unicode.ToTitle on ASCII: lower-case letters become upper-case. */
  function ToTitle(c: char): (t: char)
    ensures 'a' <= c <= 'z' ==> 'A' <= t <= 'Z' && t as int == c as int - 32
    ensures !('a' <= c <= 'z') ==> t == c
  {
    if 'a' <= c <= 'z' then (c as int - 32) as char else c
  }

  /** The character `c` as strings.Title leaves it when it follows `prev`. */
  function TitleChar(prev: char, c: char): char
  {
    if IsSeparator(prev) then ToTitle(c) else c
  }

  /**
   * strings.Title, continuing after the character `prev`: a character is
   * title-cased exactly when the character before it is a separator.
   */
  function TitleAfter(s: string, prev: char): (r: string)
    ensures |r| == |s|
    ensures s != [] ==> r[0] == TitleChar(prev, s[0])
    ensures forall i :: 0 < i < |s| ==> r[i] == TitleChar(s[i - 1], s[i])
  {
    if s == [] then ""
    else [TitleChar(prev, s[0])] + TitleAfter(s[1..], s[0])
  }

  /** strings.Title: starts as if after a space. */
  function Title(s: string): string
  {
    TitleAfter(s, ' ')
  }

  /** strings.ReplaceAll(s, "-", ""): every other character is kept, in order. */
  function RemoveDashes(s: string): (r: string)
    ensures forall k :: 0 <= k < |r| ==> r[k] != '-'
    ensures |r| <= |s|
  {
    if s == [] then ""
    else (if s[0] == '-' then "" else [s[0]]) + RemoveDashes(s[1..])
  }

  lemma {:induction false} RemoveDashesAppend(a: string, b: string)
    ensures RemoveDashes(a + b) == RemoveDashes(a) + RemoveDashes(b)
  {
    if a == [] {
      assert a + b == b;
    } else {
      assert (a + b)[1..] == a[1..] + b;
      RemoveDashesAppend(a[1..], b);
    }
  }

  /** The identifier mdtogo derives from a directory name. */
  function Identifier(dir: string): string
  {
    RemoveDashes(Title(dir))
  }

  /** The Name of the doc parsed from the file at `path`. */
  function NameOf(path: string): string
  {
    Identifier(DirName(path))
  }

  /** A word of ASCII letters and digits. */
  predicate IsWord(w: string)
  {
    w != [] && forall k :: 0 <= k < |w| ==> IsAsciiAlphanumeric(w[k])
  }

  /** The word with its first letter upper-cased. */
  function Capitalised(w: string): string
  {
    if w == [] then "" else [ToTitle(w[0])] + w[1..]
  }

  /** The words capitalised and run together. */
  function CamelCase(ws: seq<string>): string
  {
    if ws == [] then "" else Capitalised(ws[0]) + CamelCase(ws[1..])
  }

  /** strings.Title over a concatenation continues from the last character of the first part. */
  lemma {:induction false} TitleSplit(a: string, b: string, prev: char)
    requires a != []
    ensures TitleAfter(a + b, prev) == TitleAfter(a, prev) + TitleAfter(b, a[|a| - 1])
  {
    assert (a + b)[1..] == a[1..] + b;
    if |a| > 1 {
      TitleSplit(a[1..], b, a[0]);
    }
  }

  /** A word keeps its dash-free letters: Identifier of one word capitalises it. */
  lemma IdentifierOfWord(w: string)
    requires IsWord(w)
    ensures Title(w) == Capitalised(w)
    ensures Identifier(w) == Capitalised(w)
  {
    var r := Title(w);
    forall i | 1 <= i < |w| ensures r[i] == w[i] {
      assert IsAsciiAlphanumeric(w[i - 1]);
    }
    assert r == Capitalised(w);
    NoDash(r);
  }

  lemma {:induction false} NoDash(w: string)
    requires forall k :: 0 <= k < |w| ==> w[k] != '-'
    ensures RemoveDashes(w) == w
  {
    if w != [] {
      NoDash(w[1..]);
      assert w == [w[0]] + w[1..];
    }
  }

  /** After a dash, title-casing starts afresh. */
  lemma DashThenTitle(rest: string, prev: char)
    ensures TitleAfter("-" + rest, prev) == ['-'] + Title(rest)
  {
    assert ("-" + rest)[1..] == rest;
    assert TitleAfter(rest, '-') == Title(rest);
  }

  /** A leading word and a dash: the word is capitalised and the dash dropped. */
  lemma IdentifierCons(w: string, rest: string)
    requires IsWord(w)
    ensures Identifier(w + "-" + rest) == Capitalised(w) + Identifier(rest)
  {
    IdentifierOfWord(w);
    var t := TitleAfter("-" + rest, w[|w| - 1]);
    calc {
      Title(w + "-" + rest);
      { assert w + "-" + rest == w + ("-" + rest); TitleSplit(w, "-" + rest, ' '); }
      Title(w) + t;
      { DashThenTitle(rest, w[|w| - 1]); }
      Capitalised(w) + (['-'] + Title(rest));
    }
    RemoveDashesAppend(Capitalised(w), ['-'] + Title(rest));
    RemoveDashesAppend(['-'], Title(rest));
    assert RemoveDashes(Capitalised(w)) == Capitalised(w);
  }

  /**
   * A dash-separated name of words becomes the words capitalised and run
   * together: "my-cmd" gives "MyCmd".
   */
  lemma {:induction false} IdentifierOfWords(ws: seq<string>)
    requires forall k :: 0 <= k < |ws| ==> IsWord(ws[k])
    ensures Identifier(Join(ws, "-")) == CamelCase(ws)
  {
    if |ws| == 1 {
      IdentifierOfWord(ws[0]);
      assert CamelCase(ws[1..]) == "";
    } else if |ws| > 1 {
      IdentifierOfWords(ws[1..]);
      IdentifierCons(ws[0], Join(ws[1..], "-"));
    }
  }
}
