/**
 * mdtogo's `parse`: every tagged region of a documentation file, the
 * visible ones first and then the hidden ones, is routed to the field it
 * names; Short is trimmed of white space, Long and Examples are cleaned up
 * as Markdown, and a later region overwrites an earlier one. The Name comes
 * from the file's directory whatever the file holds.
 */
module Parser {
  import opened Text
  import opened Docs
  import opened Tags
  import opened Content
  import opened Names

  /** The matches of the visible form, `mdtogoTag`. */
  function Visible(value: string): seq<Match>
  {
    TagsWellFormed();
    FindAll(VisibleTag, value)
  }

  /** The matches of the hidden form, `mdtogoInternalTag`. */
  function Hidden(value: string): seq<Match>
  {
    TagsWellFormed();
    FindAll(HiddenTag, value)
  }

  /** The regions in the order parse visits them: all visible tags, then all hidden ones. */
  function Regions(value: string): seq<Match>
  {
    Visible(value) + Hidden(value)
  }

  /** The value a region gives its field: TrimSpace for Short, cleanUpContent otherwise. */
  function Cleaned(m: Match): string
  {
    if m.field == Short then Trim(m.content, Spaces) else CleanUp(m.content)
  }

  /**
   * The index of the last region naming `f`: parse overwrites a field at
   * every region naming it, so this region decides the field.
   */
  function Last(ms: seq<Match>, f: Field): (r: Option<nat>)
    ensures r.Some? ==> r.value < |ms| && ms[r.value].field == f
    ensures r.Some? ==> forall j :: r.value < j < |ms| ==> ms[j].field != f
    ensures r.None? ==> forall j :: 0 <= j < |ms| ==> ms[j].field != f
  {
    if ms == [] then None
    else if ms[|ms| - 1].field == f then Some(|ms| - 1)
    else Last(ms[..|ms| - 1], f)
  }

  /** The region that decides field `f`, if any. */
  function Pick(ms: seq<Match>, f: Field): Option<Match>
  {
    match Last(ms, f)
    case None => None
    case Some(i) => Some(ms[i])
  }

  /** The value field `f` holds after the regions `ms`: "" if no region names it. */
  function Final(ms: seq<Match>, f: Field): string
  {
    match Pick(ms, f)
    case None => ""
    case Some(m) => Cleaned(m)
  }

  /** The doc parse returns for the file at `path` with text `value`. */
  function Extracted(path: string, value: string): Doc
  {
    var ms := Regions(value);
    Doc(NameOf(path), Final(ms, Short), Final(ms, Long), Final(ms, Examples))
  }

  /**
   * The loop of parse: visits the regions in order, each overwriting the
   * field it names, so each field ends with its last region's value.
   */
  method Route(ms: seq<Match>) returns (short: string, long: string, examples: string)
    ensures short == Final(ms, Short) && long == Final(ms, Long) && examples == Final(ms, Examples)
  {
    short, long, examples := "", "", "";
    var i := 0;
    assert ms[..0] == [];
    while i < |ms|
      invariant i <= |ms|
      invariant short == Final(ms[..i], Short)
      invariant long == Final(ms[..i], Long)
      invariant examples == Final(ms[..i], Examples)
    {
      var m := ms[i];
      PickStep(ms, i, Short);
      PickStep(ms, i, Long);
      PickStep(ms, i, Examples);
      match m.field {
        case Short =>
          short := Trim(m.content, Spaces);
        case Long =>
          long := CleanUpContent(m.content);
        case Examples =>
          examples := CleanUpContent(m.content);
      }
      i := i + 1;
    }
    assert ms[..i] == ms;
  }

  /** parse: the regions of both forms are routed to the fields, and the name is set last. */
  method Parse(path: string, value: string) returns (d: Doc)
    ensures d == Extracted(path, value)
  {
    var ms := Regions(value);
    var short, long, examples := Route(ms);
    d := Doc(NameOf(path), short, long, examples);
  }

  /** One more region: it decides the field it names and leaves the others alone. */
  lemma PickStep(ms: seq<Match>, i: nat, f: Field)
    requires i < |ms|
    ensures Pick(ms[..i + 1], f) == if ms[i].field == f then Some(ms[i]) else Pick(ms[..i], f)
  {
    var next := ms[..i + 1];
    assert next[..i] == ms[..i];
    assert next[i] == ms[i];
    if ms[i].field != f {
      match Last(ms[..i], f)
      case Some(k) =>
        assert next[k] == ms[..i][k];
      case None =>
    }
  }

  /**
   * Conversely, a region naming `f` after which no region names `f` is the
   * one Last finds.
   */
  lemma LastUnique(ms: seq<Match>, f: Field, k: nat)
    requires k < |ms| && ms[k].field == f
    requires forall j :: k < j < |ms| ==> ms[j].field != f
    ensures Last(ms, f) == Some(k)
  {
  }

  /**
   * Processing `a` then `b`: the last region naming `f` is in `b` if `b`
   * has one, and otherwise it is the last one in `a`.
   */
  lemma {:induction false} LastAppend(a: seq<Match>, b: seq<Match>, f: Field)
    ensures Last(a + b, f) ==
      match Last(b, f)
      case Some(k) => Some(|a| + k)
      case None => Last(a, f)
  {
    if b == [] {
      assert a + b == a;
    } else {
      var init := b[..|b| - 1];
      assert (a + b)[..|a + b| - 1] == a + init;
      assert (a + b)[|a + b| - 1] == b[|b| - 1];
      LastAppend(a, init, f);
    }
  }

  /** Processing `a` then `b`: a field `b` names is decided in `b`, any other in `a`. */
  lemma PickAppend(a: seq<Match>, b: seq<Match>, f: Field)
    ensures Pick(a + b, f) == match Last(b, f)
                              case Some(k) => Some(b[k])
                              case None => Pick(a, f)
  {
    match Last(b, f)
    case Some(k) => PickFromRight(a, b, f, k);
    case None => PickFromLeft(a, b, f);
  }

  /** When b[k] is the last region of `b` naming `f`, it decides `a` + `b`. */
  lemma PickFromRight(a: seq<Match>, b: seq<Match>, f: Field, k: nat)
    requires Last(b, f) == Some(k)
    ensures k < |b| && Pick(a + b, f) == Some(b[k])
  {
    LastAppend(a, b, f);
    assert (a + b)[|a| + k] == b[k];
  }

  /** When no region of `b` names `f`, `a` + `b` is decided by the same region as `a`. */
  lemma PickFromLeft(a: seq<Match>, b: seq<Match>, f: Field)
    requires Last(b, f).None?
    ensures Pick(a + b, f) == Pick(a, f)
  {
    LastAppend(a, b, f);
    if Last(a, f).Some? {
      var k := Last(a, f).value;
      assert (a + b)[k] == a[k];
    }
  }

  /**
   * A hidden tag beats a visible one: when some hidden region names `f`,
   * the field's value is that of the last hidden region naming it,
   * whatever the visible regions hold.
   */
  lemma HiddenBeatsVisible(path: string, value: string, f: Field)
    requires exists i :: 0 <= i < |Hidden(value)| && Hidden(value)[i].field == f
    ensures Extracted(path, value).Get(f) == Final(Hidden(value), f)
  {
    PickAppend(Visible(value), Hidden(value), f);
  }

  /** Without hidden regions for `f`, the visible regions decide its value. */
  lemma VisibleWithoutHidden(path: string, value: string, f: Field)
    requires forall i :: 0 <= i < |Hidden(value)| ==> Hidden(value)[i].field != f
    ensures Extracted(path, value).Get(f) == Final(Visible(value), f)
  {
    PickAppend(Visible(value), Hidden(value), f);
  }

  /** A file without the tag opener "<!--mdtogo:" yields empty fields and only a name. */
  lemma NoTagsEmptyDoc(path: string, value: string)
    requires forall p: nat :: !IsAt(value, Opener, p)
    ensures Extracted(path, value) == Doc(NameOf(path), "", "", "")
  {
    TagsWellFormed();
    forall p: nat, f: Field ensures !IsAt(value, VisibleTag.Opening(f), p)
                                 && !IsAt(value, HiddenTag.Opening(f), p) {
      OpeningsStartWithOpener(f);
      if IsAt(value, VisibleTag.Opening(f), p) {
        IsAtPrefix(value, VisibleTag.Opening(f), |Opener|, p);
      }
      if IsAt(value, HiddenTag.Opening(f), p) {
        IsAtPrefix(value, HiddenTag.Opening(f), |Opener|, p);
      }
    }
    NoOpeningNoMatches(VisibleTag, value);
    NoOpeningNoMatches(HiddenTag, value);
  }

  /**
   * What each field can hold: Short has no leading or trailing white
   * space; Long and Examples are either "" or begin and end with a newline.
   */
  lemma FieldShapes(path: string, value: string)
    ensures var d := Extracted(path, value);
      d.short != [] ==> !IsSpace(d.short[0]) && !IsSpace(d.short[|d.short| - 1])
    ensures var d := Extracted(path, value);
      d.long != [] ==> d.long[0] == '\n' && d.long[|d.long| - 1] == '\n'
    ensures var d := Extracted(path, value);
      d.examples != [] ==> d.examples[0] == '\n' && d.examples[|d.examples| - 1] == '\n'
  {
    var ms := Regions(value);
    FinalShape(ms, Short);
    FinalShape(ms, Long);
    FinalShape(ms, Examples);
  }

  lemma FinalShape(ms: seq<Match>, f: Field)
    ensures var v := Final(ms, f);
      v != [] ==> if f == Short then !IsSpace(v[0]) && !IsSpace(v[|v| - 1])
                  else |v| >= 2 && v[0] == '\n' && v[|v| - 1] == '\n'
  {
  }

  /**
   * Long and Examples are non-empty exactly when some region names them
   * (cleaning always adds the surrounding newlines).
   */
  lemma PresentIffTagged(ms: seq<Match>, f: Field)
    requires f != Short
    ensures Final(ms, f) != "" <==> exists i :: 0 <= i < |ms| && ms[i].field == f
  {
    if Last(ms, f).Some? {
      var i := Last(ms, f).value;
      assert 0 <= i < |ms| && ms[i].field == f;
    }
  }

  /**
   * A file whose only tag is one well-formed visible region of field `f`
   * around `c` (no tag opener elsewhere, no closing marker inside `c`): the
   * field holds `c` trimmed (Short) or cleaned up (Long, Examples), and the
   * other two fields are empty.
   */
  lemma OneVisibleRegion(path: string, pre: string, f: Field, c: string, post: string)
    requires forall q: nat :: !IsAt(pre, Opener, q)
    requires forall q: nat :: !IsAt(c, Opener, q)
    requires forall q: nat :: !IsAt(post, Opener, q)
    requires forall q: nat :: !IsAt(c, Closer, q)
    ensures Extracted(path, RegionText(pre, f, c, post)).Get(f)
         == if f == Short then Trim(c, Spaces) else CleanUp(c)
    ensures forall g :: g != f ==> Extracted(path, RegionText(pre, f, c, post)).Get(g) == ""
  {
    var s := RegionText(pre, f, c, post);
    var m := OneRegionIsAll(pre, f, c, post);
    FinalOfOne(m, f);
    forall g | g != f ensures Extracted(path, s).Get(g) == "" {
      FinalOfOne(m, g);
    }
  }

  /** The regions parse visits in a text whose only tag is one visible region. */
  lemma OneRegionIsAll(pre: string, f: Field, c: string, post: string) returns (m: Match)
    requires forall q: nat :: !IsAt(pre, Opener, q)
    requires forall q: nat :: !IsAt(c, Opener, q)
    requires forall q: nat :: !IsAt(post, Opener, q)
    requires forall q: nat :: !IsAt(c, Closer, q)
    ensures m.field == f && m.content == c
    ensures Regions(RegionText(pre, f, c, post)) == [m]
  {
    var s := RegionText(pre, f, c, post);
    m := OneRegionFound(pre, f, c, post);
    assert Regions(s) == [m] + [];
  }

  /** A single region decides its own field and leaves the others empty. */
  lemma FinalOfOne(m: Match, g: Field)
    ensures Final([m], g) == if g == m.field then Cleaned(m) else ""
  {
    assert [m][..0] == [];
  }
}
