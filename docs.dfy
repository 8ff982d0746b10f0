/**
 * The record mdtogo builds for one Markdown file (the Go struct `doc`) and
 * its rendering as Go variable declarations (`doc.String`).
 */
module Docs {
  import opened Text

  /** The three variables a documentation file can feed. */
  datatype Field = Short | Long | Examples

  /** The identifier of a field, used both in tags and in variable names. */
  function FieldName(f: Field): string
  {
    match f
    case Short => "Short"
    case Long => "Long"
    case Examples => "Examples"
  }

  datatype Doc = Doc(name: string, short: string, long: string, examples: string)
  {
    function Get(f: Field): string
    {
      match f
      case Short => short
      case Long => long
      case Examples => examples
    }

    predicate IsEmpty()
    {
      short == "" && long == "" && examples == ""
    }
  }

  /** `var <name><Field> = `<value>``: one declaration, a Go raw string literal. */
  function Declaration(name: string, f: Field, value: string): string
  {
    "var " + name + FieldName(f) + " = `" + value + "`"
  }

  /** The declarations doc.String emits, in the order Short, Long, Examples. */
  function Declarations(d: Doc): seq<string>
  {
    (if d.short != "" then [Declaration(d.name, Short, d.short)] else [])
    + (if d.long != "" then [Declaration(d.name, Long, d.long)] else [])
    + (if d.examples != "" then [Declaration(d.name, Examples, d.examples)] else [])
  }

  /**
   * doc.String: the declarations joined by newlines, with one final newline.
   * The text always ends in a newline, and it is the bare newline exactly when
   * every field is empty.
   */
  function DocString(d: Doc): (r: string)
    ensures |r| > 0 && r[|r| - 1] == '\n'
    ensures r == "\n" <==> d.IsEmpty()
  {
    var parts := Declarations(d);
    assert parts != [] ==> |Join(parts, "\n")| >= |parts[0]| > 0;
    Join(parts, "\n") + "\n"
  }

  /** The line contributed by one field: empty when the field is empty. */
  function Line(name: string, f: Field, value: string): string
  {
    if value == "" then "" else Declaration(name, f, value) + "\n"
  }

  /**
   * Field by field: unless the doc is empty, its text is the line of Short,
   * then the line of Long, then the line of Examples, and a field that is
   * empty contributes nothing.
   */
  lemma DocStringByField(d: Doc)
    ensures DocString(d) ==
      if d.IsEmpty() then "\n"
      else Line(d.name, Short, d.short) + Line(d.name, Long, d.long)
           + Line(d.name, Examples, d.examples)
  {
    var d1 := if d.short != "" then [Declaration(d.name, Short, d.short)] else [];
    var d2 := if d.long != "" then [Declaration(d.name, Long, d.long)] else [];
    var d3 := if d.examples != "" then [Declaration(d.name, Examples, d.examples)] else [];
    assert Declarations(d) == d1 + d2 + d3;
    assert Terminated(d1, "\n") == Line(d.name, Short, d.short);
    assert Terminated(d2, "\n") == Line(d.name, Long, d.long);
    assert Terminated(d3, "\n") == Line(d.name, Examples, d.examples);
    if !d.IsEmpty() {
      JoinTerminated(d1 + d2 + d3, "\n");
      TerminatedAppend(d1 + d2, d3, "\n");
      TerminatedAppend(d1, d2, "\n");
    }
  }
}
