# mdtogo, modelled in Dafny

mdtogo turns the Markdown documentation of kpt commands into Go source.
Each Markdown file marks the passages it contributes with HTML comment
tags, in a visible form

    <!--mdtogo:Long-->
    ...text...
    <!--mdtogo-->

or a hidden form `<!--mdtogo:Short one line of text-->`, for the three
fields Short, Long and Examples. `parse` collects every tagged region,
visible ones first and hidden ones after, and lets each region overwrite
the field it names: Short is stripped of surrounding white space, Long and
Examples go through `cleanUpContent`. That normaliser trims the outer
newlines, splits the text into lines, drops the lines that open or close a
code fence and indents the lines between them by two spaces, and rewrites
every backtick so the text can sit inside a Go raw string literal. The
doc's Name is the file's directory name, title-cased with its dashes
removed. `doc.String` renders one `var <Name><Field> = `...`` declaration
per non-empty field.

Only Long and Examples are escaped. Short is only stripped of white space
(mdtogo/main.go:174) before it is placed between backticks
(mdtogo/main.go:225), so a backtick inside a Short region ends the raw
string literal early, leaving the generated Go malformed. The model keeps
this behaviour: `Content.CleanUpRawSafe` and the other raw-safety lemmas are
about cleanUpContent, and nothing is claimed for Short.

Go discards every carriage return inside a raw string literal, but
bufio.ScanLines removes only one at the end of a line (mdtogo/main.go:191-195).
A carriage return inside a line of Long or Examples therefore reaches
cleanUpContent's result and is lost from the generated variable's value.
`Content.Unescape` models the literal's value with this discard, and
`Content.EscapeRoundTrip` and `Content.InteriorCarriageReturn` state it.

The project has one module per concern:

- `text.dfy` (`Text`): strings.Join, strings.Trim / strings.TrimSpace, and
  the two white-space classes in play (unicode.IsSpace and RE2's `\s`).
- `docs.dfy` (`Docs`): the `doc` record and `doc.String`.
- `content.dfy` (`Content`): `cleanUpContent`, specified by the function
  `CleanUp` and implemented by the scanner loop `CollectLines`.
- `tags.dfy` (`Tags`): the two tag regular expressions, as a scanner with
  the leftmost, non-overlapping, lazy semantics of Go's
  `FindAllStringSubmatch`. The constant `VisibleTag` is `mdtogoTag`
  (mdtogo/main.go:156) and `HiddenTag` is `mdtogoInternalTag`
  (mdtogo/main.go:157); each holds the three field openings, whether one
  `\s` character must follow the opening, and the closing marker.
- `names.dfy` (`Names`): the Name derivation (filepath.Dir, filepath.Split,
  strings.Title, strings.ReplaceAll).
- `parser.dfy` (`Parser`): `parse`, specified by the function `Extracted`
  and implemented by the method `Parse` and its loop `Route`.

## Model

| member | source | states |
|---|---|---|
| Text.Trim | mdtogo/main.go:191 | strings.Trim(text, "\n") and strings.TrimSpace: the result is the slice of the input left once all leading and all trailing cut characters are gone; it neither starts nor ends with one, and everything removed was one |
| Text.TrimInfix | mdtogo/main.go:191 | trimming introduces no character: each character of the result occurs in the input |
| Text.JoinTerminated | mdtogo/main.go:236 | strings.Join of a non-empty list followed by one more separator puts the separator after every part |
| Text.TerminatedAppend | mdtogo/main.go:236 | terminating the parts of a concatenation is concatenating the terminated parts |
| Text.Join | mdtogo/main.go:210 | definition: strings.Join, the parts with the separator between consecutive parts ("" for no parts) |
| Text.IsSpace | mdtogo/main.go:174 | definition: unicode.IsSpace, the characters strings.TrimSpace removes (ASCII \t \n \v \f \r and space, U+0085, U+00A0 and the Unicode White_Space characters above) |
| Text.IsRegexSpace | mdtogo/main.go:157 | definition: the RE2 class `\s` of the hidden pattern, exactly \t \n \f \r and space |
| Docs.DocString | mdtogo/main.go:220-237 | the rendering always ends in a newline, and it is the bare "\n" exactly when Short, Long and Examples are all empty |
| Docs.DocStringByField | mdtogo/main.go:220-236 | a non-empty doc renders as the Short line, then the Long line, then the Examples line, each `var <Name><Field> = `<value>`` plus a newline, an empty field contributing nothing; an empty doc renders as "\n" |
| Docs.Declaration | mdtogo/main.go:225-234 | definition: `var <Name><Field> = `<value>``, the Sprintf of one field |
| Docs.Declarations | mdtogo/main.go:221-234 | definition: the declarations of the non-empty fields, in the order Short, Long, Examples |
| Content.ScanLinesChars | mdtogo/main.go:191-195 | bufio.ScanLines yields tokens without newlines, made only of characters of the input |
| Content.ScanLinesJoin | mdtogo/main.go:191-195 | for text without carriage returns that does not end in a newline, joining the scanned lines with "\n" gives the text back |
| Content.DropCR | mdtogo/main.go:191-195 | definition: bufio's dropCR, one trailing carriage return removed from a line |
| Content.ScanLines | mdtogo/main.go:191-195 | definition: the tokens bufio.ScanLines yields: the text split at each newline, no token after a final newline, none for empty text, each token passed through DropCR |
| Content.IsFence | mdtogo/main.go:196 | definition: strings.HasPrefix(line, "```") |
| Content.Indented | mdtogo/main.go:201-203 | definition: "  " in front of the line while the indentation state is on, the line itself otherwise |
| Content.Kept | mdtogo/main.go:193-203 | definition: the loop's lines before escaping: a fence line flips the indentation state and is dropped, any other line is kept with "  " in front while the state is on |
| Content.Lines | mdtogo/main.go:191 | definition: the scanner's lines of strings.Trim(text, "\n") |
| Content.Escape | mdtogo/main.go:205 | each backtick grows the line by the ten extra characters of "` + \"`\" + `" |
| Content.Unescape | mdtogo/main.go:205 | definition: the value Go gives an escaped line placed between backticks: each escape sequence is one backtick, and every other carriage return is discarded |
| Content.EscapeRoundTrip | mdtogo/main.go:205 | the escaped line, read back as the value of the Go raw string concatenation, is the line with every carriage return removed, which is the line itself when it holds none |
| Content.WithoutCR | mdtogo/main.go:205 | the text with its carriage returns removed holds none, and text without any is unchanged |
| Content.InteriorCarriageReturn | mdtogo/main.go:191-210 | a carriage return between two other characters ends no line: "a\rb" is one line, cleanUpContent gives "\na\rb\n", and the Go literal holding that evaluates to "\nab\n" |
| Content.EscapeRawSafe | mdtogo/main.go:205 | in an escaped line every backtick starts a complete escape sequence, so no stray backtick can end the raw string |
| Content.EscapeIdentity | mdtogo/main.go:205 | escaping leaves a line unchanged exactly when it holds no backtick |
| Content.EscapeAll | mdtogo/main.go:205-207 | the collected lines, one per kept line, each the ReplaceAll-escaped kept line in the same position |
| Content.FenceCountAppend | mdtogo/main.go:196 | the number of fence lines in a concatenation is the sum of both parts' |
| Content.OddFencesCount | mdtogo/main.go:196-198 | the indentation state flips once per fence line, so it ends flipped exactly when the number of fences is odd |
| Content.KeptLength | mdtogo/main.go:194-208 | fence lines are dropped and every other line is kept: the output has one line per non-fence input line |
| Content.KeptAppend | mdtogo/main.go:193-208 | the scanner over two blocks of lines keeps the first block's lines, then the second block's in the indentation state the first block left |
| Content.KeptAt | mdtogo/main.go:193-203 | a non-fence line j lands at output position j minus the fences before it, with the two-space prefix exactly when the starting state differs from the parity of those fences |
| Content.UnclosedFenceIndentsToEnd | mdtogo/main.go:193-203 | with an odd number of fences, every line after the last fence is indented to the end of the text |
| Content.KeptPlain | mdtogo/main.go:196-203 | without fence lines every line is kept unchanged |
| Content.PlainLines | mdtogo/main.go:196-205 | a line without backticks is not a fence and is not changed by escaping |
| Content.EscapeAllAppend | mdtogo/main.go:205-207 | escaping lines one at a time and collecting them is escaping the whole collection |
| Content.EscapedLinesRawSafe | mdtogo/main.go:205-207 | every collected line can sit inside a Go raw string literal |
| Content.RawSafeAppend | mdtogo/main.go:205-210 | two texts that can each sit inside a Go raw string literal can also sit there one after the other |
| Content.JoinRawSafe | mdtogo/main.go:210 | strings.Join of raw-safe parts with a raw-safe separator is raw-safe |
| Content.CleanUpRawSafe | mdtogo/main.go:188-211 | whatever the input, cleanUpContent's result can be put between the backticks of a Go raw string literal without a stray backtick ending it |
| Content.CleanUp | mdtogo/main.go:210 | the cleaned text is at least two characters long and starts and ends with a newline |
| Content.PlainTextRoundTrip | mdtogo/main.go:188-211 | text with no backticks and no carriage returns comes back as "\n" + (text with its outer newlines trimmed) + "\n" |
| Content.KeptStep | mdtogo/main.go:196-207 | one loop step: a fence line flips the state and adds nothing, any other line adds itself, indented while the state is on |
| Content.CollectLines | mdtogo/main.go:193-208 | the scanner loop collects exactly the kept lines, escaped, in order |
| Content.CleanUpContent | mdtogo/main.go:188-211 | cleanUpContent returns CleanUp of its input |
| Tags.FindFrom | mdtogo/main.go:156-157 | finds the first occurrence of a marker at or after a position, or reports that none follows |
| Tags.OpeningUnique | mdtogo/main.go:156-157 | the alternation (Short\|Long\|Examples) is unambiguous: two field openings never match at the same place |
| Tags.FieldAt | mdtogo/main.go:156-157 | the field named at a position is one whose opening occurs there; none means no opening occurs there |
| Tags.MatchAt | mdtogo/main.go:156-157 | definition: the match either pattern finds when it starts at p: the field whose opening stands there, the whitespace character of the hidden form, and content running to the first closing marker |
| Tags.MatchAtSound | mdtogo/main.go:156-157 | a match at p starts at p, ends within the text, is a region the pattern accepts (opening, the whitespace the hidden form demands, content, closing marker), and its content is the text between opening and closing |
| Tags.MatchAtComplete | mdtogo/main.go:156-157 | whenever the pattern accepts some region starting at p, there is a match at p |
| Tags.MatchAtShortest | mdtogo/main.go:156-157 | the lazy content: the match at p ends no later than any region accepted at p, and names the same field |
| Tags.ContentHasNoClosing | mdtogo/main.go:156-157 | the captured content never contains the closing marker |
| Tags.Scan | mdtogo/main.go:167-168 | the selected matches are candidates at their own start and lie in order without overlapping |
| Tags.ScanNothing | mdtogo/main.go:167-168 | without candidates nothing is selected |
| Tags.ScanLeftmost | mdtogo/main.go:167-168 | no candidate is skipped: each lies inside a selected match |
| Tags.FindAll | mdtogo/main.go:167-168 | definition: FindAllStringSubmatch(value, -1), the leftmost non-overlapping selection from the matches at each position |
| Tags.FindAllSound | mdtogo/main.go:167-168 | every result of FindAll is the match of the pattern at its start, and the results are ordered and disjoint |
| Tags.FindAllLeftmost | mdtogo/main.go:167-168 | every position where the pattern could match lies inside a found match |
| Tags.NoOpeningNoMatches | mdtogo/main.go:167-168 | a text where no tag opening occurs has no matches |
| Tags.TagsWellFormed | mdtogo/main.go:155-158 | both tag patterns have a non-empty closing marker and unambiguous field openings |
| Tags.MarkersOfTags | mdtogo/main.go:156 | "<!--mdtogo:", "<!--mdtogo-->" and each visible opening contain '<' only as their first character, and the closing marker does not begin with the opener |
| Tags.OpeningsStartWithOpener | mdtogo/main.go:156-157 | every opening of either form begins with "<!--mdtogo:" |
| Tags.RegionAt | mdtogo/main.go:156-157 | definition: the strings a tag pattern accepts for a field between two positions: opening, one `\s` character for the hidden form, any content, closing marker |
| Tags.Candidates | mdtogo/main.go:167-168 | the match at every position of the text, each starting where it is looked for and ending after it, within the text |
| Tags.OnlyAtOpening | mdtogo/main.go:156 | a marker that does not start the closing marker occurs in a region text only where the region opens, when the text around and inside the region does not hold it |
| Tags.FirstClosing | mdtogo/main.go:156 | the lazy content: from the end of the opening, the first closing marker is the one right after a content without one |
| Tags.NoMatchAwayFromRegion | mdtogo/main.go:156-157 | in a text whose only "<!--mdtogo:" opens the one visible region, neither pattern matches anywhere else |
| Tags.NoHiddenMatchAtRegion | mdtogo/main.go:157 | the hidden pattern does not match at a visible opening: "-->" follows the field name where the hidden form needs white space |
| Tags.OnlyPlainMatch | mdtogo/main.go:156-168 | when the visible-style match at p is opening, content and the first closing marker, and no other position starts a match, FindAll finds that one match |
| Tags.VisibleRegionFound | mdtogo/main.go:156-168 | the visible pattern finds exactly one match in a one-region text: the region, with its field, its content and its span |
| Tags.HiddenNothingFound | mdtogo/main.go:157-168 | the hidden pattern finds nothing in a text whose only tag is a visible region |
| Tags.OneRegionFound | mdtogo/main.go:156-168 | both FindAll calls on a one-region text: the visible one returns that region, the hidden one nothing |
| Names.LastSlash | mdtogo/main.go:161 | the index of the last '/', after which no '/' occurs; none when the path has no '/' |
| Names.LastSlashAt | mdtogo/main.go:161 | conversely, a '/' with no '/' after it is the one LastSlash finds |
| Names.DirName | mdtogo/main.go:161-162 | definition: filepath.Split(filepath.Dir(path)) name part: "." for a path without '/', else the last element of the part before the last '/' with its trailing slashes removed |
| Names.LastElement | mdtogo/main.go:162 | definition: filepath.Split's name part, everything after the last '/', the whole path when it has none |
| Names.LastElementOf | mdtogo/main.go:162 | the element filepath.Split returns for prefix + dir, where prefix is empty or ends in '/', is dir |
| Names.SlashThenFile | mdtogo/main.go:161 | in d + "/" + file with no '/' in file, the last slash is the one before file |
| Names.StripSlashes | mdtogo/main.go:161 | filepath.Dir's removal of trailing slashes: the result is a prefix of the input, does not end in '/', and everything removed after it is '/' |
| Names.DirNameOf | mdtogo/main.go:161-162 | for a path prefix/dir/file with one-element dir and slash-free file, the name taken from the directory is dir |
| Names.TitleAfter | mdtogo/main.go:164 | strings.Title: same length; a character is title-cased exactly when the character before it is a separator |
| Names.TitleSplit | mdtogo/main.go:164 | title-casing a concatenation continues from the first part's last character |
| Names.IsSeparator | mdtogo/main.go:164 | definition: the separator test of strings.Title: ASCII letters, digits and '_' are not separators, other ASCII characters are, and above ASCII white space is |
| Names.ToTitle | mdtogo/main.go:164 | unicode.ToTitle on ASCII: a lower-case letter becomes its upper-case letter, every other character is unchanged |
| Names.TitleChar | mdtogo/main.go:164 | definition: strings.Title's mapping of one character, title-cased exactly when the character before it is a separator |
| Names.Title | mdtogo/main.go:164 | definition: strings.Title, title-casing as if the text followed a space |
| Names.DashThenTitle | mdtogo/main.go:164 | after a dash strings.Title starts afresh, as at the start of the name |
| Names.RemoveDashes | mdtogo/main.go:165 | strings.ReplaceAll(name, "-", ""): the result has no '-' and is no longer than the input |
| Names.RemoveDashesAppend | mdtogo/main.go:165 | removing dashes distributes over concatenation |
| Names.NoDash | mdtogo/main.go:165 | strings.ReplaceAll(s, "-", "") leaves a text without dashes unchanged |
| Names.Identifier | mdtogo/main.go:164-165 | definition: strings.Title, then strings.ReplaceAll of "-" by "" |
| Names.NameOf | mdtogo/main.go:161-165 | definition: the doc's Name, the Identifier of the DirName of the path |
| Names.IdentifierOfWord | mdtogo/main.go:164-165 | a word of ASCII letters and digits comes out capitalised |
| Names.IdentifierCons | mdtogo/main.go:164-165 | a leading word and its dash become the capitalised word, and the rest is handled as if it stood alone |
| Names.IdentifierOfWords | mdtogo/main.go:164-165 | a dash-separated name of words becomes the words capitalised and run together ("my-cmd" gives "MyCmd") |
| Parser.Last | mdtogo/main.go:171-183 | the region that decides a field is one naming it with no later region naming it; if none is found, no region names the field |
| Parser.LastUnique | mdtogo/main.go:171-183 | conversely, a region naming the field with no later region naming it is the deciding one |
| Parser.LastAppend | mdtogo/main.go:167-168 | over visible-then-hidden regions, the deciding region is in the second list if that list names the field, else it is the first list's |
| Parser.PickAppend | mdtogo/main.go:167-183 | the deciding region over a concatenation is the second list's if it has one for the field, else the first list's |
| Parser.PickFromRight | mdtogo/main.go:167-183 | when a later list names a field, its last region naming the field decides the whole sequence |
| Parser.PickFromLeft | mdtogo/main.go:167-183 | a later list that never names a field leaves that field decided as before |
| Parser.PickStep | mdtogo/main.go:171-183 | one more region decides the field it names and leaves the other fields' deciding regions alone |
| Parser.Route | mdtogo/main.go:170-183 | the loop over the matches leaves each field holding the value of its last region (TrimSpace for Short, cleanUpContent for Long and Examples) and "" for a field no region names |
| Parser.Parse | mdtogo/main.go:160-186 | parse returns the Name derived from the path and, for each field, the value of its last region over the visible then the hidden matches |
| Parser.HiddenBeatsVisible | mdtogo/main.go:167-183 | when some hidden region names a field, the field's value comes from the hidden regions whatever the visible ones hold |
| Parser.VisibleWithoutHidden | mdtogo/main.go:167-183 | when no hidden region names a field, the visible regions alone decide it |
| Parser.NoTagsEmptyDoc | mdtogo/main.go:167-185 | a file without "<!--mdtogo:" yields empty Short, Long and Examples and still gets its Name |
| Parser.FieldShapes | mdtogo/main.go:173-181 | Short never starts or ends with white space; Long and Examples are "" or start and end with a newline |
| Parser.PresentIffTagged | mdtogo/main.go:176-181 | Long and Examples are non-empty exactly when some region names them |
| Parser.Visible | mdtogo/main.go:167 | definition: mdtogoTag.FindAllStringSubmatch(value, -1), the visible-form matches |
| Parser.Hidden | mdtogo/main.go:168 | definition: mdtogoInternalTag.FindAllStringSubmatch(value, -1), the hidden-form matches |
| Parser.Regions | mdtogo/main.go:167-168 | definition: the matches parse visits, every visible match and then every hidden match |
| Parser.Cleaned | mdtogo/main.go:172-181 | definition: the value a region gives its field, TrimSpace of the content for Short and cleanUpContent of it for Long and Examples |
| Parser.Final | mdtogo/main.go:170-183 | definition: the value of the field's deciding region, "" when no region names the field |
| Parser.Extracted | mdtogo/main.go:160-186 | definition: the doc parse returns: the Name from the path and each field's Final value over the visible then the hidden matches |
| Parser.FinalShape | mdtogo/main.go:173-181 | a field's final value: for Short, no surrounding white space; for Long and Examples, "" or a text starting and ending with a newline |
| Parser.FinalOfOne | mdtogo/main.go:170-183 | a single region decides its own field and leaves the other fields "" |
| Parser.OneRegionIsAll | mdtogo/main.go:167-168 | in a text whose only tag is one visible region, the regions parse visits are exactly that region, with its field and content |
| Parser.OneVisibleRegion | mdtogo/main.go:160-186 | a text whose only tag is one visible region of field f around content c gives f the value TrimSpace(c) for Short and cleanUpContent(c) otherwise, and leaves the other fields "" |

## Left out

- `main`, `readFiles`, the license header, directory creation, file writing and the assembly of the generated file (mdtogo/main.go:53-153) are I/O around the core and are not part of this model.
- The regular-expression engine itself: the two tag patterns are modelled by a scanner (`Tags`) with the semantics Go's RE2 gives them, not by a general matcher.
- bufio.Scanner's 64 KiB token limit, beyond which the Go scanner stops with an error that cleanUpContent ignores; the model scans lines of any length.
- Names.DirName: filepath.Clean's resolution of "." and ".." elements inside the directory part is not modelled, so for "a/./f" the model names "." where Go names "a".
- Names.DirName: only '/' separates path elements, as on Unix; Go's filepath on Windows also splits at '\' and keeps a volume name such as "C:", which the model does not.
- Names.ToTitle: only ASCII lower-case letters are title-cased; unicode.ToTitle's mapping of other scripts is not modelled. The separator test of strings.Title is exact.
- Names.RemoveDashes: its contract states only that no dash remains and the length does not grow; the exact result is what IdentifierOfWords and IdentifierCons rely on.
- Strings are sequences of Unicode code points; Go's UTF-8 byte strings and invalid encodings are not modelled.
