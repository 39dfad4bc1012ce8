# SuperKonsole in Dafny

SuperKonsole is a static C# helper that wraps `System.Console` and adds a
small colour markup language to its `Write`/`WriteLine` methods:

- `&name;` switches to a named colour, and `&back;` reverts one level.
- `%code;` switches to the colour with that number, and `%*…;` reverts one
  level per `*`.
- `{n}` and `{n:spec}` are composite-format placeholders.
- `{{`, `&&` and `%%` are escapes.

A message is first cut into *sections* (`GenerateSections`). Each section
carries its text, at most one colour action and the number of placeholders
it holds. Each section's placeholders are then renumbered from 0
(`FixFormats`). The write loops then go through the sections in order:

- they save the current colour on a stack before a change and pop it back
  on a revert;
- they deal each section its share of the argument list;
- they write the section's text.

The model has seven modules, following the source's structure:

- `Text`: the .NET string operations the engine uses:
  - `Char.IsWhiteSpace` and `String.Trim`;
  - scanning up to a terminator;
  - `String.Split` with `RemoveEmptyEntries`;
  - printing a non-negative `int` in decimal;
  - `int.TryParse`.
- `Colors`: `ConsoleColor`, the name table `colorDict` and both
  `TryFindColor` overloads.
- `Sections`: the `KolorSection` struct, its constructor, `Count` and
  `GenerateSections`.
  - The method keeps the source's loop over an index.
  - It is proved equal to `SectionsOf`, a functional reading of the same
    scan: `Run` over the remaining input, then `Flush` at the end.
- `SectionsFacts`: what the tokenizer promises:
  - the escapes and the directive rules;
  - the end-of-input rule;
  - the shape of every section list;
  - that `Formats` counts the single braces;
  - the sections of whole messages built from directives and plain text.
- `Formats`: `FixFormats`, proved equal to `Renumber`, and what the
  renumbering keeps and numbers.
- `Konsole` and `KonsoleFacts`: the writer.
  - It is a class `SuperKonsole<A>` whose fields are the colour stack, the
    current text colour, the console's default colour and the sequence of
    writes made to standard output.
  - `A` is the type of the format arguments.
  - The four overloads and `ResetColor` are methods on it.
  - Each method's new state is stated through the functions `ShowFormatted`
    and `ShowVerbatim`.
  - The lemmas in `KonsoleFacts` prove how the stack moves, that arguments
    are handed out in order, and what whole messages look like.

Where the code and the intended behaviour described for it differ, the model
follows the code:

- **Name lookup is case-sensitive.** It is an exact `Dictionary` lookup on
  lower-case keys. `&Cyan;` is therefore unknown and falls back to Gray.
- **The placeholder counter restarts at 0 in every section.** `f` is local
  to `FixFormats`, so it is not a writer-wide counter. Each section's
  placeholders index that section's own argument array, so arguments are
  still consumed left to right (`KonsoleFacts.ArgumentsInOrder`).
- **`&&` produces `%`, not `&`.** The escape branch of the `&` handler
  appends `'%'`. The model keeps this.
- **The overloads without arguments write each section's text as it is.**
  They call `Console.Write(string)`, so an escaped `{{` reaches the console
  doubled. Only the formatted overloads go through `String.Format`, which
  turns it into `{`.

## Model

| member | source | states |
|---|---|---|
| Colors.FromCode | SuperKonsole.cs:262 | the cast `(ConsoleColor)code` gives the colour whose enum value is code |
| Colors.CodeRoundTrip | SuperKonsole.cs:262 | casting a colour's enum value back gives the same colour |
| Colors.NamesInDict | SuperKonsole.cs:20-25 | every one of the 16 colours is in `colorDict` under its lower-case name |
| Colors.DictOnlyNames | SuperKonsole.cs:20-25 | every key of `colorDict` is the name of the colour it maps to |
| Colors.TryFindColorName | SuperKonsole.cs:247-250 | succeeds exactly when the name is some colour's name, and then returns that colour; on a miss the out value is Black (`default(ConsoleColor)`) |
| Colors.TryFindColorCode | SuperKonsole.cs:257-264 | succeeds exactly for codes 0..15, and then returns the colour with that code; otherwise the out value is Gray |
| Colors.NamesAndCodesAgree | SuperKonsole.cs:20-25 | looking up the name of the colour with code i gives the same answer as looking up code i |
| Text.TrimStartSpec | SuperKonsole.cs:310 | TrimStart removes exactly the leading run of white space |
| Text.TrimEndSpec | SuperKonsole.cs:310 | TrimEnd removes exactly the trailing run of white space |
| Text.TrimSpec | SuperKonsole.cs:415 | Trim returns the middle of s with no white space at either end, cuts only white space, and leaves a string without white space as it is |
| Text.Until | SuperKonsole.cs:308-309 | the body read is a prefix of the input without the terminator, and it stops at the terminator or at the end |
| Text.After | SuperKonsole.cs:327 | with a terminator, the input is the body, the terminator, then the result; without one, nothing is left |
| Text.SplitAtStop | SuperKonsole.cs:308-309 | splitting `a;b` at its first `;` gives back a and b |
| Text.ScanUntil | SuperKonsole.cs:413 | a scan that stopped at the terminator or the end read exactly Until, and `i++` leaves it at After even past the end |
| Text.ReadUntil | SuperKonsole.cs:307-309 | the inner scanning loop returns Until of the input from i0, and the index after the step over the terminator is where After resumes |
| Text.Pieces | SuperKonsole.cs:417 | the pieces between separators: joining them with the separator gives back the input, there is at least one, and none contains the separator |
| Text.PiecesCons | SuperKonsole.cs:417 | a separator-free first part is the first piece, and the pieces of the rest follow it |
| Text.NonEmptyFilter | SuperKonsole.cs:417 | dropping the empty entries works piecewise over a concatenation, keeps a non-empty entry and drops an empty one, so the order is kept |
| Text.SplitNonEmpty | SuperKonsole.cs:417 | Split with RemoveEmptyEntries is the pieces with the empty ones removed, in order; every part is non-empty and free of the separator |
| Text.SplitTwo | SuperKonsole.cs:417-418 | `a:b` with non-empty a and b, neither holding ':', splits into exactly [a, b] |
| Text.SplitThree | SuperKonsole.cs:417-418 | `a:b:c` with non-empty parts free of ':' splits into exactly [a, b, c] |
| Text.SplitLeadingSeparator | SuperKonsole.cs:417-418 | `:b` loses its empty first entry and splits into [b] alone |
| Text.SplitNoSeparator | SuperKonsole.cs:417-418 | text without ':' never splits into two parts |
| Text.Decimal | SuperKonsole.cs:421 | the printed number is non-empty and all digits, with no leading zero |
| Text.TryParseInt | SuperKonsole.cs:352 | a parsed value always fits in 32 bits |
| Text.SkipNumberWhite | SuperKonsole.cs:352 | removes exactly the leading run of the white space int.TryParse allows |
| Text.LeadingDigits | SuperKonsole.cs:352 | the longest prefix made of digits |
| Text.TryParseIntAccepts | SuperKonsole.cs:352 | white space, an optional '-' or '+', one or more digits, white space and then NULs parse to the signed value of the digits whenever it fits in 32 bits |
| Text.TryParseIntShape | SuperKonsole.cs:352 | conversely, every input that parses has exactly that shape, and its value is the signed value of its digits |
| Text.TryParseIntRejects | SuperKonsole.cs:352 | an input starting with neither white space, a sign nor a digit, and the empty input, do not parse |
| Text.TryParseDigits | SuperKonsole.cs:352 | a string of digits parses to its value when that fits in 32 bits |
| Text.TryParseSigned | SuperKonsole.cs:352 | a sign, digits and NULs parse to the signed value when it fits in 32 bits, and do not parse otherwise |
| Text.TryParseUnsigned | SuperKonsole.cs:352 | digits followed by NULs parse to the digits' value when it fits in 32 bits, and do not parse otherwise |
| Text.TryParsePlus | SuperKonsole.cs:352 | a plus sign in front of digits does not change the result |
| Text.TryParseLeadingZero | SuperKonsole.cs:352 | a leading zero does not change the result |
| Text.TryParseTrailingNuls | SuperKonsole.cs:352 | NULs after the digits do not change the result |
| Text.LeadingZeroValue | SuperKonsole.cs:352 | a leading zero does not change the value of a string of digits |
| Text.DigitsValueDecimal | SuperKonsole.cs:421 | the digits printed for n have value n |
| Text.DecimalRoundTrip | SuperKonsole.cs:352 | parsing the decimal form of any n up to Int32.MaxValue gives n |
| Sections.NewSection | SuperKonsole.cs:461-468 | the new section holds msg, has no formats, no revert, no colour change, and colour Gray |
| Sections.ResolveName | SuperKonsole.cs:314-315 | a known name gives its colour; an unknown name gives Gray |
| Sections.ResolveCode | SuperKonsole.cs:352-356 | the parsed code's colour when it parses and lies in 0..15; Gray otherwise, including when parsing fails (code 7) |
| Sections.RunEscapedBrace | SuperKonsole.cs:285-290 | `{{` is kept in the text and not counted as a format |
| Sections.RunBrace | SuperKonsole.cs:283-292 | a single `{` is kept and counts one format |
| Sections.RunEscape | SuperKonsole.cs:296-301 | `&&` and `%%` each put one `%` into the text |
| Sections.RunDirectiveStep | SuperKonsole.cs:303-328 | a directive closes the pending section, opens the one its trimmed body names and resumes after the `;` |
| Sections.RunDirectiveTo | SuperKonsole.cs:303-328 | the same step, with the state reached named by the caller |
| Sections.RunOther | SuperKonsole.cs:372 | any other character is appended to the text |
| Sections.Count | SuperKonsole.cs:442-447 | returns the number of occurrences of c in str |
| Sections.OpenNamed | SuperKonsole.cs:312-325 | `back` opens a section reverting one level; any other name opens a colour change to the resolved colour |
| Sections.OpenNumeric | SuperKonsole.cs:350-366 | a body with stars opens a revert of as many levels as it has stars; any other body opens a colour change to the resolved code |
| Sections.OpenSection | SuperKonsole.cs:310-366 | trims the body read and opens the section the directive character and body name |
| Sections.Directive | SuperKonsole.cs:303-328 | appends the pending section with its text, opens the directive's section, and leaves the index after the `;` |
| Sections.GenerateSections | SuperKonsole.cs:270-387 | returns SectionsOf(msg), the functional scan of the message followed by the end-of-input rule |
| SectionsFacts.NamedDirectiveShape | SuperKonsole.cs:312-325 | `&back;` gives Back 1 and no change; any other name gives a change to ResolveName; either way exactly one action and no text |
| SectionsFacts.NumericDirectiveShape | SuperKonsole.cs:350-366 | a body with k ≥ 1 stars gives Back k; any other body gives a change to ResolveCode; either way exactly one action |
| SectionsFacts.OpenedShape | SuperKonsole.cs:303-366 | every directive opens a section with exactly one action, no text and no formats |
| SectionsFacts.CodeUnparsable | SuperKonsole.cs:352-356 | a body starting with neither white space, a sign nor a digit (`%x;`), and the empty body (`%;`), give Gray, the code 7 a failed parse leaves |
| SectionsFacts.CodeOutOfRange | SuperKonsole.cs:352-356 | a signed number outside 0..15 (`%16;`, `%-5;`), or one too large for 32 bits, gives Gray |
| SectionsFacts.CodePlusSign | SuperKonsole.cs:352-356 | a plus sign changes nothing: `%+3;` is `%3;` |
| SectionsFacts.CodeLeadingZero | SuperKonsole.cs:352-356 | a leading zero changes nothing: `%03;` is `%3;` |
| SectionsFacts.CodeTrailingNuls | SuperKonsole.cs:352-356 | trailing NUL characters change nothing: `%3\0;` is `%3;` |
| SectionsFacts.CodeDigits | SuperKonsole.cs:352-356 | digits with a value in 0..15 give the colour with that code, so `%3;` is DarkCyan |
| SectionsFacts.CodeAndNameResolveAlike | SuperKonsole.cs:314-356 | `%n;` and `&name;` for colour n resolve to the same colour |
| SectionsFacts.RunPlain | SuperKonsole.cs:279-373 | text without `&` or `%` never closes a section |
| SectionsFacts.ReadPlainIs | SuperKonsole.cs:283-292 | text without directives is appended as it is, `{{` included, and adds its single braces to Formats |
| SectionsFacts.PlainMessage | SuperKonsole.cs:375-380 | a message without markup gives one section holding all of it, with Formats equal to its single braces; an empty message gives no section |
| SectionsFacts.RunDirectiveText | SuperKonsole.cs:303-328 | `ch body;` closes the pending section (even with empty text) and the scan resumes right after the `;` |
| SectionsFacts.RunUnterminated | SuperKonsole.cs:307-328 | a directive without `;` takes the rest of the input as its body, and nothing remains |
| SectionsFacts.TrailingColorDropped | SuperKonsole.cs:375-384 | a colour change at the very end opens a section with no text, and that section is dropped |
| SectionsFacts.TrailingRevertKept | SuperKonsole.cs:381-384 | a revert at the very end is kept without text, with Back equal to its number of stars |
| SectionsFacts.RunGood | SuperKonsole.cs:279-373 | the scan preserves the section-shape invariant |
| SectionsFacts.SectionsShape | SuperKonsole.cs:270-387 | in every message, the first section has no action, every later section has exactly one, and no section's text contains `&` |
| SectionsFacts.LoneBracesAppend | SuperKonsole.cs:283-292 | the single-brace count of a concatenation is the sum of the counts when the join does not form `{{` |
| SectionsFacts.RunCounted | SuperKonsole.cs:279-373 | the scan preserves the property that each section's Formats equals the single braces of its text |
| SectionsFacts.FormatsCountBraces | SuperKonsole.cs:283-292 | in every message, each section's Formats is the number of single `{` in its text |
| SectionsFacts.RunSegments | SuperKonsole.cs:279-373 | scanning a chain of directives, each followed by plain text, opens one section per directive |
| SectionsFacts.FlushAfterSegments | SuperKonsole.cs:375-384 | after a chain of directives, the end of input keeps every section except a last one with neither text nor a revert |
| SectionsFacts.MarkupSections | SuperKonsole.cs:270-387 | plain text followed by directives and texts gives the leading section, then one section per directive, ending by the end-of-input rule |
| SectionsFacts.RevertSegment | SuperKonsole.cs:362-366 | `%*;` followed by text t is a one-level revert holding t |
| SectionsFacts.ColorThenRevert | SuperKonsole.cs:270-387 | `t0&name;t1%*;t2` gives exactly three sections: t0 with no action, t1 with the named directive, and t2 reverting one level |
| Formats.Placeholder | SuperKonsole.cs:412-431 | every placeholder written starts with `{` and ends with `}` |
| Formats.FixPlaceholderTo | SuperKonsole.cs:403-434 | a single `{` writes placeholder k for the body up to `}` and resumes after it with k + 1 |
| Formats.FixOtherTo | SuperKonsole.cs:437 | any other character is copied |
| Formats.FixEscapedTo | SuperKonsole.cs:405-410 | `{{` is copied and not numbered |
| Formats.ReadPlaceholder | SuperKonsole.cs:412-431 | reads the body up to `}`, trims and splits it, and writes the placeholder numbered f; the index ends on the `}` |
| Formats.FixStep | SuperKonsole.cs:401-437 | one pass of the loop keeps the rewrite of the whole text unchanged |
| Formats.FixFormats | SuperKonsole.cs:393-440 | returns Renumber(sect.Message, 0), numbering from 0 on every call |
| Formats.NoBraceCopied | SuperKonsole.cs:437 | text without `{` is copied after what has been written |
| Formats.NoBraceUnchanged | SuperKonsole.cs:393-440 | text without `{` comes out unchanged |
| Formats.PlaceholderWithSpec | SuperKonsole.cs:415-425 | `{index:spec}`, with white space around it trimmed away, is written `{k:spec}`, keeping spec and dropping the author's index |
| Formats.PlaceholderNoIndex | SuperKonsole.cs:415-431 | `{:spec}` has one part once the empty entry is removed, so it is written `{k}` and spec is lost |
| Formats.PlaceholderThreeParts | SuperKonsole.cs:415-431 | `{a:b:c}`, such as `{0:X4:Y}`, has three parts, so it is written `{k}` with no spec |
| Formats.PlaceholderPlain | SuperKonsole.cs:426-431 | a body without ':' (such as `{5}` or `{}`) is written `{k}` |
| Formats.AfterStep | SuperKonsole.cs:413 | skipping to after the next `}` from a non-`}` character is the same as skipping from the next character |
| Formats.LoneBracesAfter | SuperKonsole.cs:413 | skipping to after the next `}` finds no more single braces than were there |
| Formats.CounterWithinLoneBraces | SuperKonsole.cs:399-438 | the counter `f` that numbers the placeholders only moves on, and by no more than the number of single braces in the text |
| Formats.PlaceholdersFit | SuperKonsole.cs:80-84 | in every section of every message, the placeholders written, `{0}` up to the final counter minus one, fall within the section's argument array of Formats slots |
| Konsole.RevertPops | SuperKonsole.cs:75-77 | reverting n levels pops min(n, depth) colours and restores the deepest one popped; it changes nothing on an empty stack |
| Konsole.Bind | SuperKonsole.cs:80-82 | a section with n slots gets the next min(n, remaining) arguments in order and null slots after them, and the next index is advanced by as many, never past the end |
| Konsole.FillArgs | SuperKonsole.cs:80-82 | the argument-array loop fills a fresh array exactly as Bind says and returns the next argument index |
| Konsole.ShowFormatted | SuperKonsole.cs:66-86 | the argument index stays within the argument list |
| Konsole.SuperKonsole.constructor | SuperKonsole.cs:17 | the colour stack starts empty, and nothing has been written |
| Konsole.SuperKonsole.ApplySection | SuperKonsole.cs:69-77 | a colour change pushes the current colour and sets the new one; then up to Back levels are popped; nothing is written |
| Konsole.SuperKonsole.WriteSectionsFormatted | SuperKonsole.cs:99-119 | the loop's new pen and writes are those of ShowFormatted over the sections, starting at argument 0 |
| Konsole.SuperKonsole.WriteSectionsVerbatim | SuperKonsole.cs:156-170 | the loop's new pen and writes are those of ShowVerbatim over the sections |
| Konsole.SuperKonsole.WriteFormatted | SuperKonsole.cs:95-120 | Write(msg, format) writes ShowFormatted over the sections of msg and ends with its pen |
| Konsole.SuperKonsole.WriteLineFormatted | SuperKonsole.cs:62-88 | WriteLine(msg, format) makes the same writes followed by the line break |
| Konsole.SuperKonsole.Write | SuperKonsole.cs:152-171 | Write(msg) writes each section's text as it is, through the section's colour action |
| Konsole.SuperKonsole.WriteLine | SuperKonsole.cs:126-146 | WriteLine(msg) makes the same writes followed by the line break |
| Konsole.SuperKonsole.ResetColor | SuperKonsole.cs:184-188 | the default colour is restored, the stack is empty, and nothing is written |
| KonsoleFacts.ApplyDepth | SuperKonsole.cs:69-77 | a section's action changes the stack depth by its push, then pops min(Back, depth) levels |
| KonsoleFacts.EmptyStackKeeps | SuperKonsole.cs:75-77 | on an empty stack, a revert leaves the pen unchanged |
| KonsoleFacts.ChangesPush | SuperKonsole.cs:69-73 | colour changes only push: the old stack stays underneath, with the old colour directly above it |
| KonsoleFacts.ChangesReverted | SuperKonsole.cs:69-77 | reverting as many levels as there were colour changes restores the pen from before them |
| KonsoleFacts.ChangesThenRevert | SuperKonsole.cs:69-77 | k colour changes followed by a k-level revert restore the pen exactly |
| KonsoleFacts.RevertAdd | SuperKonsole.cs:75-77 | reverting a levels and then b levels is reverting a + b levels |
| KonsoleFacts.ApplyAllAppend | SuperKonsole.cs:66-77 | the colour actions of two section lists in a row are those of the first, then those of the second |
| KonsoleFacts.BacksRevert | SuperKonsole.cs:75-77 | n one-level reverts in a row revert n levels |
| KonsoleFacts.ChangesThenBacks | SuperKonsole.cs:66-77 | n colour changes followed by n one-level reverts (`&red;&blue;&back;&back;`) restore the pen exactly |
| KonsoleFacts.ChangeThenBack | SuperKonsole.cs:69-77 | a colour change followed by a one-level revert restores the previous colour and stack |
| KonsoleFacts.ShowPen | SuperKonsole.cs:66-86 | either write loop ends with the colour actions of all its sections applied in order, and makes one write per section |
| KonsoleFacts.NoLineBreak | SuperKonsole.cs:95-120 | the section loops never write a line break; only WriteLine adds one |
| KonsoleFacts.TakenBind | SuperKonsole.cs:80-82 | the arguments in one section's array are the next consecutive slice of the argument list |
| KonsoleFacts.ArgumentsInOrder | SuperKonsole.cs:65-86 | across all sections, the arguments handed out are exactly the first min(total Formats, arguments) arguments, in order, with none skipped or repeated |
| KonsoleFacts.NoActionKeeps | SuperKonsole.cs:69-77 | a section with no action leaves the pen unchanged |
| KonsoleFacts.PlainWrite | SuperKonsole.cs:152-171 | Write of a non-empty message without markup makes one write of the message, in the current colour |
| KonsoleFacts.PlainWriteFormatted | SuperKonsole.cs:95-120 | Write(msg, format) of a message without markup makes one write of the renumbered text, with one argument per single brace while they last |
| KonsoleFacts.ChangeRevertShown | SuperKonsole.cs:152-171 | sections with no action, then a change, then a one-level revert are written in the current, the new and the current colour, and the pen ends as it began |
| KonsoleFacts.ColorThenRevertWrite | SuperKonsole.cs:152-171 | Write(`t0&name;t1%*;t2`) writes t0 and t2 in the current colour and t1 in the named colour, and leaves the pen as it was |

## Left out

- The console pass-throughs are not modelled: `Clear`, `ReadKey`, `ReadLine`, `Read`, `Title`, `BackColor`, and the `Error`, `Out` and `In` streams. They only forward to `System.Console`.
- `String.Format` is not modelled. A formatted write is recorded as its format string and argument array, and a plain write as its text. Turning `{{` into `{` and formatting the arguments happen inside .NET.
- `msg.ToString()` is not modelled. The overloads take the message as a string.
- `KolorSection.ToString` is not modelled. It is a debugging aid that nothing else calls.
- The console's actual colours are not modelled. `TextColor` is modelled as the current colour field. `Console.ResetColor` is modelled as restoring a default colour the object is given.
- `Environment.NewLine` is modelled as a single `NewLine` write, not as its characters.
- Concurrency on the static state is not modelled. The model is one object with sequential calls.
- Text.TryParseInt: models the invariant culture only. The current culture's own sign strings, which `int.TryParse` also accepts, are not modelled.
- Sections.KolorSection: Back and Formats are unbounded `nat`s. The source's `int` fields would wrap around past Int32.MaxValue stars or braces. The model does not capture that wrap-around.
- Konsole.SuperKonsole.ApplySection: the source's `b--` also runs on the test that ends the loop. When Back runs out first, `b` ends at -1; when the stack empties first, it ends at zero or above. The model's `b` is a `nat` that stops at zero. `b` is not read after the loop, so this changes no result.
- Text.IsWhiteSpace: follows the documented `Char.IsWhiteSpace` set for the characters listed. Characters outside the Basic Multilingual Plane are not considered.
