# RegToInno, modelled in Dafny

RegToInno reads a Windows registry export (`.reg`) and writes an Inno Setup
script section, `[Registry]`, with one entry per registry value. This
project models the conversion in `Program.cs` and proves properties of it:

- **Hive names** (`Inno.ShortHive`) map to Inno Setup root tokens. Text is
  escaped for Inno Setup (`Inno.InnoEscape`, which doubles every `{`).
- **Logical lines** (`Continuation`): a physical line ending in `\`
  continues on the next one. The trailing backslashes are dropped and the
  next line's indentation too. The inner loop is the method
  `Continuation.ReadLogicalLine`.
- **Recognisers** (`Records`): one hand-written recogniser for each of the
  five anchored patterns. These are the key header `[hive\key]` and the
  string, `dword:`, `hex(2):` and `hex:` value records. They are proved
  sound and complete against the shapes written out as functions. The five
  are proved mutually exclusive, so trying them in the program's order
  gives the same result as any other order.
- **Payload decoding** (`Payload`):
  - A REG_EXPAND_SZ payload is a comma-separated list of bytes. The model
    reads it as `Convert.ToByte(x, 16)` does, then decodes it as UTF-16LE
    (`Encoding.Unicode.GetString`) and drops the trailing NULs.
  - A REG_BINARY payload keeps its bytes, separated by spaces.
- **Entry emission** (`Directives`): the `Root`, `Subkey`, `ValueType`,
  optional `ValueName`, `ValueData` and `Flags` parameters, in the order the
  code writes them.
- **The main loop** (`Converter`): both loops as the method
  `Converter.ConvertLines`, proved equal to a left fold (`Run`) of one
  `Step` per logical line. Each step updates the current hive and key and
  appends to the output.

The input is the file's sequence of lines. The output is the sequence of
lines written, together with the reason the conversion stopped early, if it
did.

A value record before any key header makes the program dereference a null
`CurrentKey` and stop with an exception. The model returns this as the
failure `MissingKeyContext`. A byte list that `Convert.ToByte` rejects is
the failure `BadByteList`. The model keeps the lines written before a
failure (see "Left out" for what the program does with them).

The registry value payload of a REG_EXPAND_SZ record is decoded before the
entry is written, so a bad byte list is reported even without a key
header. The model keeps that order.

Details of the program the model keeps:

- **Parameter order**: `ValueType` comes before `ValueName` in every
  entry (Program.cs:130, 154, 184, 212).
- **Trailing NULs**: `TrimEnd('\0')` drops every trailing NUL of a decoded
  REG_EXPAND_SZ text, not only the terminator.
- **Key deletion**: a `[-HIVE\key]` line has the key-header shape, so it is
  taken for a key header with the hive `-HIVE`. The entries after it are
  written with an empty root (`DeletionHeaderIsKey`, `DeletionHeaderRoot`).
- **Unescaped binary data**: the `@` form of a REG_BINARY record writes its
  data without escaping; the named form escapes it. `ValueDataMeaning`
  proves the two agree, since the data never holds a brace.

Modules, one file each: `Wrappers` (Option, Result), `Text` (the .NET
string operations used), `Inno`, `Continuation`, `Records`, `Payload`,
`Directives`, `Converter`, and `Scenarios` (worked conversions of one
record of each kind).

## Model

| member | source | states |
|---|---|---|
| Inno.ShortHive | Program.cs:19-29 | the result is one of the five root tokens exactly when the input is one of the five hive names; any other input, the empty text included, gives "" |
| Inno.ShortHiveTable | Program.cs:21-28 | the five pairs of the table, and "" for a near miss, a lower-case name and the empty text |
| Inno.ShortHiveRoundTrip | Program.cs:19-29 | the mapping is a bijection between hive names and root tokens: mapping back gives the hive, and the other way round |
| Inno.InnoEscape | Program.cs:32-36 | the output is one character longer per `{` of the input; text without `{` comes back unchanged; the output holds a `{` exactly when the input does |
| Inno.InnoEscapeRoundTrip | Program.cs:34 | reading escaped text back, with `{{` as one `{`, gives the original, so nothing else is changed, dropped or reordered |
| Inno.InnoEscapeInjective | Program.cs:34 | distinct texts stay distinct when escaped |
| Inno.InnoEscapeAppend | Program.cs:34 | escaping works character by character: the escape of a concatenation is the concatenation of the escapes |
| Inno.InnoEscapeBracesPaired | Program.cs:34 | every brace of escaped text belongs to a `{{` pair, so none opens an Inno Setup constant |
| Continuation.Continue | Program.cs:98 | a length bound: the joined line is no shorter than the next line without its indentation and no longer than the two lines together (`ContinueMarker` and `TrimEndBackslashesPrefix` state its text) |
| Continuation.TrimEndBackslashes | Program.cs:98 | `TrimEnd('\\')` gives a prefix of the line that does not end in a backslash, and leaves a line without one unchanged |
| Continuation.TrimEndBackslashesPrefix | Program.cs:98 | everything removed from the end of the line is a backslash |
| Continuation.ContinuedEnding | Program.cs:92-98 | after a join, the line ends in a backslash exactly when the appended line did, so the inner loop goes on exactly then |
| Continuation.AssembleSingle | Program.cs:92 | a line that does not end in a backslash is a logical line by itself and takes up no further line |
| Continuation.Assemble | Program.cs:92-99 | a logical line never takes up more lines than remain |
| Continuation.AssembleStopsAtLastMarker | Program.cs:94-96 | a logical line that still ends in a backslash has taken up all the remaining input: it was kept as assembled when the input ran out |
| Continuation.AssembleRunsOut | Program.cs:94-96 | when the line and every line after it end in a backslash, the input runs out mid-continuation: all of it is taken up and the logical line is kept as assembled, still ending in a backslash |
| Continuation.AssembleRunsOutIff | Program.cs:92-96 | a continued line is still unfinished at the end exactly when every remaining line ends in a backslash |
| Continuation.AssembleLastLine | Program.cs:92-98 | a logical line that took up lines ends in a backslash only if the last line it took up does |
| Continuation.AssembleSwallows | Program.cs:92-99 | the lines taken up are exactly those the inner loop reads: every one but the last appended ends in a backslash, and the assembly stops at the first line that does not |
| Continuation.AssembleExtends | Program.cs:98 | the logical line starts with the physical line without its trailing backslashes |
| Continuation.AssembleWithin | Program.cs:94-98 | reading more input does not change a logical line that ended before it |
| Continuation.LogicalLines | Program.cs:83-99 | there are never more logical lines than physical lines, and some input gives at least one |
| Continuation.LogicalLinesIdentity | Program.cs:83-99 | without continuation markers, the logical lines are the physical lines |
| Continuation.LogicalLinesAppend | Program.cs:83-99 | each physical line is used once, in order: for input split after a line that does not continue, the logical lines are those of the first part followed by those of the second |
| Continuation.TrimEndMarker | Program.cs:98 | the single backslash put after a line that ends in none is exactly what `TrimEnd('\\')` removes |
| Continuation.ContinueMarker | Program.cs:98 | a line ended by one backslash, joined with an indented line, gives the line followed by the unindented text |
| Continuation.UnwrapLast | Program.cs:92-99 | a line ended by one backslash and one indented follow-on line without a backslash make one logical line, the two texts put together, taking up that one line |
| Continuation.UnwrapStep | Program.cs:92-99 | a follow-on line that ends in a backslash carries the logical line on: it takes up one line more than the joined text does |
| Continuation.AssembleUnwraps | Program.cs:92-99 | a line broken after a backslash over any number of indented follow-on lines assembles back into the text before the breaks, taking up every follow-on line |
| Continuation.LogicalLinesUnwrap | Program.cs:83-99 | the physical lines of such a wrapped line are one logical line, the text before the breaks |
| Continuation.ReadLogicalLine | Program.cs:92-99 | the inner loop reads at least one line and no more than there are, and returns the logical line `Assemble` defines, with the position after the last line it took up |
| Text.TrimStart | Program.cs:98 | never longer than the input; see `TrimStartSplit` for what it removes |
| Text.TrimStartSplit | Program.cs:98 | `TrimStart()` removes only leading white space: the text is a white-space run followed by the result, which does not start with white space |
| Text.TrimStartAfter | Program.cs:98 | trimming a white-space run off text that does not start with white space gives that text back |
| Text.RemoveWhiteSpace | Program.cs:171 | the result holds no white space, is no longer than the input, and text without white space is returned unchanged |
| Text.RemoveWhiteSpaceAppend | Program.cs:171 | deleting white space works piece by piece, so with the clause above every character that is not white space is kept, in order |
| Text.RemoveWhiteSpaceOfWhiteSpace | Program.cs:171 | text that is only white space is deleted entirely |
| Text.ReplaceChar | Program.cs:204 | each occurrence of the replaced character (here `,`) becomes the replacement (a space), every other character stays where it was, and the length is kept |
| Text.Split | Program.cs:174 | `Split(',')` gives at least one piece, no piece holds a comma, and the pieces joined by commas give back the text |
| Records.MatchKey | Program.cs:58 | a match captures a non-empty hive without `\` and a non-empty key without `]` |
| Records.MatchKeyComplete | Program.cs:58 | every line made of white space, `[`, a hive, `\`, a key, `]` and anything else is matched, with that hive and key captured |
| Records.MatchKeySound | Program.cs:58 | every matched line is such a line, with the captured hive and key |
| Records.MatchTargetComplete | Program.cs:61 | `"name"` and `@` are recognised with the right target and the rest of the line |
| Records.MatchTargetSound | Program.cs:61 | what is recognised is `"name"` or `@` followed by the rest |
| Records.MatchHeadComplete | Program.cs:61-70 | white space, the name part, white space, `=` and white space are recognised, with the rest after them |
| Records.MatchHeadSound | Program.cs:61-70 | what is recognised has that shape, with white-space runs that can be named |
| Records.MatchBodyComplete | Program.cs:61-70 | for each kind, the introducer, a payload of its class, the closing quote of a string value and anything that cannot extend the payload are recognised, with exactly that payload captured |
| Records.MatchBodySound | Program.cs:61-70 | what is recognised has that shape |
| Records.MatchBodyExclusive | Program.cs:61-70 | no right-hand side is recognised as two kinds |
| Records.KeyAndValueExclusive | Program.cs:58-70 | no line is both a key header and a value record |
| Records.OnlyMatchingKind | Program.cs:61-70 | a line that is a value record of one kind is a value record of no other kind |
| Records.MatchTarget | Program.cs:61-70 | a recognised target is a valid name or `@` and is followed by less than the whole text; see `MatchTargetComplete` and `MatchTargetSound` |
| Records.MatchHead | Program.cs:61-70 | a recognised head captures a valid name or `@`; see `MatchHeadComplete` and `MatchHeadSound` |
| Records.MatchBody | Program.cs:61-70 | a recognised body captures a non-empty payload of its kind's character class; see `MatchBodyComplete` and `MatchBodySound` |
| Records.MatchValue | Program.cs:61-70 | a matched value shape captures a valid name or `@` and a non-empty payload of its kind's character class |
| Records.FirstValue | Program.cs:116-194 | trying kinds in turn gives a value record or nothing, never a key header, with captures that fit their shape |
| Records.MatchAnyValue | Program.cs:116-194 | the four value shapes in the program's order give a value record or nothing, with captures that fit their shape |
| Records.Classify | Program.cs:104-215 | every capture fits its pattern |
| Records.ClassifyKeyComplete | Program.cs:104-111 | every key line is classified as a key header with its hive and key |
| Records.DeletionHeaderIsKey | Program.cs:52-58 | a key-deletion header `[-HIVE\key]` is classified as a key header whose hive is `-HIVE` |
| Records.ClassifyKeySound | Program.cs:104-111 | every line classified as a key header is a key line with those captures |
| Records.ClassifyValueComplete | Program.cs:116-194 | every value line of a kind is classified as a value record of that kind, with its target and payload |
| Records.ClassifyValueSound | Program.cs:116-194 | every line classified as a value record is a value line of that kind with those captures |
| Records.ClassifyOrderIrrelevant | Program.cs:104-215 | the classification is a key header exactly when the key pattern matches, and a value record of a kind exactly when that kind's pattern matches, so the order of the tries does not matter |
| Payload.ParseByte | Program.cs:174 | on text of hexadecimal digits only, `Convert.ToByte(x, 16)` succeeds exactly when the text is non-empty and its value is below 0x100, and then gives that value; any other character is an error (see "## Left out" for `+` and `0x`) |
| Payload.ParseByteText | Program.cs:174 | the two-digit text of every byte parses back to it |
| Payload.ParseByteLeadingZero | Program.cs:174 | a leading zero changes neither the value nor the overflow |
| Payload.ParseAll | Program.cs:174 | the list succeeds exactly when every piece parses, and then gives every piece's value, in order |
| Payload.ParseAllFirstError | Program.cs:174 | a failing list reports the error of its first bad piece |
| Payload.FirstFailing | Program.cs:174 | a failing list has a first bad piece, with all before it good |
| Payload.Bytes | Program.cs:171-174 | a list that is only white space (nothing left once it is removed) is one empty piece and fails; a list that is read gives one byte per comma-separated piece, at least one |
| Payload.BytesRoundTrip | Program.cs:171-174 | the comma-separated two-digit texts of any non-empty byte sequence are read back as that sequence |
| Payload.BytesErrors | Program.cs:171-174 | for a matched payload, the only possible errors are an empty piece and a value above 0xff |
| Payload.CodeUnitsOfUnitBytes | Program.cs:176 | pairing bytes low first into code units inverts splitting code units into bytes |
| Payload.UnitBytesOfCodeUnits | Program.cs:176 | splitting code units into bytes inverts the pairing, for an even number of bytes |
| Payload.CodeUnits | Program.cs:176 | one code unit per pair of bytes, a trailing odd byte left over; see `CodeUnitsOfUnitBytes` and `UnitBytesOfCodeUnits` for the pairing |
| Payload.DecodeUnits | Program.cs:176 | at most one character per code unit; see `DecodeEncode` for what it decodes to |
| Payload.GetString | Program.cs:176 | at most one character per pair of bytes, plus one for an odd last byte |
| Payload.DecodeEncode | Program.cs:176 | UTF-16 decoding inverts UTF-16 encoding, surrogate pairs included |
| Payload.GetStringRoundTrip | Program.cs:176 | `Encoding.Unicode.GetString` of the UTF-16LE bytes of any text gives back the text |
| Payload.TrimTrailingNul | Program.cs:176 | `TrimEnd('\0')` gives a prefix that does not end in NUL, having removed only NULs |
| Payload.TrimTrailingNulAfter | Program.cs:176 | text without a trailing NUL comes back unchanged from any run of NULs appended to it |
| Payload.ExpandSzText | Program.cs:170-176 | decoding fails exactly when the byte list cannot be read |
| Payload.ExpandSzRoundTrip | Program.cs:170-176 | the byte list an export writes for a text and its terminating NUL decodes to that text |
| Payload.ExpandSzPercent | Program.cs:170-176 | `25,00,00,00` decodes to `%` |
| Payload.BinaryData | Program.cs:200-204 | for a list without white space the data has the list's length, each comma turned into a space |
| Payload.BinaryDataPieces | Program.cs:200-204 | the binary data is the pieces between commas, white space removed, joined by single spaces |
| Payload.BinaryDataOfHexList | Program.cs:200-204 | an exported byte list becomes its two-digit byte texts separated by spaces |
| Payload.BinaryDataBraceFree | Program.cs:200-212 | the binary data of a matched payload holds only hexadecimal digits, commas and spaces, so no brace |
| Payload.BinaryDataExample | Program.cs:200-204 | `01,02,0a` becomes `01 02 0a` |
| Directives.TypeTag | Program.cs:126-212 | every kind is written as one of `string`, `dword`, `expandsz`, `binary` |
| Directives.TypeTagInjective | Program.cs:126-212 | each kind has its own `ValueType` |
| Directives.ValueData | Program.cs:124-212 | the data can be worked out except for a REG_EXPAND_SZ whose byte list cannot be read |
| Directives.ValueDataMeaning | Program.cs:124-212 | a string's data reads back as the captured text, a dword's is `$` and its digits verbatim, a REG_EXPAND_SZ's reads back as the decoded text, both with every brace doubled so that none opens a constant, and a REG_BINARY's is its bytes separated by spaces in both forms |
| Directives.EntryFor | Program.cs:124-212 | only a named record has a `ValueName`; the root is empty exactly when the hive is none of the five; the type is the kind's tag and the data is given unchanged |
| Directives.DeletionHeaderRoot | Program.cs:52-58 | under a key-deletion header `[-HIVE\key]` every entry has an empty root |
| Directives.Render | Program.cs:126-212 | the line opens with the `Root`, `Subkey` and `ValueType` parameters; `NamedAddsValueName` and `RenderEnds` state the rest of the layout |
| Directives.Emit | Program.cs:124-212 | writing an entry fails exactly without a key header or with an unreadable REG_EXPAND_SZ byte list; the byte list is reported first, then the missing key header |
| Directives.EmitOk | Program.cs:124-212 | under a key header, a record whose data can be worked out is written as the entry for it |
| Directives.EntryReadsBack | Program.cs:124-212 | undoing the brace doubling gives back the key and the value name of the record, and a non-empty root maps back to the hive; no escaped parameter opens a constant; only the named form has a `ValueName` |
| Directives.NamedAddsValueName | Program.cs:124-131 | the named form is the `@` form with `ValueName: <name>; ` inserted right after the `ValueType` parameter |
| Directives.RenderEnds | Program.cs:126-212 | every entry starts with `Root: ` and ends with `; Flags: uninsdeletevalue uninsdeletekeyifempty;` |
| Converter.ConvertLines | Program.cs:80-217 | the loop writes exactly the lines of `Convert` of the input and stops with its failure |
| Converter.Step | Program.cs:104-215 | one logical line writes at most one line and removes none; after a failure it changes nothing |
| Converter.Run | Program.cs:80-217 | the output holds the header and at most one line per logical line |
| Converter.Convert | Program.cs:80-217 | at most one line is written per physical line, after the header |
| Converter.ConvertUnwrapped | Program.cs:83-99 | a line wrapped over indented follow-on lines converts exactly as the line before the wrap |
| Converter.ProcessLine | Program.cs:104-215 | one pass of the outer loop body after assembly is one `Step` |
| Converter.RunSticky | Program.cs:83-217 | after a failure nothing changes any more |
| Converter.RunOutputGrows | Program.cs:83-217 | lines once written stay written; later lines only append |
| Converter.HeaderFirst | Program.cs:80 | the output starts with `[Registry]`, whatever the input |
| Converter.RunWithoutFailure | Program.cs:104-215 | until a failure, the context is the hive and key of the most recent key header, and the output is `[Registry]` followed by the entry of every value record, one each, in input order |
| Converter.StepKey | Program.cs:104-111 | a key header sets the context and writes nothing |
| Converter.StepUnrecognised | Program.cs:104-215 | a line matching no pattern changes nothing, the context included |
| Converter.StepValue | Program.cs:116-215 | a value record keeps the context and appends exactly its entry, or stops the conversion and writes nothing |
| Converter.ValueBeforeKey | Program.cs:72-126 | a value record before any key header stops the conversion and writes nothing; the cause is the unreadable byte list for a REG_EXPAND_SZ whose list cannot be read, and the missing key header for every other record |
| Converter.NoKeyNoOutput | Program.cs:72-80 | without a key header, nothing but `[Registry]` is ever written |
| Scenarios.StringScenario | Program.cs:116-131 | the record captured from `"Bar"="Baz"` (name `Bar`, payload `Baz`) under `HKEY_CURRENT_USER\Software\Foo` gives root `HKCU`, subkey `Software\Foo`, type `string`, name `Bar`, data `"Baz"` |
| Scenarios.DwordScenario | Program.cs:138-156 | the record captured from `@=dword:0000002a` (the default value, payload `0000002a`) gives type `dword`, no name and data `$0000002a` |
| Scenarios.ExpandSzScenario | Program.cs:162-186 | the record captured from `"Z"=hex(2):25,00,00,00` (name `Z`, payload `25,00,00,00`) gives type `expandsz`, name `Z` and data `"%"` |
| Scenarios.BinaryScenario | Program.cs:192-214 | the record captured from `"Y"=hex:01,02,0a` (name `Y`, payload `01,02,0a`) gives type `binary`, name `Y` and data `"01 02 0a"` |
| Scenarios.NoKeyScenario | Program.cs:72-131 | the same string record without a key header is not written: the cause is the missing key header |

## Left out

- **Files, console and line splitting:**
  - The usage text, files and streams (Program.cs:41-49, 75-77) are not
    modelled. The `.iss` path is not modelled either.
  - The input is the sequence of lines `ReadLine` returns. How it splits
    on `\r`, `\n` and `\r\n` is not modelled.
- **Culture-sensitive end test**: `EndsWith(@"\")` is modelled as a test
  of the last character. The .NET call compares by the current culture,
  which ignores characters such as U+00AD (and U+0000 under ICU). A line
  ending in `\` followed by one of them passes the .NET test but not the
  model's, so the model does not join it with the next line.
- **White space**: the `\s` class and `Char.IsWhiteSpace` are modelled as
  the documented set: U+0009 to U+000D, U+0085, and the space, line and
  paragraph separators. Unicode versions are not tracked.
- **Regular expressions**: there is no regular-expression engine. The five
  patterns are hand-written recognisers. They are proved sound and complete
  against the shapes the patterns describe, as anchored matches that allow
  trailing text.
- **Sign and `0x` prefix**: `Convert.ToByte(x, 16)` also accepts a leading
  `+` and a `0x` prefix. The model's `ParseByte` rejects both, because the
  byte-list pattern admits neither `+` nor `x`, so no piece that reaches it
  from a record holds one (`BytesErrors`).
- **Payload.NotHexDigits**: this error for a piece with a non-hexadecimal
  character stays in the model. It applies to byte lists given directly to
  `ExpandSzText`. `BytesErrors` shows that no matched payload reaches it.
- **UTF-16 decoding**: a lone surrogate code unit and an odd trailing byte
  each decode to U+FFFD. That is .NET's default replacement behaviour.
  Other decoder settings are not modelled.
- **Exceptions**: the program ends by throwing, and nothing in `Main`
  catches the exception. The model ends with a `Failure` value and keeps
  the lines written before it. That is the model's assumption: .NET does
  not promise to run the `using` blocks for an unhandled exception, so the
  `.iss` file may hold only what `StreamWriter` had already flushed.
  Exception types and messages are not modelled.
- **Not in the program**: QWord (`hex(b):`), MultiSZ (`hex(7):`) and other
  value types do not exist in it, so they are not modelled; lines of those
  kinds classify as unrecognised, as in the program. Backslash un-escaping
  of string data and the substitution of a directory by a placeholder are
  not in it either. Key deletion (`[-key]`, Program.cs:52-54) is a TODO
  there: such a line is taken for a key header, as described above.
- **Quotes inside parameters**: Inno Setup doubles quotes inside quoted
  parameters. The program never does so. String payloads and names cannot
  hold a quote, since the patterns exclude it. A key can
  (`[^\]]+`, Program.cs:58), and so can decoded REG_EXPAND_SZ text (the
  bytes `22,00`); such a quote ends the quoted `Subkey` or `ValueData`
  parameter early. The program writes `ValueName` unquoted (Program.cs:130,
  154, 184, 212), so a name holding `;`, or starting or ending with spaces,
  is cut or trimmed when Inno Setup reads it. How Inno Setup parses an
  entry line is not modelled.
- EntryReadsBack: states that undoing the brace doubling gives back the key
  and the value name, not that Inno Setup reads them back, because the
  parameter parsing of Inno Setup is not modelled (see the line above).
- **Full entry text**: the scenarios state the entry each record gives, as
  parameters. The full text of the entry follows from `Render`.
  `NamedAddsValueName` and `RenderEnds` state its layout for every entry.
