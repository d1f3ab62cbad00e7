# Verified model of the configuration core of the OCUDU gNB applications

The project models, in Dafny, the self-contained algorithms that the gNB applications rely on when
they start: the CLI11 configuration language (text codec, section events, option results and their
precedence), the derivation and validation steps of the gNB application, and three small runtime
pieces (the uWebSockets back-pressure buffer, Backward's owning handle, and text cutting helpers).
`dafny verify dfyconfig.toml` checks everything.

## How the pieces fit

| file | models |
|---|---|
| `Text.dfy` | character classes, trimming, searching |
| `Escapes.dfy`, `Utf8.dfy` | backslash escapes and the UTF-8 they produce |
| `Brackets.dfy` | scanning for the end of quotes and brackets, and the grammar of what is scanned |
| `BinaryText.dfy`, `BinaryRoundTrip.dfy`, `BinaryQuotes.dfy` | binary strings and exactly when they survive |
| `IniText.dfy`, `IniRoundTrip.dfy` | printing values and arrays, splitting and reading them |
| `PrintedForms.dfy`, `Comments.dfy`, `ArrayLines.dfy` | what is printed how, comments behind values, lists without brackets or over several lines |
| `MultiLine.dfy`, `FileRoundTrip.dfy` | multi-line literals, and the round trip through the lines of a file |
| `Sections.dfy`, `SectionNesting.dfy`, `SectionValues.dfy` | `++`/`--` section events, their nesting, and the values between them |
| `CheckedMultiply.dfy`, `Options.dfy`, `Precedence.dfy`, `Contributions.dfy` | option results, reduction, where values come from, and what each source gives |
| `Exclusions.dfy`, `Requirements.dfy` | mutually exclusive subcommands, and the requirements checked after a parse |
| `Derivation.dfy` | slices, tracking areas and PLMNs derived from the DU cells, and their validator |
| `BackPressure.dfy`, `Handles.dfy`, `Separated.dfy` | byte queue, owning handle, splitting and replacing |

Loops of the source are methods whose postconditions tie them to a function of their input; objects
that change in place are classes. The theorems are lemmas about those functions.

Text is a Dafny `string`; where a C++ `char` has to be a byte, `IsBytes` says so. `isprint` is 0x20
to 0x7E and `isspace` the C-locale set. "Parses as a floating point number", the conversion of flags,
validators and callbacks are function parameters, so every result holds for all of them. An
exception is a `None`, `Thrown` or `false` result.

## Where the code falls short of what one expects

Each of these is kept as it is, shown by the lemma or contract named, and bounded by an exact condition.

- Returning to `[default]` from a section of depth two or more can leave outer sections open
  (`DefaultCanLeaveSectionsOpen`); the trace is well nested if and only if the input is `Tidy`.
- `binary_escape_string` replaces `sqLoc + 1` characters for a quote at `sqLoc`
  (`QuoteLossExample`), and a literal `\x41` in a text that needs escaping is read as a code
  (`RoundTripWithoutQuotes`). A byte string that needs escaping survives if and only if it holds no
  literal code and quotes stand only at its ends (`RoundTripIffQuotesOutermost`).
- A multi-line literal whose text has no line break (`OneLineRead`), starts or ends with one, has a
  line ending in a backslash or an inner line ending in triple quotes, or itself looks quoted does
  not come back; every other one does (`LiteralReadsBack`).
- `\U` escapes beyond U+10FFFF are dropped without an error (`BeyondUnicodeVanishes`); the escapes
  are UTF-8 for their code points if and only if all are scalar values.
- The removal counter of `BackPressure` is 32 bits wide, and an erased byte can become visible again
  (`ErasedByteReturns`); an erase acts on the view as expected if and only if the counter does not wrap
  (`RefinesIffNoWrap`). A caller who erases no more than is visible and keeps fewer than 31 * 2^27
  visible bytes never meets the wrap (`CarefulCallers`).
- The comment above `split_source_prefixes` says the empty text gives no piece; the code gives one
  empty piece (`EmptyTextIsOnePiece`), and the model follows the code.
- Mutually exclusive subcommands whose options were set without parsing the subcommand, as a
  configuration file does for subcommands that are not configurable, can be used together
  (`UnparsedPairAccepted`): a parse is accepted if and only if every app *visited* meets its own
  requirements (`AcceptsIffVisitedMeet`), and one parsed subcommand of the pair is enough for the error
  (`UsedPairRefused`).
- `remove_subcommand` unlinks siblings only: the apps left are consistent if and only if the removed one
  excluded nothing but siblings (contract of `RemoveSubcommand`).

## Model

| member | source | states |
|---|---|---|
| Sections.CheckParentSegments | project/ocudu/external/CLI/CLI11.hpp:10248-10295 | editing the tail of the output amounts to closing the old section down to the shared prefix and opening the new one from there, nothing else; a close outside all sections stays before a section of depth one |
| Sections.FromConfig | project/ocudu/external/CLI/CLI11.hpp:10349-10538 | the reading loop over headers and values, with merging of repeated items, equals the step-by-step generator |
| SectionNesting.WellNestedIffTidy | project/ocudu/external/CLI/CLI11.hpp:10307-10538 | for every input whose values are not named like events, the replayed events open below their parent, close on top of the stack and end empty, if and only if every `[default]` that leaves a deep section is followed by another header in time |
| SectionNesting.WellNestedWithoutDefault | project/ocudu/external/CLI/CLI11.hpp:10307-10538 | every list of headers and values not named like events that never returns to the default section gives a well-nested trace |
| SectionNesting.HeaderMoves | project/ocudu/external/CLI/CLI11.hpp:10253-10294 | moving between sections closes exactly the old levels below the shared prefix, opens exactly the new ones, and the stack is the new path |
| SectionNesting.DefaultCanLeaveSectionsOpen | project/ocudu/external/CLI/CLI11.hpp:10361-10362 | a concrete input whose trace leaves a section open |
| SectionNesting.ValueTakenForClose | project/ocudu/external/CLI/CLI11.hpp:10520-10527 | a value named `--` inside a section is accepted and breaks the nesting |
| SectionValues.ValuesAreKept | project/ocudu/external/CLI/CLI11.hpp:10402-10526 | for every input, the items that are no events carry, in order, exactly the inputs of the value lines within the layers, each under the section of the last header before it, and name exactly what those lines name |
| SectionValues.RunMerges | project/ocudu/external/CLI/CLI11.hpp:10516-10525 | values of one name that follow each other are one item |
| Escapes.AddEscapedCharacters | project/ocudu/external/CLI/CLI11.hpp:865-878 | the loop escapes each character by the code table |
| Escapes.ReadHex | project/ocudu/external/CLI/CLI11.hpp:933-944 | reading digits with a shrinking multiplier gives the value of the digit string, within 32 bits, or rejects exactly non-digits |
| Escapes.RemoveEscapedCharacters | project/ocudu/external/CLI/CLI11.hpp:920-978 | the loop equals the recursive unescaping, including every throwing case |
| Escapes.UnescapeEscape | project/ocudu/external/CLI/CLI11.hpp:865-978 | unescaping undoes escaping for every text |
| Escapes.EscapeTable | project/ocudu/external/CLI/CLI11.hpp:856-878 | the seven escaped characters and their letters, every other character stays, and `\0` is read as NUL |
| Escapes.UnknownEscape | project/ocudu/external/CLI/CLI11.hpp:947-972 | any other letter behind a backslash, and a backslash at the end, is an error |
| Escapes.BadDigits | project/ocudu/external/CLI/CLI11.hpp:930-969 | `\u` needs four hexadecimal digits and `\U` eight; fewer, or another character among them, is an error |
| Escapes.DigitValues | project/ocudu/external/CLI/CLI11.hpp:880-894 | a digit has the value of its place in either hexadecimal alphabet, and nothing else is a digit |
| Utf8.DecodeFirstOfCodepoint | project/ocudu/external/CLI/CLI11.hpp:896-918 | the bytes appended for a scalar value decode, by an independent strict decoder, to that value |
| Utf8.EscapesAreUtf8 | project/ocudu/external/CLI/CLI11.hpp:930-969 | any sequence of `\u` and `\U` escapes yields shortest-form UTF-8 for exactly its code points if and only if all are scalar values |
| Utf8.BeyondUnicodeVanishes | project/ocudu/external/CLI/CLI11.hpp:911-918 | U+110000 is accepted and leaves no bytes |
| Brackets.CloseStringQuote | project/ocudu/external/CLI/CLI11.hpp:980-992 | the index of the closing quote, skipping escaped characters |
| Brackets.CloseLiteralQuote | project/ocudu/external/CLI/CLI11.hpp:994-997 | the index of the first closing quote, or the size |
| Brackets.CloseSequence | project/ocudu/external/CLI/CLI11.hpp:999-1044 | on every input terminates, returns more than start, and a result below the size points at the requested closer |
| Brackets.BracketMatching | project/ocudu/external/CLI/CLI11.hpp:1014-1043 | `close_sequence` for `)`, `]`, `}` or `>` stops at an index if and only if the closer stands there and the text before it is one content of a grammar with exactly these four pairs of brackets and three quotes |
| Brackets.StringQuoteMatching | project/ocudu/external/CLI/CLI11.hpp:980-992 | `close_sequence` for `"` stops at an index if and only if it is a quote and the text before it is a string body |
| Brackets.LiteralQuoteMatching | project/ocudu/external/CLI/CLI11.hpp:994-1008 | for any other character it stops at the first one |
| BinaryText.BinaryEscapeString | project/ocudu/external/CLI/CLI11.hpp:1098-1130 | both loops, with the replacement count of the code |
| BinaryText.ExtractBinaryString | project/ocudu/external/CLI/CLI11.hpp:1140-1177 | decoding with every index in range |
| BinaryRoundTrip.RoundTripWithoutQuotes | project/ocudu/external/CLI/CLI11.hpp:1098-1177 | without single quotes, a text that needs escaping is read back if and only if it holds no literal code |
| BinaryRoundTrip.RoundTripPrintable | project/ocudu/external/CLI/CLI11.hpp:1098-1177 | a printable text is written unchanged and read back if and only if it does not look like a binary string |
| BinaryQuotes.RoundTripIffQuotesOutermost | project/ocudu/external/CLI/CLI11.hpp:1098-1177 | every byte string that needs escaping is read back if and only if it holds no literal code and no quote stands inside it; a printable one if and only if it does not look binary |
| BinaryQuotes.CodingLowersWeight | project/ocudu/external/CLI/CLI11.hpp:1119-1123 | replacing quotes and decoding never raises, and with a quote inside or a literal code strictly lowers, the weight of the text |
| BinaryQuotes.QuoteLossExample | project/ocudu/external/CLI/CLI11.hpp:1121 | a text that a quote damages |
| IniText.SplitUp | project/ocudu/external/CLI/CLI11.hpp:1046-1084 | the shrinking loop equals the recursive splitter |
| IniText.IniJoin | project/ocudu/external/CLI/CLI11.hpp:10195-10221 | the loop equals the recursive printer |
| IniRoundTrip.ArgReads | project/ocudu/external/CLI/CLI11.hpp:10136-10193 | every argument prints as a word, string or literal that `process_quoted_string` turns back |
| IniRoundTrip.QuotedStringRoundTrip | project/ocudu/external/CLI/CLI11.hpp:1191-1211 | a quoted string followed by any text is closed at the added quote and reads as the original |
| IniRoundTrip.ArrayClosesAtEnd | project/ocudu/external/CLI/CLI11.hpp:10195-10221 | `close_sequence` on a printed array lands on its last bracket |
| IniRoundTrip.PrintThenRead | project/ocudu/external/CLI/CLI11.hpp:10402-10499 | a printed list is left whole by comment removal, and splitting and unquoting it gives, place by place, what each argument reads as |
| IniRoundTrip.RoundTrip | project/ocudu/external/CLI/CLI11.hpp:10136-10221 | a printed list of byte strings reads back as it was if and only if no argument that needs binary escaping holds a literal code or has a quote inside |
| PrintedForms.BareIff | project/ocudu/external/CLI/CLI11.hpp:10136-10180 | an argument is printed as it is if and only if it is one of four keywords, a number, or digits behind `0x`, `0o` or `0b` |
| PrintedForms.BinaryIff | project/ocudu/external/CLI/CLI11.hpp:10136-10183 | an argument is printed as a binary string if and only if it is not bare and holds a character that is neither printable nor, in a longer text, a tab or line break |
| PrintedForms.MultiLineIff | project/ocudu/external/CLI/CLI11.hpp:10184-10188 | a single argument stands between triple quotes if and only if it is longer than 100, holds a character to escape, and is not binary |
| PrintedForms.HexedByte | project/ocudu/external/CLI/CLI11.hpp:1098-1117 | printable characters stand for themselves, any other byte is `\x` and two lower-case digits |
| PrintedForms.BinaryForm | project/ocudu/external/CLI/CLI11.hpp:1118-1130 | without quotes, what is written is the frame around the codes |
| PrintedForms.BinaryPrints | project/ocudu/external/CLI/CLI11.hpp:1098-1130 | a binary string is printable |
| PrintedForms.CodeReads | project/ocudu/external/CLI/CLI11.hpp:1158-1172 | `\x` or `\X` and two digits of either case are read as one byte |
| PrintedForms.CharReads | project/ocudu/external/CLI/CLI11.hpp:1158-1174 | any other character is read as itself |
| PrintedForms.FramesRead | project/ocudu/external/CLI/CLI11.hpp:1132-1156 | codes are read only inside the two frames, which are taken off; any other text stays as it is |
| Comments.CommentIgnored | project/ocudu/external/CLI/CLI11.hpp:10409-10412 | a comment behind any printed one-line value, with or without blanks before it, changes nothing |
| Comments.EnclosedValue | project/ocudu/external/CLI/CLI11.hpp:10409-10412 | a value in quotes or brackets keeps a `#` inside, and once the text holds a `#` nothing behind the closing one counts |
| Comments.PlainValue | project/ocudu/external/CLI/CLI11.hpp:10409-10412 | any other value ends at the first `#` and is trimmed |
| Comments.EnclosedPiece | project/ocudu/external/CLI/CLI11.hpp:1052-1067 | cutting takes a quoted or bracketed piece as a whole, whatever the delimiter and whatever follows |
| Comments.CommaListReads | project/ocudu/external/CLI/CLI11.hpp:10478-10479 | a printed list without its brackets reads the same, if no `#` stands in it |
| Comments.BlankListReads | project/ocudu/external/CLI/CLI11.hpp:10480-10481 | blanks separate as well where no comma stands |
| Comments.OpenListReads | project/ocudu/external/CLI/CLI11.hpp:10469-10477 | a list with an opening bracket reads the same with and without the closing one |
| ArrayLines.GatherLines | project/ocudu/external/CLI/CLI11.hpp:10469-10473 | the loop appends trimmed lines up to the first that ends with `]` |
| ArrayLines.ArrayOverLines | project/ocudu/external/CLI/CLI11.hpp:10469-10477 | an array with one printed argument on each indented line reads like the array on one line |
| Text.TrimIs | project/ocudu/external/CLI/CLI11.hpp:516-534 | trimming takes the six white-space characters off both ends and nothing else |
| MultiLine.ReadMultiLineValue | project/ocudu/external/CLI/CLI11.hpp:10413-10469 | for both kinds of triple quotes, the reading loop with line extensions and closing quotes equals the recursive reader, with escapes resolved between closed double quotes |
| MultiLine.MultiLineRead | project/ocudu/external/CLI/CLI11.hpp:10413-10469 | a triple-quoted literal is read as written, whatever follows in the file, if it has several lines, its first and last are not empty, and no line joins the next or ends the literal early; otherwise the value is shorter or keeps the closing quotes |
| MultiLine.OneLineRead | project/ocudu/external/CLI/CLI11.hpp:10416-10426 | closing quotes on the first line are not recognised and stay in the value |
| MultiLine.TripleStringRead | project/ocudu/external/CLI/CLI11.hpp:10437-10452 | escaped text on a line of its own between triple double quotes reads as the text it stands for, for every text |
| MultiLine.ExtensionsJoined | project/ocudu/external/CLI/CLI11.hpp:10421-10466 | lines joined by backslashes read as one line without their indentation |
| FileRoundTrip.LiteralReadsBack | project/ocudu/external/CLI/CLI11.hpp:10413-10509 | after unquoting, a printed multi-line literal gives the argument back if and only if it has that shape and does not look quoted |
| FileRoundTrip.PrintedListReadsBack | project/ocudu/external/CLI/CLI11.hpp:10136-10221 | every non-empty list of byte strings printed into a file before any other lines is read back if and only if its literal survives and does not look quoted or, on one line, no argument that needs binary escaping holds a literal code or has a quote inside |
| CheckedMultiply.Multiply | project/ocudu/external/CLI/CLI11.hpp:4022-4049 | for every integer type: succeeds if and only if the product is representable, sets it, and otherwise leaves the operand; no step overflows |
| CheckedMultiply.OverflowExact | project/ocudu/external/CLI/CLI11.hpp:4022-4033 | the truncating division decides overflow exactly, for both signs |
| Options.CliOption.RunCallback | project/ocudu/external/CLI/CLI11.hpp:6023-6047 | keeps "reduced implies the reduction of the results", with a callback sends the reduced list exactly once if new results are accepted and can be reduced and nothing otherwise, and succeeds if and only if that holds and the callback converts the list |
| Options.TrimmingPolicies | project/ocudu/external/CLI/CLI11.hpp:6295-6371 | the list sent is the suffix, prefix or reversed suffix of length min(max(items, 1), n), a lone `{}` marked |
| Options.KeptCount | project/ocudu/external/CLI/CLI11.hpp:6305-6327 | how many results a trimming policy keeps, in terms of the sizes |
| Options.ThrowPolicy | project/ocudu/external/CLI/CLI11.hpp:6337-6362 | without a policy the results are sent if and only if their number fits, or they are an empty container where one value is expected |
| Options.JoinPolicy | project/ocudu/external/CLI/CLI11.hpp:6329-6333 | several results become one text, joined with the delimiter or else with line breaks |
| Options.SumPolicy | project/ocudu/external/CLI/CLI11.hpp:6334-6336 | the results become their sum |
| Options.GetItemsExpectedMax | project/ocudu/external/CLI/CLI11.hpp:5528-5531 | the product of the sizes, or the vector limit where it does not fit |
| Precedence.FirstWriterWins | project/ocudu/external/CLI/CLI11.hpp:9248-9373 | after a list of items an option keeps what it had, or has what the first item naming it adds |
| Precedence.CommandLineThenFilesThenEnvironment | project/ocudu/external/CLI/CLI11.hpp:9134-9155 | for every parse that does not throw and every option: command line, then files in reading order, then environment |
| Precedence.LastGivenFileWins | project/ocudu/external/CLI/CLI11.hpp:8902-8936 | an option not on the command line takes the first value in the last-given file that has one |
| Precedence.EarlierFilesIgnored | project/ocudu/external/CLI/CLI11.hpp:6313-6321 | files before the last `max(items, 1)` never contribute |
| Precedence.App.ProcessAll | project/ocudu/external/CLI/CLI11.hpp:9134-9149 | the stateful processing equals the precedence functions |
| Contributions.FirstNamerDecides | project/ocudu/external/CLI/CLI11.hpp:9255-9372 | an empty option that expects values holds exactly the inputs of the first item that names it if they are accepted, and otherwise reading throws |
| Contributions.InputsStored | project/ocudu/external/CLI/CLI11.hpp:9368-9369 | for an option that expects values the inputs are stored, or their pieces between delimiters, or the parse ends where they are not accepted |
| Contributions.NoInputsStored | project/ocudu/external/CLI/CLI11.hpp:9368-9369 | without inputs the option takes its default where the callback is forced |
| Contributions.FlagStored | project/ocudu/external/CLI/CLI11.hpp:9312-9335 | a flag with at most one input takes the text of its flag value or the parse ends |
| Contributions.FlagInputsStored | project/ocudu/external/CLI/CLI11.hpp:9336-9366 | a flag with more inputs than it takes is an error unless it takes one, overriding is disabled, and every input is a known flag value; then all are stored |
| Contributions.FlagTakesInputs | project/ocudu/external/CLI/CLI11.hpp:9336-9369 | a flag with several inputs that it can take is treated like an option that expects values |
| Contributions.ThrowsIffFaulty | project/ocudu/external/CLI/CLI11.hpp:9248-9372 | reading a list of items throws if and only if one is unknown where that is an error, not configurable, or gives an option that is still empty something that is refused |
| Contributions.NonEmptyPiecesAre | project/ocudu/external/CLI/CLI11.hpp:6406-6412 | a delimited argument is stored as the pieces between the delimiters without the empty ones |
| Contributions.VectorIsStored | project/ocudu/external/CLI/CLI11.hpp:6395-6405 | an argument in brackets is stored as its parts between commas |
| Contributions.ConfigFileRequired | project/ocudu/external/CLI/CLI11.hpp:8902-8925 | a missing file ends the parse if and only if a file is required or was named on the command line; no name at all only if required |
| Contributions.NamedOtherwise | project/ocudu/external/CLI/CLI11.hpp:8902-8914 | without a file on the command line the environment names it, or else the default |
| Contributions.EnvironmentStored | project/ocudu/external/CLI/CLI11.hpp:8938-8950 | an option that is empty after the files takes the text of its variable if that is accepted |
| Exclusions.App.Exclude | project/ocudu/external/CLI/CLI11.hpp:7321-7334 | adds the link in both directions, keeps the relation symmetric and irreflexive, refuses null and self |
| Exclusions.App.RemoveExcludes | project/ocudu/external/CLI/CLI11.hpp:8523-8532 | the mutual recursion terminates, removes exactly the link in both directions, keeps the relation consistent |
| Exclusions.App.RemoveSubcommand | project/ocudu/external/CLI/CLI11.hpp:8238-8253 | erases the first occurrence and unlinks exactly the siblings; the rest is consistent if and only if only siblings were excluded |
| Exclusions.App.Unlink | project/ocudu/external/CLI/CLI11.hpp:8240-8243 | unlinks the subcommand from every sibling and leaves every other link |
| Requirements.ProcessRequirements | project/ocudu/external/CLI/CLI11.hpp:9006-9132 | the loops over exclusions, needs, options and subcommands, with the recursion, accept exactly what the recursive specification accepts |
| Requirements.AcceptsIffVisitedMeet | project/ocudu/external/CLI/CLI11.hpp:9006-9132 | for every tree of apps, no exception is thrown if and only if every app visited meets its own requirements |
| Requirements.RefusedIffReason | project/ocudu/external/CLI/CLI11.hpp:9006-9132 | an exception is thrown if and only if some visited app has one of nine reasons, each in terms of counts |
| Requirements.GoesOnTo | project/ocudu/external/CLI/CLI11.hpp:9107-9126 | the check goes on to exactly the enabled subcommands that were called, and the option groups that are not spared |
| Requirements.UsedIffGiven | project/ocudu/external/CLI/CLI11.hpp:8317-8329 | an app is used if and only if some node of its tree was given an option or is named and was called |
| Requirements.ExclusionEnforced | project/ocudu/external/CLI/CLI11.hpp:9016-9028 | with a symmetric relation, of two used apps that exclude each other an accepted parse has visited neither |
| Requirements.ParsedPairRefused | project/ocudu/external/CLI/CLI11.hpp:9016-9130 | two named subcommands that were both called are refused if they exclude each other |
| Requirements.UsedPairRefused | project/ocudu/external/CLI/CLI11.hpp:9016-9130 | two used apps that exclude each other, one of them an enabled and parsed subcommand, are refused |
| Requirements.UnparsedPairAccepted | project/ocudu/external/CLI/CLI11.hpp:9124-9126 | two used subcommands that exclude each other are accepted when neither was parsed |
| Derivation.DeriveSlices | project/ocudu/apps/gnb/gnb.cpp:206-225 | old slices first, then each new cell slice once; fails exactly on an invalid differentiator |
| Derivation.SlicesServed | project/ocudu/apps/gnb/gnb.cpp:206-225 | every slice of every cell is served, nothing is added twice, and what is added keeps the order of first use |
| Derivation.ValidIff24Bits | project/ocudu/apps/gnb/gnb.cpp:211 | the derivation fails exactly where a differentiator exceeds 24 bits |
| Derivation.DeriveTas | project/ocudu/apps/gnb/gnb_appconfig_cli11_schema.cpp:97-117 | one tracking area per cell, or no change without cells |
| Derivation.CellTaOf | project/ocudu/apps/gnb/gnb_appconfig_cli11_schema.cpp:110-115 | each area has the code and the PLMN of its cell, with the default slice of service type 1 |
| Derivation.DerivePlmns | project/ocudu/apps/gnb/gnb.cpp:236-246 | the PLMNs of the tracking areas, each once in order of first use, unless configured |
| Derivation.DerivedPlmns | project/ocudu/apps/gnb/gnb.cpp:236-246 | the derived list holds every PLMN of every tracking area, once, in order of first use |
| Derivation.PlmnsDistinct | project/ocudu/apps/gnb/gnb.cpp:236-246 | derived PLMNs are those of the cells, in order, without duplicates |
| Derivation.ValidatePlmnAndTacs | project/ocudu/apps/gnb/gnb_appconfig_validators.cpp:41-81 | accepts exactly when there is no core or every cell is supported by some tracking area of some AMF |
| Derivation.SupportedIff | project/ocudu/apps/gnb/gnb_appconfig_validators.cpp:47-70 | a cell is supported if and only if one tracking area of the main or of an extra AMF has both its code and its PLMN |
| Derivation.ParseCallback | project/ocudu/apps/gnb/gnb.cpp:285-313 | after all derivations the validator accepts if and only if test mode, no core, default tracking areas, or the user's own ones support every cell |
| BackPressure.RefinesIffNoWrap | project/ocudu/external/uWebSockets/AsyncSocketData.h:33-60 | each operation acts on the visible bytes as on a plain sequence if and only if the counter does not wrap |
| BackPressure.RunRefines | project/ocudu/external/uWebSockets/AsyncSocketData.h:33-60 | every run of operations looks like the run on a plain byte sequence |
| BackPressure.CarefulCallers | project/ocudu/external/uWebSockets/AsyncSocketData.h:33-60 | a run that erases no more than is visible and stays below 31 * 2^27 visible bytes never wraps and looks like the run on a plain byte sequence |
| BackPressure.ErasedByteReturns | project/ocudu/external/uWebSockets/AsyncSocketData.h:36-43 | a concrete wrap after which an erased byte is visible again |
| BackPressure.AmortisedCost | project/ocudu/external/uWebSockets/AsyncSocketData.h:36-43 | over every run at most 31 bytes are moved per byte erased |
| BackPressure.Buffer.Erase | project/ocudu/external/uWebSockets/AsyncSocketData.h:36-43 | the lazy removal, with 32-bit arithmetic, as a step of the queue; it drops the bytes from the view if and only if the counter does not wrap |
| Handles.UniqueFate | project/ocudu/external/Backward/backward.hpp:547-620 | at every point of every run a resource has exactly one fate: one owner, released once or deleted once |
| Handles.NothingLeaks | project/ocudu/external/Backward/backward.hpp:548-553 | once all handles are gone every acquired resource was deleted or released exactly once |
| Handles.StepMeans | project/ocudu/external/Backward/backward.hpp:553-612 | what construction, moves, reset, release and destruction do to the owner of a resource, handle by handle |
| Handles.Handle.Reset | project/ocudu/external/Backward/backward.hpp:586-590 | the new value is held and exactly the old resource, if owned, is deleted |
| Handles.Handle.Swap | project/ocudu/external/Backward/backward.hpp:614-620 | both fields are exchanged, also with itself |
| Separated.SplitSourcePrefixes | project/ocudu/external/Backward/backward.hpp:694-708 | the loop yields the pieces between leftmost occurrences |
| Separated.FindAndReplace | project/ocudu/external/CLI/CLI11.hpp:803-813 | in-place replacement terminates for a non-empty pattern and equals cutting at the pattern and joining with the replacement |
| Separated.JoinPieces | project/ocudu/external/Backward/backward.hpp:694-708 | joining the pieces with the separator gives the text back |
| Separated.PiecesAreFree | project/ocudu/external/Backward/backward.hpp:694-708 | no piece holds the separator |
| Separated.SplitJoined | project/ocudu/external/Backward/backward.hpp:694-708 | for a one-character separator splitting undoes joining |
| Separated.PieceCount | project/ocudu/external/Backward/backward.hpp:694-708 | a one-character separator gives one piece more than it occurs |
| Separated.EmptyTextIsOnePiece | project/ocudu/external/Backward/backward.hpp:694-708 | the empty text is one empty piece |

## Left out

- Application wiring: `main`, signal handlers, logging, gateways, workers, YAML writers and schema registration.
- Header and line tokenising in `from_config` (comments, quoted names, `configSection`, blank space before a name): headers and names arrive as paths, values as the text behind `=`.
- SectionNesting.WellNestedIffTidy: value lines named `++` or `--` are excluded, because the consumer of the items takes them for events (`ValueTakenForClose`); the generator itself is modelled with them.
- SectionNesting.WellNestedWithoutDefault: the same exclusion.
- IniRoundTrip.PrintThenRead: covers values on one line; FileRoundTrip.PrintedListReadsBack adds the multi-line literals.
- Custom quote, bracket and separator characters of `ConfigBase`: the defaults are used.
- Transforming validators, `default_val`, changing the policy in mid-parse, and callbacks triggered while parsing.
- `App::_parse_arg`, positionals and subcommand fallthrough; the command line enters as the values it produced.
- Requirements.ProcessRequirements: the order of the checks, which only decides the text of the exception.
- `App::needs` and its links, which are one-way; `Requirements` takes them as given.
- Unit hooks between the derivations, taken as the identity, and the NG-U socket address copied by the CU-UP derivation.
- `handle::update` and `handle::operator&`, which bypass ownership on purpose, and the rest of Backward.
- The moved-from side of `BackPressure` and `reserve`, which changes no content.
- `BloomFilter` and the help and formatting code of CLI11: only easy members.
