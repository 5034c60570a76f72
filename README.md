# Steam screenshot categoriser, modelled in Dafny

When Steam saves an uncompressed screenshot it puts every `.png` into a single folder, named
`<appId>_<anything>.png`. The repository holds two versions of one batch tool that sorts those
files into a folder per game: the original C++ program (`main.cc`) and its C# port
(`csharp_ver/csharp_ver/Program.cs`). Both run the same five stages:

1. **Scan.** The folder tree is scanned for `.png` files whose name starts with a numeric
   app id followed by `_`.
2. **Read the cache.** `dumpapptitle.txt` holds lines of the form `id,title`.
3. **Resolve.** Every id the cache lacks is looked up on its store page. The page title is cut
   out between `<title>` and ` on Steam</title>`. A leading `Save N% on ` is removed, and so
   are the characters `/ : * ? " < > |`.
4. **Rewrite the cache.**
5. **Categorise.** The moves that put each screenshot into `<dir>/<title>/` are planned.

The model covers these stages as Dafny modules:

- `Text`: the string primitives the programs use.
  - `find`, `find_first_of`, `find_first_not_of` and `IndexOf`.
  - Digit strings.
  - `std::getline` lines.
  - ASCII lower-casing.
- `Title`: the two fixed rewrites of a scraped title and the two title markers. The rewrites
  are the same in both programs.
- `Records`: the values passed between stages, and the scan loop both programs share: keep
  the record of every entry a filter accepts.
- `Resolve`: the resolution loop. It is shared by both programs and generic in the id type.
  The store lookup is an abstract function returning `Found`, `NotFound` or `Fault`. `Fault`
  is an exception, and it ends the run.
- `Ordering`: the order of `std::string` keys in a `std::map`.
- `Cache`: loading `(id, title)` pairs into a map. A later pair for the same id wins.
- `MainCc`: the C++ program.
  - `size_t` arithmetic is written out. `npos + 1` wraps to 0. When the closing marker comes
    first, `x2 - x1` wraps around to a huge length, so the slice runs to the end of the text.
  - `.c_str()` cuts the text at a NUL.
  - `std::filesystem::path` comparison is modelled.
- `ProgramCs`: the C# program.
  - `int` ids.
  - `int.TryParse`, `String.Split` and `FileInfo.Extension`.
  - `File.ReadAllLines`.
  - A `Substring` or `int.Parse` throw, and how it is caught.
  - The unordered `Dictionary` writer.
  - Case-insensitive path comparison.
- `Versions`: where the two programs agree and where they part.

The character class `[\/:*?"<>|]` can be misread as removing the backslash too. In both
programs it holds `\/`, which is an escaped slash, so the backslash is kept (`Title.Invalid`,
`Title.RemoveInvalidKeepsValid`). The model follows the code.

The model turns side effects into data:

- **Directory walks** are parameters: a sequence of `DirEntry` records.
- **File contents** are `Option<string>` parameters. `None` means the file cannot be opened.
- **The store request** is a parameter `fetch`:
  - for C++, the text the `wget | grep` pipe prints;
  - for C#, the page, or `None` when `GetStringAsync` throws.
- **`Path.GetFullPath`** is a parameter `full`, and **`Environment.NewLine`** is a parameter
  `nl`.
- **The cache that is written** is returned as text.
- **Renames** are returned as a list of `Move`s.

## Model

| member | source | states |
|---|---|---|
| Title.StripDiscount | main.cc:73-77 | the result is the title unchanged, or the title minus one leading match of `Save [0-9]+% on ` |
| Title.StripDiscountRemovesPrefix | main.cc:75-76 | a title that starts with a discount prefix loses exactly that prefix |
| Title.StripDiscountChangesIff | main.cc:75-76 | the rewrite changes a title if and only if some prefix of it matches the pattern |
| Title.StripDiscountOnlyOnce | main.cc:75-76 | the pattern is anchored: a second discount prefix behind the first stays |
| Title.RemoveInvalid | main.cc:85-88 | none of the eight invalid characters (slash, colon, star, question mark, double quote, angle brackets, bar) is left; a title without any is unchanged |
| Title.RemoveInvalidAppend | main.cc:86-87 | removal works character by character, so surviving characters keep their order |
| Title.RemoveInvalidKeepsValid | main.cc:86-87 | every other character, the backslash included, survives as often as it occurred |
| Title.RemoveInvalidIdempotent | main.cc:86-87 | removing twice is removing once |
| Title.Normalize | csharp_ver/csharp_ver/Program.cs:219-225 | a normalised title holds no invalid character |
| Title.NormalizeExample | main.cc:79-88 | `Save 50% on XCOM: ENEMY UNKNOWN` becomes `XCOM ENEMY UNKNOWN` |
| Title.MarkersApart | main.cc:66-67 | `<title>` and ` on Steam</title>` cannot overlap: the closing marker starts before the opening one or at least 7 characters after it |
| Text.LinesCons | main.cc:164 | `getline` reads a line ended by a newline as that line, then the rest |
| MainCc.IsInteger | main.cc:101-104 | `isInteger` holds exactly for a non-empty string of ASCII digits |
| MainCc.Extension | main.cc:117 | `path::extension()` is the suffix of the file name from its last dot, and it is empty exactly when the name is `.` or `..` or has no dot after its first character |
| MainCc.PngExtension | main.cc:117 | the extension is `.png` exactly when the name ends in `.png` after at least one character |
| MainCc.AcceptSound | main.cc:113-143 | an accepted entry is a regular file named `<digits>_<anything>.png`, and its record has that id, path and name |
| MainCc.AcceptComplete | main.cc:113-143 | every regular file named `<digits>_<anything>.png` is accepted with that id |
| MainCc.ScannedSpec | main.cc:111-144 | a record is in the scan exactly when some walked entry is accepted as it |
| Records.Collect | main.cc:106-145 | the scan loop clears the list, then appends the record of every accepted entry, in walk order; the C# `CollectPngFiles` runs the same loop |
| MainCc.SizeT | main.cc:70-71 | `size_t` results wrap modulo 2^64 |
| MainCc.Substr | main.cc:71 | `substr(pos, count)` gives at most `count` characters from `pos` |
| MainCc.CStr | main.cc:71 | `.c_str()` gives the text before the first NUL |
| MainCc.TitleFoundIff | main.cc:64-98 | a title is found exactly when the fetch ran and the output holds both markers; otherwise the result is untouched |
| MainCc.TitleSliceBetween | main.cc:70-71 | with the markers in order, the slice is the text between them |
| MainCc.TitleSliceLate | main.cc:70-71 | with the closing marker first, the length wraps and the slice runs to the end of the output |
| MainCc.TitleBetweenMarkers | main.cc:66-88 | with `<title>` first, the title is the normalised text between the first `<title>` and the first ` on Steam</title>`, cut at a NUL |
| MainCc.TitleAfterLateOpen | main.cc:66-88 | with ` on Steam</title>` first, the title is the normalised text after `<title>` |
| MainCc.ParseLineNoComma | main.cc:166-168 | a line with no comma makes both id and title the whole line |
| MainCc.ParseDumpLine | main.cc:166-168 | a written `id,title` line is split back into `id` and `title`; the title may hold commas |
| MainCc.LoadStep | main.cc:164-170 | each line stores its pair over what the earlier lines left |
| Cache.AssignLastWins | main.cc:169 | the last line naming an id decides its title |
| Cache.AssignUntouched | main.cc:169 | an id no line names keeps its earlier title |
| MainCc.ReadDump | main.cc:154-177 | an unreadable file leaves the map alone; otherwise every line is stored in file order |
| Ordering.LexTotal | main.cc:188 | `std::string` order is total on different strings |
| Ordering.LexTransitive | main.cc:188 | `std::string` order is transitive |
| Ordering.SortedKeysSpec | main.cc:188 | a `std::map` visits every key once, in strictly increasing order |
| MainCc.RenderAppend | main.cc:188-191 | writing one more key appends its `id,title` line and a newline |
| MainCc.WriteDump | main.cc:179-198 | the file is one `id,title` line per key, in increasing key order |
| MainCc.LinesOfRender | main.cc:164-191 | the lines of the written file parse back to the written pairs, in order |
| MainCc.DumpRoundTrip | main.cc:164-191 | when ids hold no comma or newline and titles no newline, reading back the written file gives the same map |
| Resolve.PendingSpec | main.cc:229-248 | the ids looked up are distinct, none was cached, and every uncached scanned id is among them |
| Resolve.ResolveTitles | main.cc:229-248 | the loop looks up exactly the pending ids in scan order, stopping at the first that throws; the map is the cache plus the titles found |
| Resolve.ResolvedCache | main.cc:229-248 | a cached id is never looked up and keeps its title; a new entry exists only for a lookup that found it |
| MainCc.SamePathDoubleSlash | main.cc:267-273 | paths that differ only by a doubled separator compare equal |
| MainCc.TrailingSeparatorDir | main.cc:267-273 | with a folder argument ending in `/`, the target still equals the walked path of a file already in place |
| MainCc.Categorize | main.cc:256-283 | the loop reports unknown ids and plans the moves in scan order |
| MainCc.PlannedMovesSpec | main.cc:256-283 | a move is planned exactly for a file with a known id not already at `<dir>/<title>/<name>`, and it goes there |
| MainCc.UnknownPathsSpec | main.cc:259-263 | a path is reported exactly when the file there has an id without a title |
| MainCc.CategorizeIdempotent | main.cc:256-283 | after the moves, categorising again with the same titles plans none |
| MainCc.RunMain | main.cc:205-288 | a run scans, loads the cache, resolves the uncached ids, writes the cache in key order, then plans the moves |
| ProgramCs.FormatInt | csharp_ver/csharp_ver/Program.cs:241 | a formatted `int` holds no comma and no line break |
| ProgramCs.ParseFormat | csharp_ver/csharp_ver/Program.cs:186 | `int.Parse` of a formatted `int` gives it back |
| ProgramCs.ParseLeadingZero | csharp_ver/csharp_ver/Program.cs:150 | a leading zero does not change the parsed id |
| ProgramCs.Extension | csharp_ver/csharp_ver/Program.cs:141 | `FileInfo.Extension` is the suffix of the name from its last dot, and it is empty exactly when the name has no dot |
| ProgramCs.PngExtension | csharp_ver/csharp_ver/Program.cs:141 | the extension is `.png` exactly when the name ends in `.png` |
| ProgramCs.JoinSplit | csharp_ver/csharp_ver/Program.cs:143 | joining the pieces of `Split("_")` gives the name back |
| ProgramCs.SplitPieces | csharp_ver/csharp_ver/Program.cs:143-147 | no piece holds `_`, and there are several pieces exactly when the name holds `_` |
| ProgramCs.SplitFirst | csharp_ver/csharp_ver/Program.cs:148 | the first piece is the text before the first `_` |
| ProgramCs.AcceptSound | csharp_ver/csharp_ver/Program.cs:140-156 | an accepted file ends in `.png` and holds `_`, and the text before the first `_` parses to its id |
| ProgramCs.AcceptComplete | csharp_ver/csharp_ver/Program.cs:140-156 | a `.png` whose text before the first `_` parses is accepted with that id, path and name |
| ProgramCs.ScannedSpec | csharp_ver/csharp_ver/Program.cs:136-157 | a record is in the scan exactly when some listed file is accepted as it |
| ProgramCs.TitleFound | csharp_ver/csharp_ver/Program.cs:205-227 | a title is returned exactly when `<title>` comes first, and it is the normalised text between the markers |
| ProgramCs.TitleFault | csharp_ver/csharp_ver/Program.cs:211-217 | a fetched page throws exactly when both markers occur and the closing one comes first |
| ProgramCs.TitleNotFound | csharp_ver/csharp_ver/Program.cs:206-227 | a fetched page gives `null` exactly when it is empty or lacks `<title>` or ` on Steam</title>` |
| ProgramCs.ReadAllLinesCons | csharp_ver/csharp_ver/Program.cs:182 | `ReadAllLines` reads a line ended by `\n` or `\r\n` as that line, then the rest |
| ProgramCs.ParseDumpLineOf | csharp_ver/csharp_ver/Program.cs:185-187 | a written `{0},{1}` line is read back as its pair |
| ProgramCs.GoodCount | csharp_ver/csharp_ver/Program.cs:180-195 | every line before the count parses, and the line at the count does not |
| ProgramCs.GoodCountAt | csharp_ver/csharp_ver/Program.cs:180-195 | the count stops at the first line that throws |
| ProgramCs.LoadDumpStops | csharp_ver/csharp_ver/Program.cs:180-195 | nothing after the first line without a comma or with a bad id is read; the entries before it stay |
| ProgramCs.ReadAppTitleDump | csharp_ver/csharp_ver/Program.cs:175-196 | an unreadable file leaves the dictionary alone; otherwise the lines up to the first bad one are stored in order |
| ProgramCs.TerminatedAppend | csharp_ver/csharp_ver/Program.cs:241 | one more `WriteLine` appends its line and the newline |
| ProgramCs.ReadAllLinesTerminated | csharp_ver/csharp_ver/Program.cs:182 | lines without line breaks, written with either newline, are read back unchanged |
| ProgramCs.RenderAppend | csharp_ver/csharp_ver/Program.cs:237-242 | writing one more entry appends its line |
| ProgramCs.WriteAppTitleDump | csharp_ver/csharp_ver/Program.cs:230-245 | the file holds one `{0},{1}` line per entry, in the key order it returns, which lists every key exactly once |
| ProgramCs.LinesOfRender | csharp_ver/csharp_ver/Program.cs:182-183 | the lines read from the written file are the written lines |
| ProgramCs.PairsOfDumpLines | csharp_ver/csharp_ver/Program.cs:185-187 | every written line parses back to its pair |
| ProgramCs.DumpRoundTrip | csharp_ver/csharp_ver/Program.cs:175-245 | when no title holds a line break, reading back the written file gives the same dictionary, whatever the write order |
| ProgramCs.Categorize | csharp_ver/csharp_ver/Program.cs:81-102 | the loop reports unknown ids by file name, plans the moves in scan order, and `numMoved` counts them |
| ProgramCs.PlannedMovesSpec | csharp_ver/csharp_ver/Program.cs:90-100 | a move is planned exactly for a known id whose lower-cased path differs from the lower-cased full target |
| ProgramCs.UnknownNamesSpec | csharp_ver/csharp_ver/Program.cs:84-88 | a name is reported exactly when its file has an id without a title |
| ProgramCs.CategorizeIdempotent | csharp_ver/csharp_ver/Program.cs:81-102 | after the moves, categorising again with the same titles plans none |
| ProgramCs.Process | csharp_ver/csharp_ver/Program.cs:42-102 | a run throws exactly when some pending id's lookup throws, and then nothing is written; otherwise it writes every title and plans the moves |
| ProgramCs.RunMain | csharp_ver/csharp_ver/Program.cs:25-103 | no input or a missing folder ends the run before anything is done |
| Versions.ParseDigits | csharp_ver/csharp_ver/Program.cs:150 | an unsigned digit string parses to its value if it fits in an `int`, and fails otherwise |
| Versions.CppIdIsFirstPiece | main.cc:123-138 | the C++ id is the text before the first `_` of the name, which is the C# first piece |
| Versions.ScansAgree | csharp_ver/csharp_ver/Program.cs:141-156 | a file the C++ scan accepts is accepted by the C# scan with the same id as a number, if it fits in an `int` |
| Versions.WideIdRefused | csharp_ver/csharp_ver/Program.cs:150 | an id too large for an `int` is refused by the C# scan where the C++ scan keeps it |
| Versions.TitlesAgree | csharp_ver/csharp_ver/Program.cs:211-225 | with `<title>` first and no NUL, both programs give the same title |
| Versions.LateOpenDiffers | csharp_ver/csharp_ver/Program.cs:216-217 | with the closing marker first, C++ takes the rest of the page while C# throws |

## Left out

- **Directory walking.** The walk is the parameter `entries` or `walk`. This covers
  `recursive_directory_iterator`, the C# stack walk, its caught access exceptions, and the
  order of either walk. A missing or unreadable folder makes `recursive_directory_iterator`
  throw, and nothing in `main.cc` catches it, so the C++ run ends before the cache is read.
  `MainCc.RunMain` has no outcome for this case.
- **The store fetch.** The `popen`/`wget | grep` pipe and `HttpClient` are the parameter
  `fetch`. The C++ `fgets` loop is part of that parameter, including how it drops text after
  a NUL in each 1024-byte chunk.
- **File system effects.** Opening, reading, writing and truncating files is not modelled.
  Neither are `create_directories`, `Directory.CreateDirectory`, `rename` and `File.Move`, or
  their failures. The model returns the file text and the planned moves instead.
- **`snprintf` truncation.** The 1024-byte buffers for the command, the cache path and the
  target path can truncate. The model takes the formatted strings at full length.
- **Console output.** The prompt, the messages and `printHelp` are not modelled. The C++
  argument-count check is left out; `RunMain` starts with the folder argument in hand.
- **Text encoding.** Strings are sequences of characters. There is no encoding, byte-order
  mark or culture handling.
- ProgramCs.ParseInt: accepts an optional `+` or `-` and ASCII digits within the `int` range.
  It does not model the leading and trailing whitespace that `int.TryParse` and `int.Parse`
  also accept.
- Text.Lower: lower-cases ASCII letters only, where `String.ToLower` follows the current
  culture.
- Text.Find: compares ordinally, where `String.IndexOf(string)` compares with the current
  culture.
- ProgramCs.Categorize: `numMoved` is an unbounded integer. The C# `int` counter could only
  overflow after 2^31 moves.
- ProgramCs.WriteAppTitleDump: the `Dictionary` enumeration order is taken as arbitrary. The
  method only promises that each key appears once. The round trip holds for every order.
- MainCc.SamePath: models `path::operator!=` for POSIX paths only. It compares the root
  directory, the trailing separator and the names between separators. Like the source's
  `path::operator!=`, it does not resolve `.` or `..`.
- MainCc.DumpRoundTrip and ProgramCs.DumpRoundTrip require titles without line breaks. With a
  line break the programs themselves cannot read their cache back. The C++ round trip also
  requires ids without a comma or newline, which every scanned id satisfies since it is all
  digits.
