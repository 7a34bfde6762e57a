# FreeDict dictionary toolkit: a verified model

The toolkit is a PHP (Symfony/Doctrine) application built around the FreeDict
dictionaries. It loads the FreeDict catalogue into catalogue rows and reads
StarDict dictionaries (`.ifo`, `.idx`, `.dict`). It imports TEI dictionaries
into a lexical graph of languages, lemmas, senses and translation edges. Text
is translated word by word from StarDict files or from that graph, with a
small rule layer for English-to-Spanish articles. This Dafny project models
that core and proves what it promises. Each source file becomes one module:

| module | file | models |
|---|---|---|
| `Wrappers` | wrappers.dfy | `Option` (PHP null) and `Result` (a thrown exception is `Failure`) |
| `ByteCodec` | byte_codec.dfy | `unpack('N'/'V')` on padded fields, `strrev`, `bin2hex` + `strtoupper` |
| `Utf8` | utf8.dfy | UTF-8 encoding and strict decoding (`mb_check_encoding`), ISO-8859-1 reinterpretation |
| `Text` | text.dfy | `trim`, `mb_strtolower`, `strtolower`, `strip_tags`, `\s+` collapsing, control removal, `mb_substr`, the `\p{L}+` split, `strcmp` |
| `Json` | json.dfy | the decoded catalogue JSON and PHP's `?? null`, `(string)`, `(int)`, `is_numeric`, truthiness |
| `CatalogWorkflow` | workflow.dfy | the catalogue workflow: places `new`, `downloaded`, `processed`; transitions `download`, `process` |
| `FreeDictService` | freedict_service.dfy | release choice, `.ifo` parsing, the `.idx` decoder, `chooseEndian`, `readSlice`, `previewText`, `hexDump`, the gzip sibling rules, `starDictFirstRecord`, over a class holding the file tree |
| `FreeDictCatalog` | catalog.dfy | the `app:load` command: items upserted into catalogue rows keyed by name |
| `LexicalGraph` | graph.dfy | the graph entities with their unique keys; `LanguageRepository::getOrCreate`, `LemmaRepository::upsert` and `normalize`, over a `Store` class |
| `StarDictLookup` | stardict_lookup.dfy | the per-pair caches, `buildIndexMap`, `cleanVal`, `lookup`, `translateToken`, `translateWordByWord` |
| `DbLookup` | db_lookup.dfy | `requireLang`, the lemma and translation queries, `lookupOne`, `translateToken`, `translateWordByWord` over the graph |
| `RuleTranslator` | rule_translator.dfy | `translate` in rules mode and `guessGenderNumberEs` |
| `TeiImport` | tei_import.dfy | `importTei`: pair check, languages, dictionary row, TEI URL, truncate, then the entry loop |
| `FreedictExplore` | explore.dfy | `findLanguagePair`, `findBestFormat`, the dispatch of `extractArchive` and `examineFile`, `findDictionaryFiles` |

Code that updates state step by step is imperative Dafny, proved against a
function that specifies it:

- the file tree of `FreeDictService` is a class; decompression writes a
  sibling file into it, and each method that may write is proved to return
  and leave behind what a function on the tree as a value (`Tree`) gives;
- `StarDictLookup`'s caches are `map` fields of a class;
- the Doctrine store is the `LexicalGraph.Store` class;
- `CatalogRepository` holds the catalogue rows;
- the index decoders, `hexDump`, the item and entry loops and the
  word-by-word loops are methods with loop invariants.

The pure rules are functions, and lemmas state the properties about them.

Some behaviour of the code is kept as written, not as the names suggest:

- `readIndexEntries` stops a headword at 4001 bytes without consuming its
  terminator. The following bytes are then read as the offset
  (`FreeDictService.OverlongHeadwordSpills`).
- For fields shorter than their width, the little-endian hex strings spell
  the reversed raw bytes. The little-endian values read the zero-padded
  field instead.
- `previewText` keeps control characters when the bytes are not valid UTF-8.
  The `/u` replacement fails and the input is kept
  (`FreeDictService.PreviewKeepsControlsOfInvalidUtf8`).
- `cleanVal` collapses white space before trimming, while `previewText` trims
  first. A leading no-break space therefore disappears from one and survives
  as a space in the other (`StarDictLookup.CleanValDropsNoBreakSpace`,
  `StarDictLookup.PreviewKeepsNoBreakSpace`).
- `importTei` sets the dictionary's edition and release version from
  `$catalogItem`, a variable it never defines. Both are therefore always null
  (`TeiImport.RegisterKeeps`).
- In `importTei`, a limit only stops the entry loop through `$count`, and
  `$count` only advances when there is a progress callback. A null or zero
  limit never stops it. A negative limit stops it after the first imported
  entry (`TeiImport.RunNegativeLimit`).

## Model

| member | source | states |
|---|---|---|
| ByteCodec.Field | src/Service/FreeDictService.php:293-296 | a field is the bytes read, zero-padded on the right up to its width, or cut to the width |
| ByteCodec.Reverse | src/Service/FreeDictService.php:244-245 | `strrev`: same length, byte i is byte n-1-i of the input |
| ByteCodec.BEBound | src/Service/FreeDictService.php:293-296 | an n-byte big-endian field holds a value below 256^n |
| ByteCodec.BEAppend | src/Service/FreeDictService.php:295 | a big-endian value splits into high bytes times 256^k plus the low k bytes, as the 64-bit reader combines its two words |
| ByteCodec.LEAppend | src/Service/FreeDictService.php:296 | a little-endian value is its low bytes plus 256^k times its high bytes |
| ByteCodec.LEIsBEOfReverse | src/Service/FreeDictService.php:294 | reading little-endian is reading the reversed bytes big-endian |
| ByteCodec.UInt64IsWideField | src/Service/FreeDictService.php:295-296 | combining two 32-bit words as `hi * 4294967296 + lo` is reading the whole 8-byte field, in both byte orders |
| ByteCodec.LittleEndianIsReversedBigEndian | src/Service/FreeDictService.php:293-296 | the LE readers equal the BE readers on the byte-reversed padded field; on full-width fields, on the reversed raw bytes |
| ByteCodec.DecodedRanges | src/Service/FreeDictService.php:293-296 | the 32-bit readers return values below 2^32 and the 64-bit readers values below 2^64 |
| ByteCodec.EncodeBE | src/Service/FreeDictService.php:293-296 | the n-byte big-endian writer, the inverse used to state round trips, produces exactly n bytes |
| ByteCodec.EncodeBERoundTrip | src/Service/FreeDictService.php:293-296 | decoding the big-endian encoding of any value below 256^n gives the value back |
| ByteCodec.Hex | src/Service/FreeDictService.php:242-245 | `strtoupper(bin2hex(...))` spells two characters per byte |
| ByteCodec.HexSpellsBigEndian | src/Service/FreeDictService.php:242-243 | the hex string uses only 0-9 and A-F and, read as a hexadecimal numeral, is the big-endian value of the bytes |
| Utf8.EncodeChar | src/Service/FreeDictService.php:276 | a character encodes to one to four bytes |
| Utf8.DecodeFirst | src/Service/FreeDictService.php:276 | decoding the first character consumes between one byte and the whole input |
| Utf8.Latin1 | src/Service/FreeDictService.php:277 | the ISO-8859-1 reinterpretation maps each byte to the character with that code |
| Utf8.DecodeFirstOfEncoding | src/Service/FreeDictService.php:276 | the first character of an encoding decodes back with the encoding's length, whatever follows |
| Utf8.DecodeEncode | src/Service/FreeDictService.php:276 | every text is valid UTF-8 once encoded, and strict decoding gives it back |
| Utf8.EncodeHasNoNul | src/Service/StarDictLookup.php:194-201 | text without NUL encodes to bytes without a NUL, so a headword of text never ends early at a terminator |
| Text.IndexOf | src/Service/FreeDictService.php:168-172 | the position of the first occurrence of a character, or the length when it does not occur: where a line ends and where `explode('=', $line, 2)` splits |
| Text.IndexOfJoin | src/Command/LoadFreeDictCatalogCommand.php:48 | the first separator after a separator-free head is right after the head, so the split recovers the head |
| Text.LastIndexOf | src/Command/FreedictExploreCommand.php:277-278 | the position of the last occurrence of a character, or -1: `dirname`/`basename` cut at the last `/`, the extension starts after the last `.` |
| Text.Lower | src/Service/StarDictLookup.php:90 | `mb_strtolower` keeps the length and lower-cases each character on its own, by the reduced case tables (ASCII, Latin-1, basic Greek, Cyrillic) |
| Text.AsciiLower | src/Command/FreedictExploreCommand.php:375-376 | `strtolower` changes only ASCII capitals |
| Text.StripMarks | src/Repository/LemmaRepository.php:46-49 | removing nonspacing marks leaves none and never lengthens the text |
| Text.TrimLeft | src/Service/TeiImportService.php:297 | the left trim is a suffix of the input, starts with a non-trimmable character, and everything cut is trimmable |
| Text.TrimRight | src/Service/TeiImportService.php:297 | the right trim is a prefix of the input, ends with a non-trimmable character, and everything cut is trimmable |
| Text.TrimStart | src/Service/TeiImportService.php:297 | the start of `trim`'s result lies inside the input |
| Text.TrimInfix | src/Service/TeiImportService.php:297 | `trim` returns an infix of its input with non-trimmable ends; everything cut before and after is trimmable |
| Text.TrimKeepsClean | src/Service/StarDictLookup.php:135-137 | trimming cannot bring in a control character or a `<` |
| Text.DropSpaces | src/Service/StarDictLookup.php:136 | dropping leading white space leaves a suffix starting with a non-space |
| Text.CollapseSpaces | src/Service/StarDictLookup.php:136 | collapsing white space runs never lengthens the text |
| Text.CollapseSpacesCollapses | src/Service/StarDictLookup.php:136 | after the collapse only single spaces remain, and a leading space means the input started with white space |
| Text.CollapseSpacesKeepsSpaceless | src/Service/StarDictLookup.php:136 | text without white space is unchanged by the collapse |
| Text.CollapseSpacesKeepsCollapsed | src/Service/StarDictLookup.php:136 | the collapse is the identity on collapsed text, so applying it twice changes nothing |
| Text.SpacesCollapsedInfix | src/Service/FreeDictService.php:281 | cutting collapsed text (`mb_substr`) keeps it collapsed |
| Text.SkipTag | src/Service/StarDictLookup.php:135 | skipping a tag consumes at least one character of a non-empty text and leaves a suffix |
| Text.StripTags | src/Service/StarDictLookup.php:135 | `strip_tags`, reduced to opening a tag at every `<`, leaves no `<` and no NUL, and never lengthens the text |
| Text.StripTagsKeepsPlainText | src/Service/StarDictLookup.php:135 | on text without `<`, `strip_tags` deletes exactly the NULs, so text without `<` or NUL comes back unchanged |
| Text.DropNul | src/Service/StarDictLookup.php:135 | the text with its NULs deleted holds no NUL and is no longer than the text |
| Text.StripTagsKeepsNoControls | src/Service/StarDictLookup.php:131-135 | stripping tags cannot bring back a control character |
| Text.CollapseKeepsNoControlsNoTags | src/Service/StarDictLookup.php:135-136 | collapsing white space brings in neither a control character nor a `<` |
| Text.RemoveControls | src/Service/StarDictLookup.php:131 | removing controls leaves none and never lengthens the text |
| Text.RemoveControlsKeepsClean | src/Service/StarDictLookup.php:131 | text without controls is unchanged |
| Text.TrimKeepsUntrimmed | src/Service/StarDictLookup.php:137 | text with non-trimmable ends is unchanged by `trim` |
| Text.Prefix | src/Service/FreeDictService.php:281 | `mb_substr($s, 0, $n)` is a prefix of at most n characters; a negative n drops that many from the end |
| Text.RunLength | src/Service/StarDictLookup.php:45 | the first split piece is the longest run of letters (or of non-letters) at the start |
| Text.ConcatAppend | src/Service/StarDictLookup.php:50-58 | concatenating pieces distributes over appending piece lists |
| Text.TokenizeConcat | src/Service/StarDictLookup.php:45 | the `\p{L}+` split with delimiters captured loses nothing: the pieces concatenate back to the text |
| Text.TokenizeShape | src/Service/StarDictLookup.php:45-58 | every piece is non-empty, a pure letter run or letter-free, pieces alternate kinds, and the first starts with the text's first character |
| Text.TokenizeLetterless | src/Service/StarDictLookup.php:45-58 | letter-free text splits into at most one piece, which is not a word |
| Text.TokenizeWord | src/Service/StarDictLookup.php:45 | a non-empty run of letters is a single piece |
| Text.TokenizeAccentedGreek | src/Service/StarDictLookup.php:45 | an accented Greek word (καλημέρα) is one piece, as `\p{L}+` matches it |
| Text.LexLessIrreflexive | src/Service/FreeDictService.php:50 | `strcmp` ordering: no string precedes itself |
| Text.LexLessTransitive | src/Service/FreeDictService.php:50 | `strcmp` ordering is transitive |
| Text.LexLessTotal | src/Service/FreeDictService.php:50 | `strcmp` ordering is total and asymmetric, so the date sort is well defined |
| Json.NatToString | src/Service/FreeDictService.php:53-56 | `(string)` of a natural number is a digit string without a leading zero |
| Json.NatToStringValue | src/Service/FreeDictService.php:53-56 | the digits `(string)` writes read back as the number |
| Json.DropNumericSpaceLeft | src/Service/FreeDictService.php:57 | the leading white space `is_numeric` allows is cut off, leaving a suffix |
| Json.DropNumericSpaceRight | src/Service/FreeDictService.php:57 | the trailing white space `is_numeric` allows is cut off, leaving a prefix |
| Json.FieldIndex | src/Service/FreeDictService.php:42 | the position of the first field with the key, or the end when there is none |
| Json.GetSpec | src/Service/FreeDictService.php:42 | `$a[$k] ?? null` on an object finds a field with the key or null when none exists; on a list, the item at a decimal index; on a scalar, null |
| Json.Elements | src/Command/LoadFreeDictCatalogCommand.php:41 | `foreach` over an array yields a list's items or an object's values in order, and nothing for a scalar |
| Json.LeadingDigits | src/Service/FreeDictService.php:115 | the digits `(int)` reads: the longest digit prefix |
| Json.LeadingDigitsOfDigits | src/Service/FreeDictService.php:115 | a digit string is read whole |
| Json.IntCastRoundTrip | src/Service/FreeDictService.php:115 | `(int)(string)$i` is `$i` for every integer |
| Json.IntegerStringRoundTrip | src/Service/FreeDictService.php:57 | the string of an integer is numeric and converts back to the integer |
| Json.NumeralCoreOfUnspaced | src/Service/FreeDictService.php:57 | a numeral without surrounding white space is its own core |
| Json.ListIndexZero | src/Service/FreeDictService.php:62 | `$releases[0]` is the first item of a non-empty list, null for an empty one |
| CatalogWorkflow.TransitionTable | src/Workflow/IFreeDictCatalogWorkflow.php:21-25 | `download` is enabled exactly in `new` and leads to `downloaded`; `process` exactly in `downloaded` and leads to `processed` |
| CatalogWorkflow.ProcessedIsFinal | src/Workflow/IFreeDictCatalogWorkflow.php:21-25 | nothing leaves `processed`, and no transition leads back to `new` |
| CatalogWorkflow.ApplyMovesForward | src/Workflow/IFreeDictCatalogWorkflow.php:12-25 | every enabled transition advances the row by exactly one stage |
| CatalogWorkflow.RunMovesForward | src/Workflow/IFreeDictCatalogWorkflow.php:12-25 | a run of n transitions advances n stages, at most two in all, and never returns to its start |
| CatalogWorkflow.InitialReachesProcessed | src/Workflow/IFreeDictCatalogWorkflow.php:12-25 | from the initial place, `download` then `process` reaches `processed`, and it is the only run that does |
| CatalogWorkflow.PlaceNamesDistinct | src/Workflow/IFreeDictCatalogWorkflow.php:12-18 | the marking strings name the places one to one |
| FreeDictService.OnPlatform | src/Service/FreeDictService.php:48 | the filter keeps exactly the releases whose platform is the given one |
| FreeDictService.Dates | src/Service/FreeDictService.php:50 | the sort key of each release is its date string |
| FreeDictService.LatestIndex | src/Service/FreeDictService.php:50-51 | the chosen position lies in the list |
| FreeDictService.LatestIndexIsLatest | src/Service/FreeDictService.php:50-51 | the stable descending sort puts first a release with the greatest date, the earliest such in the list |
| FreeDictService.LatestRelease | src/Service/FreeDictService.php:50-51 | the chosen release has a date no other release exceeds, and every earlier release has a smaller date |
| FreeDictService.PickBestReleaseChoice | src/Service/FreeDictService.php:46-59 | when k is the first preferred platform with releases, the row is built from a latest-dated release on platform k |
| FreeDictService.PickBestReleaseFallback | src/Service/FreeDictService.php:61-63 | with no preferred platform present, stardict-only gives the empty row and otherwise `$releases[0]` is used |
| FreeDictService.PickBestReleaseFails | src/Service/FreeDictService.php:42-45 | `pickBestRelease` throws exactly when the item has no non-empty `releases` array |
| FreeDictService.FileLines | src/Service/FreeDictService.php:168 | `file()` with newlines dropped and empty lines skipped yields non-empty lines without newlines |
| FreeDictService.IfoEntries | src/Service/FreeDictService.php:170-173 | each line defines the entry its text gives, lines without `=` none |
| FreeDictService.IfoLastLineWins | src/Service/FreeDictService.php:170-175 | a key is defined exactly when some line defines it, and its value comes from the last line that does |
| FreeDictService.IfoKeyDefined | src/Service/FreeDictService.php:170-175 | the parsed map has a key exactly when some line defines it |
| FreeDictService.IfoValueKeepsLaterEquals | src/Service/FreeDictService.php:172-173 | a line `k=v` with `=`-free k gives the trimmed k and the trimmed v, later `=` included |
| FreeDictService.Headword | src/Service/FreeDictService.php:218-226 | a headword is at most 4001 bytes, and the bytes it consumes lie between its length and the rest of the file |
| FreeDictService.HeadwordSpec | src/Service/FreeDictService.php:218-226 | the headword is the NUL-free prefix; a headword of at most 4000 bytes ends at the file's end or consumes its NUL; a 4001-byte one consumes nothing more |
| FreeDictService.Take | src/Service/FreeDictService.php:229-233 | `fread($f, n)` returns the next min(n, remaining) bytes |
| FreeDictService.RecordAt | src/Service/FreeDictService.php:217-246 | one record consumes at least one byte and no more than the rest of the file |
| FreeDictService.RecordsShape | src/Service/FreeDictService.php:217-247 | at most `limit` records are returned, each with a non-empty, NUL-free headword of at most 4001 bytes |
| FreeDictService.RecordByteOrders | src/Service/FreeDictService.php:228-245 | LE values are BE values of the reversed padded fields; LE hex spells the reversed raw bytes; on full fields each hex string reads as its value |
| FreeDictService.HeadwordOfTerminated | src/Service/FreeDictService.php:218-226 | a NUL-terminated headword of at most 4000 bytes is read whole, its terminator consumed |
| FreeDictService.DecodeEncodedFields | src/Service/FreeDictService.php:228-236 | the 32-bit and 64-bit readers invert the big-endian writer on offsets and sizes that fit |
| FreeDictService.RecordAtEncoded | src/Service/FreeDictService.php:217-246 | an encoded index entry decodes to its headword, offset and size and consumes exactly its encoding |
| FreeDictService.ReadEncodedIndex | src/Service/FreeDictService.php:211-250 | reading an encoded index with a large enough limit returns its entries in order: decode inverts encode |
| FreeDictService.EncodedIndexStep | src/Service/FreeDictService.php:217-246 | the first record of an encoded index decodes the first entry and leaves exactly the encoding of the rest |
| FreeDictService.OverlongHeadwordSpills | src/Service/FreeDictService.php:224-245 | after a 4001-byte NUL-free headword the following bytes are read as the offset field |
| FreeDictService.ChooseEndian | src/Service/FreeDictService.php:252-260 | in bounds iff either reading fits the file; LE exactly when only LE fits; BE otherwise, clamped at zero when neither fits |
| FreeDictService.Slice | src/Service/FreeDictService.php:262-270 | the bytes at the clamped offset, at most min(size, maxLen) and what the file holds; nothing for a missing file |
| FreeDictService.SliceOfLayout | src/Service/FreeDictService.php:262-270 | reading at a payload's offset and size, within the cap, returns exactly the payload |
| FreeDictService.Recover | src/Service/FreeDictService.php:275-278 | valid UTF-8 decodes with controls removed; anything else is read as ISO-8859-1 |
| FreeDictService.PreviewTextShape | src/Service/FreeDictService.php:272-282 | no bytes give "(empty)"; otherwise at most maxChars characters, no `<` under the reduced `strip_tags`, single spaces only, and no controls when the input was valid UTF-8 |
| FreeDictService.PreviewOfCleanText | src/Service/FreeDictService.php:272-282 | text that is already clean and short enough previews as itself |
| FreeDictService.PreviewKeepsControlsOfInvalidUtf8 | src/Service/FreeDictService.php:275-278 | on invalid UTF-8 the control-character removal fails and controls survive into the preview |
| FreeDictService.PreviewDropsNulOfInvalidUtf8 | src/Service/FreeDictService.php:275-280 | a NUL that invalid UTF-8 kept past the control removal is still deleted by `strip_tags`: FF 41 00 42 previews as "ÿAB" |
| FreeDictService.SubstrPrefix | src/Service/FreeDictService.php:286 | `substr($bytes, 0, $len)` is a prefix of min(len, n) bytes, or n+len bytes for a negative len |
| FreeDictService.ChunksPartition | src/Service/FreeDictService.php:289 | the 32-character pieces concatenate back to the hex string and all but the last are full |
| FreeDictService.HexDump | src/Service/FreeDictService.php:284-291 | the loop joins the 32-character pieces of the hex of the first len bytes with newlines |
| FreeDictService.HexDumpLines | src/Service/FreeDictService.php:284-291 | the dump's lines spell the hex string, every line but the last holds 32 characters, and the hex is twice as long as the bytes |
| FreeDictService.TextIsNotGzip | src/Service/FreeDictService.php:298-303 | no encoded text starts with the gzip magic 1F 8B 08 |
| FreeDictService.FirstMatch | src/Service/FreeDictService.php:336-345 | the first file of the walk below the directory whose name ends with the suffix, ignoring case |
| FreeDictService.StripCompressedSuffix | src/Service/FreeDictService.php:308 | the path loses a final `.gz` or `.dz` in any case, and is otherwise unchanged |
| FreeDictService.StripCompressedSuffixOfSibling | src/Service/FreeDictService.php:306-311 | a path with a compressed extension appended strips back to the path |
| FreeDictService.LowerCompressedExtension | src/Service/FreeDictService.php:308 | every case variant of `.gz` and `.dz` lower-cases to one of them |
| FreeDictService.WriteKeepsWalk | src/Service/FreeDictService.php:317-325 | writing a file keeps every file visited exactly once by the walk, a new file joining it |
| FreeDictService.ScanHeadwordAt | src/Service/FreeDictService.php:218-226 | the byte loop reads the headword the specification gives, from the current position |
| FreeDictService.ReadRecordAt | src/Service/FreeDictService.php:217-246 | the record read at a position is the specified one, with the new position |
| FreeDictService.DecodeIndex | src/Service/FreeDictService.php:217-247 | the decoding loop returns the specified records |
| FreeDictService.FreeDictService.constructor | src/Service/FreeDictService.php:16-20 | the service starts on a file tree whose walk visits each file once |
| FreeDictService.FindIn | src/Service/FreeDictService.php:336-345 | the returned path is a walked file that matches, and null means no walked file matches |
| FreeDictService.FreeDictService.ReadSlice | src/Service/FreeDictService.php:262-270 | a read returns at most maxLen bytes, and nothing for a missing file |
| FreeDictService.FreeDictService.ParseIfo | src/Service/FreeDictService.php:165-176 | the loop builds the key/value map of the file's lines, later lines overriding |
| FreeDictService.FreeDictService.ReadIndexEntries | src/Service/FreeDictService.php:211-250 | a missing file throws; otherwise the records of the file read in `$limit ?: 1` iterations |
| FreeDictService.FreeDictService.GunzipToFresh | src/Service/FreeDictService.php:313-327 | the result and the new file tree are what `Gunzip` gives on the old tree: a non-empty destination is reused, a missing source throws, otherwise the destination holds the inflated data and the call succeeds iff the stream was complete |
| FreeDictService.GunzipWrites | src/Service/FreeDictService.php:313-327 | decompression keeps the walk covering the files and every file, changes no file but the destination, returns only the destination, and a changed tree means the destination holds the inflated source |
| FreeDictService.FreeDictService.WriteChunks | src/Service/FreeDictService.php:319-325 | the copy loop leaves the destination holding the data and nothing else changed |
| FreeDictService.FreeDictService.GunzipToSibling | src/Service/FreeDictService.php:306-311 | the result and the new tree are those of `Gunzip` from the path into the path without `.gz`/`.dz` |
| FreeDictService.FreeDictService.EnsureIdxPath | src/Service/FreeDictService.php:178-185 | the result and the new tree are `EnsureIdx` on the old tree: the first `.idx`, else the first `.idx.gz` inflated to its sibling, else the `Missing .idx / .idx.gz` error |
| FreeDictService.EnsureIdxAgain | src/Service/FreeDictService.php:178-185 | a resolved index is a file, and resolving again returns it and writes nothing |
| FreeDictService.EnsureIdxInflates | src/Service/FreeDictService.php:180-183 | with no `.idx`, the sibling of the first `.idx.gz` is a new file holding the inflated data, appended to the walk, and the call succeeds iff the stream was complete |
| FreeDictService.FreeDictService.EnsureDictPath | src/Service/FreeDictService.php:192-209 | the result and the new tree are `EnsureDict` on the old tree: `.dict` first (a gzipped one inflated to `.dict.unz` when plain is needed), else `.dict.dz` (inflated beside it when plain is needed), else the `Missing .dict / .dict.dz` error |
| FreeDictService.EnsureDictWithoutPlain | src/Service/FreeDictService.php:192-209 | without needPlain nothing is written, and the result is the first `.dict`, else the first `.dict.dz`, succeeding iff one exists |
| FreeDictService.EnsureDictWrites | src/Service/FreeDictService.php:192-209 | the walk still covers the files, no file disappears, a result is a file, only the returned file may change, and a plain `.dict` is returned untouched |
| FreeDictService.FreeDictService.StarDictFirstRecord | src/Service/FreeDictService.php:109-161 | the result and the new tree are `FirstRecordOf` on the old tree (the manual path) |
| FreeDictService.FreeDictService.ReportFirstRecord | src/Service/FreeDictService.php:144-160 | the end of the manual path reads the report `ReportFirst` specifies from the current files |
| FreeDictService.FoundRecord | src/Service/FreeDictService.php:148-160 | the report carries the record's headword, a snippet of at most 400 characters and the byte order used |
| FreeDictService.ReportFirstLayout | src/Service/FreeDictService.php:144-160 | for an index encoding its entries and a plain `.dict` holding the first entry's payload at its offset, the report is found, with the book name, the first headword, the preview of exactly that payload and reader manual-BE |
| FreeDictService.FirstRecordOfResolved | src/Service/FreeDictService.php:111-146 | when the `.idx` and a plain `.dict` already sit beside the `.ifo`, nothing is written and the report is read from those two files with the `.ifo`'s book name and offset width |
| FreeDictService.FirstRecordOfEmptyIndex | src/Service/FreeDictService.php:146-147 | an index without a record gives "Index empty" and writes nothing |
| FreeDictService.FirstRecordNeedsFiles | src/Service/FreeDictService.php:111-112 | a missing `.ifo`, or an `.ifo` with neither `.idx` nor `.idx.gz` beside it, throws its message and writes nothing |
| FreeDictService.ReaderLabels | src/Service/FreeDictService.php:159 | the reader label is manual-BE or manual-LE, after the chosen byte order |
| FreeDictService.SiblingMatches | src/Service/FreeDictService.php:180-183 | the sibling of a `.idx.gz` is a `.idx` in the same directory |
| FreeDictService.FirstMatchAppend | src/Service/FreeDictService.php:336-345 | a file added at the end of the walk is found first when no earlier file matches |
| FreeDictCatalog.NewRow | src/Entity/FreeDictCatalog.php:20-27 | a new row carries the name, the workflow's initial marking and no release data |
| FreeDictCatalog.SplitNameJoins | src/Command/LoadFreeDictCatalogCommand.php:48 | the source code has no `-`, and source + "-" + target gives the name back |
| FreeDictCatalog.SplitNameUnique | src/Command/LoadFreeDictCatalogCommand.php:48 | a name built from a dash-free source and any target splits back into them |
| FreeDictCatalog.NullIfFalsy | src/Command/LoadFreeDictCatalogCommand.php:67-68 | `$x ?: null` is null exactly for "" and "0", and otherwise the string |
| FreeDictCatalog.CountAccepted | src/Command/LoadFreeDictCatalogCommand.php:41-49 | no more items are accepted than given |
| FreeDictCatalog.LoadCountsAccepted | src/Command/LoadFreeDictCatalogCommand.php:40-75 | a completed load counts exactly the accepted items |
| FreeDictCatalog.LoadFails | src/Command/LoadFreeDictCatalogCommand.php:52 | the load throws exactly when some accepted item has no releases |
| FreeDictCatalog.FailureSticks | src/Command/LoadFreeDictCatalogCommand.php:41-52 | once an item throws, the later items change nothing: the command ends with that exception |
| FreeDictCatalog.LoadRowsShape | src/Command/LoadFreeDictCatalogCommand.php:41-76 | after a load the names are the stored ones plus the accepted items'; rows no item names are untouched; each row sits under its name; markings are kept |
| FreeDictCatalog.LoadLastItemWins | src/Command/LoadFreeDictCatalogCommand.php:54-70 | the row under a name describes the last accepted item with that name |
| FreeDictCatalog.FillRowDescribes | src/Command/LoadFreeDictCatalogCommand.php:55-70 | a filled row holds the item's name, codes, string fields, headword count and best release |
| FreeDictCatalog.UpsertItem | src/Command/LoadFreeDictCatalogCommand.php:42-75 | one loop iteration does what the step function specifies |
| FreeDictCatalog.StepUpserts | src/Command/LoadFreeDictCatalogCommand.php:52-75 | an accepted item with a release upserts its row and increments the count |
| FreeDictCatalog.LoadLoop | src/Command/LoadFreeDictCatalogCommand.php:41-76 | the item loop computes the specified load |
| FreeDictCatalog.LoadAsWrittenUpsertsNothing | src/Command/LoadFreeDictCatalogCommand.php:54-55 | as written, the load completes iff no item is accepted, and then stores and counts nothing |
| FreeDictCatalog.LoadAsWrittenDiffers | src/Command/LoadFreeDictCatalogCommand.php:54-55 | with an accepted item and none lacking a release, the intended load succeeds counting every accepted item while the load as written throws |
| FreeDictCatalog.CatalogRepository.constructor | src/Command/LoadFreeDictCatalogCommand.php:18-22 | the repository starts with the given rows |
| FreeDictCatalog.CatalogRepository.Load | src/Command/LoadFreeDictCatalogCommand.php:24-82 | an unrecognised format changes nothing; a throwing item changes nothing (no flush); otherwise the rows become the load's rows and the count is reported |
| LexicalGraph.IndexWhere | src/Repository/LanguageRepository.php:20 | `findOneBy` returns the first row meeting the criteria, or none when no row does |
| LexicalGraph.GetOrCreateKeepsKeys | src/Repository/LanguageRepository.php:18-41 | `getOrCreate` keeps code3 unique, adds at most one language, returns one with the code, and leaves the others alone |
| LexicalGraph.GetOrCreateFindsExisting | src/Repository/LanguageRepository.php:20-31 | an existing language is returned, with code2 and name updated only when given |
| LexicalGraph.GetOrCreateAppends | src/Repository/LanguageRepository.php:34-40 | a new code appends a language whose name defaults to the code |
| LexicalGraph.LowerCharIdempotent | src/Repository/LemmaRepository.php:44 | lower-casing a character twice is lower-casing it once, and it creates no mark |
| LexicalGraph.BaseLetterOfLower | src/Repository/LemmaRepository.php:44-48 | the base letter of a lower-case letter is lower-case, its own base, and not a mark |
| LexicalGraph.StripMarksOfLower | src/Repository/LemmaRepository.php:44-48 | lower-cased text without marks is fixed by lower-casing and by mark removal |
| LexicalGraph.NormalizeIdempotent | src/Repository/LemmaRepository.php:42-51 | `normalize` is idempotent and ignores case |
| LexicalGraph.UpsertKeepsKeys | src/Repository/LemmaRepository.php:19-40 | `upsert` keeps (language, headword, pos) unique, adds at most one lemma, sets gender and features, and leaves the others alone |
| LexicalGraph.UpsertFindsExisting | src/Repository/LemmaRepository.php:24-36 | an existing lemma keeps its id and only its gender and features change |
| LexicalGraph.UpsertAppends | src/Repository/LemmaRepository.php:26-36 | a new key appends a lemma with the normalised headword |
| LexicalGraph.AddEdgeKeepsValid | src/Service/TeiImportService.php:247-254 | adding an edge between existing lemmas keeps the graph valid |
| LexicalGraph.AddEdgeKeepsKeys | src/Service/TeiImportService.php:247-254 | an edge is appended exactly when the pair has none, keeping (src, dst) unique |
| LexicalGraph.Store.constructor | src/Repository/LanguageRepository.php:13-16 | the store starts empty and valid |
| LexicalGraph.Store.GetOrCreate | src/Repository/LanguageRepository.php:18-41 | the languages change as `getOrCreate` specifies; nothing else changes |
| LexicalGraph.Store.Upsert | src/Repository/LemmaRepository.php:19-40 | the lemmas change as `upsert` specifies; nothing else changes |
| StarDictLookup.ScanMapHeadword | src/Service/StarDictLookup.php:194-201 | a headword read is non-empty, at most 10001 bytes, and within the rest of the file |
| StarDictLookup.MapHeadword | src/Service/StarDictLookup.php:194-204 | a headword read is non-empty, at most 10001 bytes, and within the rest of the file |
| StarDictLookup.MapHeadwordSpec | src/Service/StarDictLookup.php:194-204 | the loop stops at a leading NUL or at a short unterminated tail; otherwise the NUL-free prefix, its terminator consumed unless it reached 10001 bytes |
| StarDictLookup.MapRecordAt | src/Service/StarDictLookup.php:192-219 | one entry consumes at least one byte and no more than the rest of the file |
| StarDictLookup.FirstWith | src/Service/StarDictLookup.php:221-224 | the position of the first entry with the headword |
| StarDictLookup.AddFirstKeepsFirst | src/Service/StarDictLookup.php:221-224 | a key already mapped keeps its span; a new key gets the span of its first entry |
| StarDictLookup.IndexMapFirstWins | src/Service/StarDictLookup.php:184-231 | a headword is mapped exactly when some entry has it, to the span of its first entry |
| StarDictLookup.Spans | src/Service/StarDictLookup.php:221-224 | one (headword, span) pair per index entry |
| StarDictLookup.MapHeadwordOfTerminated | src/Service/StarDictLookup.php:194-204 | a NUL-terminated headword is read whole, its terminator consumed |
| StarDictLookup.MapRecordAtEncoded | src/Service/StarDictLookup.php:206-219 | an encoded entry decodes to its headword, offset and size |
| StarDictLookup.EntriesOfEncodedIndex | src/Service/StarDictLookup.php:184-231 | reading an encoded index gives back every entry in order |
| StarDictLookup.ScanMapHeadwordAt | src/Service/StarDictLookup.php:194-201 | the byte loop reads the headword the specification gives |
| StarDictLookup.ReadMapRecordAt | src/Service/StarDictLookup.php:192-219 | the entry read at a position is the specified one, with the new position |
| StarDictLookup.BuildIndexMapOf | src/Service/StarDictLookup.php:186-230 | the loop builds the specified first-wins map |
| StarDictLookup.CollapseTrimIsClean | src/Service/StarDictLookup.php:136-137 | collapsing then trimming tag-free text leaves it clean, and keeps it free of controls |
| StarDictLookup.CleanValIsClean | src/Service/StarDictLookup.php:128-138 | `cleanVal` output has no `<` under the reduced `strip_tags`, single spaces and trimmed ends, and no controls when the input was valid UTF-8 |
| StarDictLookup.CleanValOfCleanText | src/Service/StarDictLookup.php:128-138 | clean text passes `cleanVal` unchanged |
| StarDictLookup.CleanValOfNothing | src/Service/StarDictLookup.php:128-138 | an empty payload cleans to "" where `previewText` says "(empty)" |
| StarDictLookup.CleanValDropsNoBreakSpace | src/Service/StarDictLookup.php:136-137 | a leading no-break space collapses to a space that `trim` then removes |
| StarDictLookup.PreviewKeepsNoBreakSpace | src/Service/FreeDictService.php:279-280 | `previewText` trims first, so the same no-break space survives as a leading space |
| StarDictLookup.MetaOf | src/Service/StarDictLookup.php:157-162 | the pair's metadata: `idxoffsetbits` cast to int (default 32), version (default ""), bookname (default the pair) |
| StarDictLookup.SessionValue | src/Service/StarDictLookup.php:102-111 | a library hit is the first result, cleaned |
| StarDictLookup.MapValue | src/Service/StarDictLookup.php:115-122 | a map hit is the payload slice, cleaned |
| StarDictLookup.LookupOrder | src/Service/StarDictLookup.php:99-126 | the library decides on a hit, a throwing library defers to the map, no backing finds nothing, and every value is clean |
| StarDictLookup.MapValueReadsSpan | src/Service/StarDictLookup.php:115-122 | a mapped key returns the cleaned payload at its span, cut to 4096 bytes |
| StarDictLookup.TranslateTokenOrder | src/Service/StarDictLookup.php:83-97 | the exact word first, then its lower-case form when different, else the word itself; a changed result is clean |
| StarDictLookup.TranslateChunksAppend | src/Service/StarDictLookup.php:50-58 | the output of consecutive pieces is the concatenation of their outputs |
| StarDictLookup.TranslateOneChunk | src/Service/StarDictLookup.php:51-58 | a letter run is translated, any other piece is copied |
| StarDictLookup.TranslateChunksUnchanged | src/Service/StarDictLookup.php:50-60 | when no word is found, the pieces come back concatenated as they were |
| StarDictLookup.TranslatedKeepsText | src/Service/StarDictLookup.php:40-61 | text with no hits, or with no letters, is returned unchanged |
| StarDictLookup.TranslateLoop | src/Service/StarDictLookup.php:50-60 | the loop builds the specified output |
| StarDictLookup.InstallKeepsAgreement | src/Service/StarDictLookup.php:162-176 | filling one pair's caches keeps them consistent and touches no other pair |
| StarDictLookup.StarDictLookup.constructor | src/Service/StarDictLookup.php:32-35 | the caches start empty |
| StarDictLookup.StarDictLookup.BuildIndexMap | src/Service/StarDictLookup.php:184-231 | a missing index throws; otherwise the map of its bytes |
| StarDictLookup.StarDictLookup.EnsurePairReady | src/Service/StarDictLookup.php:140-177 | a ready pair changes nothing; a pair without a StarDict row, a failed provision or a missing `.ifo` throws and changes nothing; otherwise the pair's metadata is that of its `.ifo`, its session, map and `.dict` path and the new file tree are what `OpenedOf` gives on the old tree, the error is its error (including a throw of `StarDict::createFromFiles`, after the metadata is recorded), and no other pair changes |
| StarDictLookup.StarDictLookup.InstallPair | src/Service/StarDictLookup.php:157-176 | the pair's metadata is that of the `.ifo`, recorded even when opening then throws; its session, map and `.dict` path and the new file tree are what `OpenedOf` gives on the old tree; with no error the pair is served by library iff its metadata says 2.4.2/32-bit, else by map |
| StarDictLookup.StarDictLookup.OpenBacking | src/Service/StarDictLookup.php:164-176 | the result and the new file tree are what `OpenedOf` gives on the old tree; a library dictionary gets the session `StarDict::createFromFiles` opens, or the message it throws, with the `.idx`/`.dict` already resolved |
| StarDictLookup.SessionOpened | src/Service/StarDictLookup.php:168 | opening a library session with `StarDict::createFromFiles` gives the session and no error, or the message it throws and no session |
| StarDictLookup.OpenedShape | src/Service/StarDictLookup.php:164-176 | 2.4.2/32-bit gets a session or an error and never a map; anything else a map or an error and never a session; a map comes with a `.dict` path naming a file; the walk still covers the files and none disappears |
| StarDictLookup.OpenedOfResolved | src/Service/StarDictLookup.php:164-176 | with the `.idx` and `.dict` already beside the `.ifo`, nothing is written: a library dictionary gets what opening a session on exactly those files gives, a session or its thrown message (the `.dict.dz` when there is no `.dict`), and any other, when its `.dict` is plain, the index map of that `.idx` and that `.dict` path |
| StarDictLookup.StarDictLookup.TranslateWordByWord | src/Service/StarDictLookup.php:40-61 | a ready pair needs no work; on success the pair is ready and the text is translated piece by piece through its backing; for a pair opened by this call, the result is the opening's error, or the text translated through the session, map and `.dict` of `OpenedOf` over the tree it left |
| DbLookup.RequireLang | src/Service/DbLookupService.php:145-162 | a found language exists |
| DbLookup.RequireLangResolves | src/Service/DbLookupService.php:145-162 | the trimmed, lower-cased code resolves: 2 letters by code2 then code3; 3 letters by code3 then code2 of its first two; others by code3; failure names the code |
| DbLookup.RequireLangPrefers | src/Service/DbLookupService.php:148-157 | a code matching on its primary key resolves to a language with that key |
| DbLookup.MatchingIds | src/Service/DbLookupService.php:111-117 | the lemmas of the language whose headword is the token or whose normal form matches, in id order |
| DbLookup.CandidatesMatch | src/Service/DbLookupService.php:111-117 | at most five matching lemmas, and all of them when fewer |
| DbLookup.RowsComeFromEdges | src/Service/DbLookupService.php:127-135 | every row is the target headword of an edge from the lemma into the target language |
| DbLookup.RowOrder | src/Service/DbLookupService.php:133 | the ORDER BY is a strict total order |
| DbLookup.InsertSorts | src/Service/DbLookupService.php:133 | inserting into sorted rows keeps them sorted and adds exactly that row |
| DbLookup.SortRowsSorts | src/Service/DbLookupService.php:133 | the sort returns a sorted permutation of the rows |
| DbLookup.Headwords | src/Service/DbLookupService.php:136-138 | each row contributes its headword, in order |
| DbLookup.TranslationsRanked | src/Service/DbLookupService.php:127-138 | at most `limit` headwords, taken from a sorted permutation of the joined rows, each the target of an edge |
| DbLookup.FirstIndex | src/Service/DbLookupService.php:142 | the first position of a value |
| DbLookup.DedupeSpec | src/Service/DbLookupService.php:142 | `array_unique` keeps every value once and the first value first |
| DbLookup.DedupeKeepsFirstOrder | src/Service/DbLookupService.php:142 | the kept values appear in the order of their first occurrences |
| DbLookup.FirstTranslationsFrom | src/Service/DbLookupService.php:126-140 | every headword found is reached by an edge from a candidate lemma |
| DbLookup.RowsOfHasEdges | src/Service/DbLookupService.php:127-135 | every edge of the lemma into the target language gives a row of the query |
| DbLookup.TranslationsComplete | src/Service/DbLookupService.php:127-138 | the query gives rows iff the limit is positive and the lemma has an edge into the target language; with a limit no smaller than the number of such edges, every target headword is among them |
| DbLookup.FirstFed | src/Service/DbLookupService.php:126-139 | the position of the first candidate with an edge into the target language, none before it having one |
| DbLookup.FirstTranslationsPicks | src/Service/DbLookupService.php:126-140 | the scan returns the rows of the first candidate with an edge into the target language, and nothing when the limit is 0 or no candidate has one |
| DbLookup.AlternatesComplete | src/Service/DbLookupService.php:106-143 | there are alternates iff the limit is positive and some candidate has an edge into the target language; then they are the de-duplicated rows of the first such candidate, every headword of those rows included |
| DbLookup.AlternatesAreTranslations | src/Service/DbLookupService.php:106-143 | alternates are distinct translations reached from a lemma the token matches; no candidate gives none |
| DbLookup.CollectAlternates | src/Service/DbLookupService.php:106-143 | the candidate loop with its early break returns the specified alternates |
| DbLookup.JoinStartsWithFirst | src/Service/DbLookupService.php:57 | the joined list starts with its first element, and a single element joins to itself |
| DbLookup.LookupOneSpec | src/Service/DbLookupService.php:52-58 | it succeeds iff both codes resolve; null iff no alternates; otherwise a list starting with the first alternate |
| DbLookup.TranslateTokenOrder | src/Service/DbLookupService.php:73-100 | exact word, then lower-case when different, then normal form when different from lower-case; else the word; a zero limit finds nothing |
| DbLookup.ZeroLimitFindsNothing | src/Service/DbLookupService.php:134 | `LIMIT 0` returns no rows for any candidate |
| DbLookup.TranslateTokenFinds | src/Service/DbLookupService.php:73-100 | when a candidate of the word has an edge into the target language and the limit is positive, the word becomes the top-ranked headword of the first such candidate; failing that, the same for the lower-case form when it differs |
| DbLookup.TranslateTokenIsTranslation | src/Service/DbLookupService.php:73-100 | a changed word is the target of an edge from a source-language lemma the word, its lower-case or its normal form matches |
| DbLookup.TranslateChunksUnchanged | src/Service/DbLookupService.php:36-46 | with no hits the pieces come back concatenated |
| DbLookup.WordByWordKeepsText | src/Service/DbLookupService.php:27-47 | it fails iff a code does not resolve; letter-free text or text without hits is returned unchanged |
| DbLookup.TranslateWordByWord | src/Service/DbLookupService.php:27-47 | the loop returns the specified translation |
| RuleTranslator.GenderPrecedence | src/Service/RuleTranslatorService.php:94-105 | `nf` beats `nm`, which beats the feminine cue, which beats the masculine cue; no cue gives null |
| RuleTranslator.NounTagAddsNothing | src/Service/RuleTranslatorService.php:97-100 | on the padded snippet the noun-tag pattern adds nothing to the bare-letter pattern |
| RuleTranslator.GuessCasa | src/Service/RuleTranslatorService.php:92-113 | "casa nf" is feminine singular |
| RuleTranslator.GuessLibros | src/Service/RuleTranslatorService.php:92-113 | "libros (m.) pl" is masculine plural |
| RuleTranslator.ArticleAgreement | src/Service/RuleTranslatorService.php:67-76 | a/an give un/una/unos/unas, the gives el/la/los/las, and the article determines number and feminine gender |
| RuleTranslator.NextWord | src/Service/RuleTranslatorService.php:56-59 | the peek skips exactly the separator pieces to the next word, or reaches the end |
| RuleTranslator.RuleScope | src/Service/RuleTranslatorService.php:43-83 | separators are copied; only an English article before a later word becomes a Spanish article chosen from the next word's lookup; other words are translated directly |
| RuleTranslator.RenderChunkLooksAhead | src/Service/RuleTranslatorService.php:55-61 | a piece's output depends only on it and the pieces after it |
| RuleTranslator.OtherPairsAreDirect | src/Service/RuleTranslatorService.php:40-83 | for pairs other than English-Spanish every word is translated directly |
| RuleTranslator.TokenizeArticleNoun | src/Service/RuleTranslatorService.php:34 | "article noun" splits into the article, the space and the noun |
| RuleTranslator.TranslateIndefiniteFeminine | src/Service/RuleTranslatorService.php:27-90 | "a" before a feminine singular noun becomes "una" followed by the noun's translation |
| RuleTranslator.RenderIndefiniteFeminine | src/Service/RuleTranslatorService.php:54-70 | rendering the pieces "a", " ", noun gives "una " and the noun's translation |
| RuleTranslator.Translate | src/Service/RuleTranslatorService.php:27-90 | the loop returns the specified translation |
| TeiImport.CleanForm | src/Service/TeiImportService.php:294-298 | a cleaned gloss has single spaces only and non-trimmable ends |
| TeiImport.CleanCollapsed | src/Service/TeiImportService.php:294-298 | a cleaned gloss has single spaces only |
| TeiImport.CleanIdempotent | src/Service/TeiImportService.php:294-298 | cleaning twice is cleaning once |
| TeiImport.LowerIdempotent | src/Service/TeiImportService.php:301 | lower-casing twice is lower-casing once |
| TeiImport.GenderNormalForm | src/Service/TeiImportService.php:301 | trimming and lower-casing again changes nothing |
| TeiImport.ShortGenderForms | src/Service/TeiImportService.php:299-308 | a gender becomes m, f, n or null, and depends only on its trimmed lower-case form |
| TeiImport.GenderCodeRange | src/Service/TeiImportService.php:302-307 | the match yields m, f, n or null |
| TeiImport.GenderCodeOfFalsy | src/Service/TeiImportService.php:301-306 | "" and "0" give no gender |
| TeiImport.GivenGenderStable | src/Service/TeiImportService.php:299-308 | a truthy gender depends only on its normal form |
| TeiImport.UngivenGenderStable | src/Service/TeiImportService.php:299-308 | a falsy gender gives null, as does its normal form |
| TeiImport.LatestRelease | src/Service/TeiImportService.php:72-75 | the chosen release has the greatest date |
| TeiImport.PickTeiUrlPrefers | src/Service/TeiImportService.php:68-80 | non-array releases throw; tei is chosen iff present, src iff tei is absent and src present; the URL is that of a latest-dated release of the platform; else "" |
| TeiImport.PutDictionary | src/Service/TeiImportService.php:165-171 | the dictionary row returned carries the name and keeps an existing TEI URL |
| TeiImport.PutDictionaryKeepsNames | src/Service/TeiImportService.php:165-173 | names stay unique; an existing row is reused iff one has the name; it gets the pair's languages and null edition; other rows unchanged |
| TeiImport.Truncated | src/Service/TeiImportService.php:184-196 | the delete keeps exactly the edges not running from a src-language lemma to a dst-language lemma |
| TeiImport.TruncatedKeepsKeys | src/Service/TeiImportService.php:184-196 | deleting edges keeps (src, dst) unique |
| TeiImport.Glosses | src/Service/TeiImportService.php:229-234 | one stored gloss per sense text |
| TeiImport.SensesFor | src/Service/TeiImportService.php:230-237 | one sense per gloss |
| TeiImport.SensesForAt | src/Service/TeiImportService.php:230-237 | sense i belongs to the lemma, carries gloss i and rank i+1 |
| TeiImport.QuoteWords | src/Service/TeiImportService.php:239-243 | one trimmed word per quote |
| TeiImport.ExtractAll | src/Service/TeiImportService.php:221-239 | one set of extracted fields per entry |
| TeiImport.UpsertKeepsOldKeys | src/Repository/LemmaRepository.php:19-40 | an upsert keeps every existing lemma's key and language |
| TeiImport.QuoteStepKeeps | src/Service/TeiImportService.php:241-255 | one quote word keeps the keys unique, the references in range and the old lemma keys |
| TeiImport.QuoteStepAppends | src/Service/TeiImportService.php:244-254 | at most one edge is appended, from the lemma to a dst-language lemma, ranked with the counter, which advances only then |
| TeiImport.QuoteStepLinks | src/Service/TeiImportService.php:244-254 | after a non-empty word some edge links the lemma to a dst lemma with that headword |
| TeiImport.QuotesKeep | src/Service/TeiImportService.php:239-255 | the quote loop keeps the invariant and the old edges, and ranks its new edges consecutively from the lemma |
| TeiImport.QuotesLink | src/Service/TeiImportService.php:239-255 | every non-empty quote word ends up linked from the lemma |
| TeiImport.EntryKeepsValid | src/Service/TeiImportService.php:221-255 | one entry keeps the graph valid, the languages and dictionaries unchanged, and the old edges as a prefix |
| TeiImport.EntryLemma | src/Service/TeiImportService.php:227 | the entry's lemma exists in the source language with its headword and pos |
| TeiImport.EntrySenses | src/Service/TeiImportService.php:229-237 | the entry appends one sense per gloss, ranked 1, 2, ... |
| TeiImport.EntryEdges | src/Service/TeiImportService.php:239-255 | the new edges run from the entry's lemma to dst-language lemmas, ranked 1, 2, ... |
| TeiImport.EntryLinks | src/Service/TeiImportService.php:239-255 | every non-empty quote word is linked from the entry's lemma |
| TeiImport.StoredGlosses | src/Service/TeiImportService.php:229-234 | the loop returns the specified glosses |
| TeiImport.TrimmedQuotes | src/Service/TeiImportService.php:239-243 | the loop returns the specified quote words |
| TeiImport.AddSenses | src/Service/TeiImportService.php:230-237 | the senses gain the entry's senses; nothing else changes |
| TeiImport.AddQuoteWord | src/Service/TeiImportService.php:242-254 | the store changes as one quote step specifies |
| TeiImport.AddQuotes | src/Service/TeiImportService.php:239-255 | the store changes as the quote loop specifies |
| TeiImport.ExtractEntry | src/Service/TeiImportService.php:221-239 | the fields read from one entry are the specified ones |
| TeiImport.ExtractEntries | src/Service/TeiImportService.php:209-239 | the fields read from all entries are the specified ones |
| TeiImport.ImportEntry | src/Service/TeiImportService.php:221-255 | the store changes as one entry specifies |
| TeiImport.RunKeepsValid | src/Service/TeiImportService.php:209-271 | the entry loop keeps the graph valid with its languages and dictionaries |
| TeiImport.RunKeepsEdges | src/Service/TeiImportService.php:209-271 | the entry loop only appends edges |
| TeiImport.RunCounts | src/Service/TeiImportService.php:257-269 | `$batch` counts imported entries, at most those with a headword; `$count` follows it only with a callback |
| TeiImport.RunSkipsHeadless | src/Service/TeiImportService.php:221-222 | entries without a headword change nothing |
| TeiImport.RunLimit | src/Service/TeiImportService.php:269-270 | with a callback and a positive limit the loop stops at the limit or after all entries |
| TeiImport.RunUnstopped | src/Service/TeiImportService.php:270 | without a limit, with a zero limit, or without a callback below the limit, the loop imports every entry |
| TeiImport.RunNegativeLimit | src/Service/TeiImportService.php:270 | a negative limit stops the loop after the first imported entry |
| TeiImport.Register | src/Service/TeiImportService.php:160-173 | the returned dictionary row exists |
| TeiImport.RegisterKeeps | src/Service/TeiImportService.php:160-173 | languages for both codes exist; the pair's row refers to them with null edition and version; lemmas, senses, edges and other rows unchanged |
| TeiImport.PreparedKeeps | src/Service/TeiImportService.php:175-196 | only the pair's row gains the TEI URL, and with truncate the pair's edges are deleted |
| TeiImport.ImportTeiRejectsName | src/Service/TeiImportService.php:156-159 | a name without `-` throws before touching the graph |
| TeiImport.ImportTeiFails | src/Service/TeiImportService.php:175-178 | with a pair name it throws iff no TEI URL is found |
| TeiImport.ImportTeiRegisters | src/Service/TeiImportService.php:152-179 | the graph stays valid; success returns the pair's row with the TEI URL, null edition and version, and languages for both codes |
| TeiImport.ImportTeiCounts | src/Service/TeiImportService.php:206-271 | the counters as the entry loop keeps them, with the limit rule |
| TeiImport.ImportTeiEdges | src/Service/TeiImportService.php:183-255 | the edges that survive truncation stay as a prefix of the final edges |
| TeiImport.RegisterPair | src/Service/TeiImportService.php:160-173 | the store changes as registration specifies |
| TeiImport.PutDictionaryRow | src/Service/TeiImportService.php:165-173 | the dictionaries change as the upsert specifies; nothing else |
| TeiImport.Prepare | src/Service/TeiImportService.php:175-196 | the store changes as the URL update and truncate specify |
| TeiImport.ImportEntries | src/Service/TeiImportService.php:209-271 | the loop leaves the store and counters as specified |
| TeiImport.ImportTei | src/Service/TeiImportService.php:152-279 | the store and outcome are those of the specification |
| FreedictExplore.FindLanguagePairFirst | src/Command/FreedictExploreCommand.php:171-180 | null iff no entry names the pair; otherwise the first entry that does |
| FreedictExplore.FirstFallbackFirst | src/Command/FreedictExploreCommand.php:225-233 | the first priority format present, null iff none |
| FreedictExplore.FindBestFormatPrefers | src/Command/FreedictExploreCommand.php:206-243 | no releases give null; the preferred format wins; otherwise the first priority format present |
| FreedictExplore.FindBestFormatFirstRelease | src/Command/FreedictExploreCommand.php:213 | only the first release's formats matter |
| FreedictExplore.FindBestFormatFromRelease | src/Command/FreedictExploreCommand.php:206-243 | a returned URL is that of a format the first release has |
| FreedictExplore.FirstKeyIsSet | src/Command/FreedictExploreCommand.php:236-241 | the first-key fallback yields a URL only for a set format |
| FreedictExplore.KeptFilesSelect | src/Command/FreedictExploreCommand.php:373-385 | exactly the regular files of the walk that the filter accepts |
| FreedictExplore.DictionaryFilesSelect | src/Command/FreedictExploreCommand.php:366-388 | exactly the regular files with a dictionary extension or name |
| FreedictExplore.FindDictionaryFiles | src/Command/FreedictExploreCommand.php:366-388 | the loop returns the specified files |
| FreedictExplore.AsciiLowerIdempotent | src/Command/FreedictExploreCommand.php:375-376 | `strtolower` is idempotent |
| FreedictExplore.LastIndexOfLower | src/Command/FreedictExploreCommand.php:277-278 | `strtolower` moves no `/` or `.`, so the base name and extension are cut at the same place in the lower-cased path |
| FreedictExplore.DispatchIgnoresCase | src/Command/FreedictExploreCommand.php:278-300 | both dispatches ignore the case of the path |
| FreedictExplore.FilterIgnoresCase | src/Command/FreedictExploreCommand.php:375-381 | the file filter ignores case |
| FreedictExplore.ExaminedFilesAreFound | src/Command/FreedictExploreCommand.php:379-411 | a file given a dedicated examiner passes the filter |
| FreedictExplore.ArchivesAreNotExamined | src/Command/FreedictExploreCommand.php:285-300 | an archive extension gets the text examiner and is not a dictionary extension |
| FreedictExplore.ArchiveExtensions | src/Command/FreedictExploreCommand.php:285-295 | archive extensions are none of the examined or dictionary extensions |

## Left out

- HTTP, the catalogue fetch, downloads, `tar`/`unzip`/`bunzip2` extraction and shell commands are left out. `ensureStarDictReady` becomes a `provision` parameter that returns a directory or an error.
- Decompression is a parameter `inflate` that gives the inflated bytes and whether the stream was complete. The DEFLATE format itself is not modelled.
- The StarDict library (skoro) is an opaque session: for each key it either raises or returns values. Opening it is a parameter `open` that gives a session or the message `StarDict::createFromFiles` throws. The skoro branch of `starDictFirstRecord` is not modelled, and `StarDictFirstRecord` follows the manual path only.
- `StarDictLookup` and `DbLookup` leave out `availableLanguageCodes`. It is a catalogue or SQL listing and no other operation depends on it.
- Doctrine is modelled as an immediately consistent store. This leaves out flushes, batches of 1000 (flush, clear and refetch) and the `findOneBy` invisibility of unflushed rows. When `importTei` throws after registering the pair, as for a missing TEI URL (src/Service/TeiImportService.php:177), the model keeps the languages and the dictionary row written before the throw, while PHP has persisted them but never flushes them.
- `dd($tLemma)` in `importTei` stops the process at the first non-empty quote word. The model reads it as a debugging statement and carries on with the loop.
- TEI XML parsing is replaced by `Entry` records that hold what the XPath queries return. `XMLReader` open failures and malformed XML are left out. So are `ensureTeiXml`, `download`, `run` and `findFirst`, which are I/O. `TeiImport.ImportTei` takes the entries ready, so it cannot fail after the TEI URL check, while PHP calls `ensureTeiXml` (src/Service/TeiImportService.php:198) after updating the URL and truncating the pair (:184-196) and can throw there, leaving the truncate done and nothing imported.
- `RuleTranslator.Translate` takes `lookupOne`, `translateWordDirect` and the word-by-word fallback as parameters. `StarDictLookup.php` defines neither `lookupOne` nor `translateWordDirect`, so the rules path of the PHP fails at its first word. The model states the evident intent.
- The failure of `preg_split` on invalid UTF-8 is left out. Text is a sequence of characters here, so that path is unreachable.
- `strlen` on text counts bytes. The model works on characters, and only the byte-level readers (index headwords) count bytes.
- The Unicode tables are cut down: letters cover ASCII, the Latin-1 letters, Latin Extended-A and -B, IPA, the Greek letters U+0386–U+03CE (accented ones included), Cyrillic, Latin Extended Additional and the CJK unified ideographs, so a letter of another script (Armenian, Hebrew, Arabic, Indic, Greek Extended and the rest) splits the word in which it stands, where PHP's `\p{L}+` keeps it whole; lower-casing covers ASCII, Latin-1, the basic Greek capitals and Cyrillic, character by character; NFD covers the Latin-1 letters; `\s` is PCRE2's set under Unicode properties: tab to CR, space, U+0085, U+00A0, U+1680, U+180E, U+2000–U+200A, U+2028, U+2029, U+202F, U+205F and U+3000. `strip_tags` is reduced to its core rule: every `<` opens a tag that runs to the next `>`, where PHP keeps a `<` that cannot start a tag, as in `1 < 2`. Like PHP, it deletes every NUL.
- Text.Lower: PHP 8.3 and later lower a capital sigma at the end of a word to the final form ς (U+03C2); the model lowers every Σ to σ (U+03C3). Greek words ending in Σ therefore lower-case, and so match and normalise, differently here in `StarDictLookup.translateToken`, `DbLookup.translateToken` and `LemmaRepository::normalize`.
- `ByteCodec.UInt64BE`: a value of 2^63 or more is a float in PHP, and its `(int)` cast depends on the platform. The model keeps the exact value.
- Floating-point JSON numbers are not represented. `is_numeric` accepts only integer numerals here, while PHP also accepts decimals and exponents.
- SQL ties and collation: `DbLookup.Candidates` takes matching lemmas in id order, where `setMaxResults` without `ORDER BY` leaves the order to the database. `RowBefore` compares headwords by code point, not by the database collation.
- Uniqueness of `code2` is not a constraint in the model. `findOneBy(['code2' => ...])` returns the first language with that code.
- Negative `$limit`/`$maxAlternates` for the SQL `LIMIT` are outside the model, whose limits are natural numbers.
- `FreedictExplore`: non-array items and string-valued releases read as null through `Get`. The walk order of the recursive iterator is a parameter. Download, extraction, the examiners' output and `formatFileSize` are console output and I/O, and are left out.
- `fetchCatalog`, `downloadTo`, `ensureStarDictReady`, `runShell`, `dirHasFiles` and `getCacheDir` are I/O and are left out.

## Findings

| source | as written | input that shows it | evidently intended | confidence | as-written member | corrected member |
|---|---|---|---|---|---|---|
| src/Command/LoadFreeDictCatalogCommand.php:54-55 | `findOneByName($name) ?? new FreeDictCatalog()` calls a constructor that requires the name (src/Entity/FreeDictCatalog.php:20-24), and `$row->name = $name` assigns a `private(set) readonly` property from outside the class | any catalogue with one accepted item that has a release, such as `afr-deu` with a StarDict release: a new row throws an `ArgumentCountError`, a stored row an `Error`, before the flush | a stored row is refilled and a new row is created with the name, then every row is flushed | high, not executed | FreeDictCatalog.LoadAsWrittenDiffers | FreeDictCatalog.LoadCountsAccepted |
