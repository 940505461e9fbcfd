# Verified model of maelys-json

A Dafny model of the whole byte-to-tree-to-byte pipeline of the bounded JSON library: the recursive-descent
parser with its token table and key set, last-wins compaction, the document interface, the writer state machine,
the serializer, the streaming canonical check with the slow check it must agree with, and error pointers.
`dafny verify dfyconfig.toml` checks everything.

## How it is laid out

Three layers, each refining the one above it.

* **Trees and grammar.** `Json` is the tree, `Syntax` is the concrete syntax of section 2 of RFC 8259 as a datatype
  with a spelling and a meaning. `Utf8`, `Utf16`, `StringLiteral`, `TextEscape` and `Numeral` do the same for text
  and numbers (RFC 3629 section 4, RFC 8259 sections 6 and 7, RFC 8785 section 3.2.3). `Printer`, `Order`,
  `CanonicalForm`, `CanonicalSize` and `LastWinsTree` are printing, sorting, canonicalization and pruning on trees.
  `Alphabet` states the character tables they rest on as strings, and `AsciiForm` that ASCII output is ASCII.
* **Reader.** `Reader.ReadText` is recursive descent on bytes with the parser's limits, error codes, error offsets and
  the path it was on. `Acceptance` and `Grammar` prove it equal to the grammar, `ReaderLaws` says what each error code
  means, and `Prefixes`, `Completions` and `ErrorOffset` what the offset means: the bytes before it begin a JSON text,
  and no text that repeats the refused token is accepted. `PointerScan` and `Pointer` prove that a rescan finds the
  path again, and `PointerMeaning` that it names the value the error lies in.
* **Classes and loops.** `LinkedTable` is the parent/first/last/next layout shared by tokens and nodes. `Keyset`,
  `Parser`, `Compaction`, `Children`, `DocumentParse`, `DocumentApi`, `CanonicalCheck`, `KeySort`, `Serializer`,
  `Writer`, `ReferenceCheck` and `ErrorPointer` are the code that updates state, each proved against the layers above.
  `Nodes`, `TokenTable`, `ParserLemmas`, `WriterState`, `ParseBudget` and `CopyRoom` hold what those proofs share.

An allocator is an object that may refuse any request and counts what it refused (`Memory.Heap` keeps sizes as well,
`Memory.Allocator` only refusals), so every theorem holds for every pattern of refusals, and a parse, a serialization
and a call of the writer report MEMORY exactly when a request was refused. A hash is any deterministic function of a key. `size_t` is 64 bits
wide; wherever an addition, a doubling or a product could wrap, the contract shows that it stays below the limit.

Two points where the code decides against the wording beside it: `read_magnitude` reports RANGE as soon as the leading
digits overflow, before it meets a fraction, so `18446744073709551616.5` cannot be copied
(`Numeral.RangeBeforeFraction`); and an ARGUMENT met in the middle of a copy leaves the writer failed with STATE.

## Model

| member | source | states |
|---|---|---|
| Basics.ResolveLimits | src/common.c:49-76 | Refused exactly for a depth over 256, half of SIZE_MAX bytes or over SIZE_MAX / 256 tokens; zero fields become 65535 bytes, depth 32, 8192 tokens, all others are kept |
| Alphabet.SpacesAndDigits | src/parser.c:33-35 | Whitespace is exactly space, tab, carriage return and line feed |
| Alphabet.Names | src/parser.c:284-290 | The literal names are true, false and null |
| Alphabet.RawCharacters | src/parser.c:83-106 | Unescaped characters are those from U+0020 on but the quotation mark and the backslash, up to U+007E in the ASCII profile |
| Alphabet.ShortEscapes | src/utf8.c:168-180 | The eight two-character escapes and their meanings |
| Alphabet.HexDigits | src/utf8.c:87-98 | Hexadecimal digits of either case are read by value, nothing else is one |
| Alphabet.EscapedCharacters | src/utf8.c:139-166 | Units that are no surrogate and not zero, or a high and a low surrogate, with their code point |
| Alphabet.SpelledEscapes | src/utf8.c:139-180 | How short, four-digit and surrogate escapes are spelled |
| Alphabet.SpelledNumber | src/common.c:115-156 | How sign, whole part, fraction and exponent follow each other |
| Alphabet.NoNumbers | src/common.c:115-156 | No bare sign, plus, leading zero, empty fraction or empty exponent is a number |
| Alphabet.CanonicalSpelling | src/common.c:11-41 | The canonical spelling of every byte, controls without a letter as `\u00` and two lower-case digits of their value |
| Alphabet.EscapeSpelling | src/serialize.c:78-83 | A printed escape is four lower-case digits of its unit, never a capital |
| Alphabet.PointSpelling | src/serialize.c:91-106 | Under the ASCII flag a character above ASCII is its own escape, or its high and low surrogate |
| Alphabet.RawPresentation | src/serialize.c:107-112 | Without the flag bytes above ASCII stay as they are; ASCII text looks the same either way |
| Alphabet.ArrayPunctuation | src/serialize.c:222-249 | Brackets and commas of printed arrays |
| Alphabet.ObjectPunctuation | src/serialize.c:172-220 | Braces, colons and commas of printed objects |
| Alphabet.IndentedArray | src/serialize.c:67-76 | Indented, each element has its own line, two spaces a level, and an empty container none |
| Alphabet.IndentedMember | src/serialize.c:67-76 | So has each member, with one space after its colon |
| Alphabet.FinalNewline | src/serialize.c:282-285 | The final newline is one line feed after the whole text |
| Utf8.StepEncodes | src/utf8.c:59-85 | What the validator accepts at a position is exactly the encoding of the value the decoder reads there |
| Utf8.EncodeSteps | src/utf8.c:113-137 | Decoding inverts encoding on every scalar value, wherever the encoding occurs |
| Utf8.EncodingTable | src/utf8.c:113-137 | Length, lead byte and six-bit groups of each encoding, as section 3 of RFC 3629 tabulates them |
| Utf8.PrefixIsLongest | src/utf8.c:11-53 | The validated prefix is well formed, and no longer prefix is |
| Utf8.ValidIsWellFormed | src/utf8.c:55-57 | Validation accepts exactly the encodings of sequences of scalar values |
| Utf8.ValidPrefix | src/utf8.c:11-53 | The loop returns the length of that longest prefix |
| Utf16.UnitOrderIsWeightOrder | src/utf8.c:250-288 | Comparing code units is comparing code points with supplementary characters moved before U+E000 |
| Utf16.UnitsTable | src/utf8.c:250-270 | A character is one unit below U+10000, else the high and low surrogate of its value |
| Utf16.LexMeaning | src/utf8.c:272-288 | Negative exactly when the first sequence ends where the other goes on or has the smaller unit at the first difference |
| Utf16.KeyOrderMeaning | src/utf8.c:272-288 | A key is less exactly when its UTF-16 units come first in that sense |
| Utf16.KeyOrderTotal | src/utf8.c:272-288 | On validated text the order is antisymmetric, and zero exactly for equal byte strings |
| Utf16.KeyOrderTransitive | src/utf8.c:272-288 | The key order is transitive, strictly so when one step is strict |
| Utf16.UnitCursor.Next | src/utf8.c:250-270 | The cursor yields the code units of the text one by one, low surrogates included |
| Utf16.Compare | src/utf8.c:272-288 | The two-cursor loop decides the order of the UTF-16 encodings |
| StringLiteral.ScanFindsEnd | src/parser.c:83-106 | The scan of a well-formed literal body stops at its closing quotation mark |
| StringLiteral.DecodeShrinks | src/utf8.c:182-240 | Decoding never expands a body |
| StringLiteral.LiteralSound | src/utf8.c:182-240 | A body that is scanned and decoded is a sequence of legal characters, and the text is its meaning |
| StringLiteral.LiteralComplete | src/utf8.c:182-240 | Every sequence of legal characters is scanned to its end and decodes to its meaning |
| StringDecoder.ReadEscapePoint | src/utf8.c:139-166 | An escape yields its scalar value and end, or nothing for lone or reversed surrogates and U+0000 |
| StringDecoder.DecodeString | src/utf8.c:182-240 | The in-place decoder with whole-run copies agrees with decoding one character at a time, errors included |
| TextEscape.PrintedTextReadsBack | src/serialize.c:85-116 | The literal printed for any text the profile carries, raw or ASCII, spells legal characters whose meaning is the text |
| Numeral.NumberSyntax | src/common.c:115-156 | The loop accepts exactly the numbers of the grammar |
| Numeral.NumberIsGrammar | src/common.c:115-156 | Those are exactly the spellings of sign, whole part, fraction and exponent of section 6 of RFC 8259 |
| Numeral.ReadMagnitude | src/document.c:206-237 | The digit loop never passes its maximum; exact value, RANGE or NOT_INTEGER is decided by the leading digits first |
| Numeral.IntegerReading | src/document.c:239-282 | RANGE exactly when the leading digits exceed 64 bits, NOT_INTEGER exactly for other non-integers, else the exact value |
| Numeral.SignedReading | src/document.c:259-282 | On every number value_i64 is the integer itself exactly from -2^63 to 2^63 - 1, with or without a sign, and RANGE or NOT_INTEGER by the leading digits |
| Numeral.UnsignedReading | src/document.c:239-257 | value_u64 likewise from 0 to 2^64 - 1; a negative integer is RANGE, "-0" is 0 |
| Numeral.IntegerReproduced | src/canonical.c:74-100 | Rendering an in-range integer lexeme gives the lexeme back, "-0" alone excepted |
| Numeral.CopyKeepsLexeme | src/writer.c:413-441 | A copied number prints its own lexeme, "-0" as "0", exactly when its leading digits fit 64 bits |
| Numeral.RangeBeforeFraction | src/document.c:223-233 | A number with a fraction whose copy is a RANGE error |
| Numeral.RenderedIsNumber | src/serialize.c:118-130 | Every rendered integer is a number of the grammar |
| Numeral.RenderedValue | src/serialize.c:118-130 | and spells the integer it was rendered from |
| Acceptance.ValueComplete | src/parser.c:189-334 | Wherever the spelling of a value that fits the limits occurs, the reader reads its tree and stops at its end |
| Acceptance.ValueSound | src/parser.c:189-334 | Whatever the reader reads is the spelling of some syntax with that tree, within the limits |
| Grammar.AcceptsExactly | src/parser.c:497-533 | A text reads as a tree exactly when the grammar derives it and nesting, tokens and key uniqueness fit |
| Grammar.NestsIsHeight | src/parser.c:189-203 | The nesting limit bounds the height of the tree, neither more nor less |
| Grammar.TokensAreEntries | src/parser.c:60-81 | The token charge is one for each value and one for each key |
| Grammar.AcceptsWithin | src/parser.c:497-533 | Acceptance is a derivation with height within the depth, entries within the tokens and, in strict profiles, distinct keys |
| Grammar.UniqueTree | src/parser.c:497-533 | The grammar derives at most one tree from a text |
| Grammar.CapacityIsExact | src/parser.c:472-479 | Bounding the token table by the input size refuses no text that maximum_tokens admits |
| ReaderLaws.NeverLimit | src/parser.c:60-66 | With depth and tokens for every byte no text is refused with LIMIT |
| ReaderLaws.LimitsOnlyLimit | src/parser.c:189-203 | Any outcome but LIMIT is the same under all wider limits |
| ReaderLaws.LimitIsExact | src/parser.c:60-66 | A refusal is LIMIT exactly when wider limits change the outcome |
| ReaderLaws.DuplicateIsOvertaken | src/parser.c:141-157 | DUPLICATE_KEY comes only in strict profiles, and where the tolerant reader goes further; everything else both report alike |
| ReaderLaws.DuplicateIsExact | src/parser.c:141-157 | Under RFC 8259 a refusal is DUPLICATE_KEY exactly when the tolerant reader sees the text differently |
| ReaderLaws.DecodeCodes | src/utf8.c:182-240 | In a literal UTF8 marks a byte where no well-formed sequence starts, SYNTAX a backslash that escapes nothing |
| ReaderLaws.ValidDecodes | src/utf8.c:182-240 | Well-formed input never gives UTF8 |
| ReaderLaws.LiteralOffset | src/parser.c:108-140 | Where a refused literal is reported: its opening mark exactly when unterminated or absent, else the byte at fault |
| ReaderLaws.CodesMean | src/parser.c:497-533 | Every refusal: LIMIT exactly when wider limits change it, DUPLICATE_KEY where the tolerant reader gets past, UTF8 only at a byte of malformed input, SYNTAX otherwise |
| Prefixes.ValueAgain | src/parser.c:317-334 | A value is read alike from every text that agrees up to its end and ends it there |
| ErrorOffset.ValueRefused | src/parser.c:189-334 | The token a value is refused at: the bytes before it can be completed to a value, no text repeating it can |
| ErrorOffset.OffsetIsExact | src/parser.c:83-334 | The offset of every refusal lies in a token whose preceding bytes begin a JSON text, while every text that repeats the token is refused alike |
| Printer.PrettyFaithful | src/serialize.c:172-273 | The printed form at every level and in every style is concrete syntax for the tree |
| Printer.PrintReadsBack | src/serialize.c:251-296 | In every style, with or without the newline, printed text reads back as the same tree |
| Order.SortOrders | src/serialize.c:157-167 | Sorted members rise strictly in UTF-16 order and are the same members |
| Order.OrderUnique | src/serialize.c:133-167 | Two strictly ascending arrangements of the same members are equal |
| Order.SortIdempotent | src/serialize.c:157-167 | Sorting a sorted tree changes nothing |
| Order.InOrderIsSorted | src/canonical.c:109-139 | A tree whose objects all rise is its own sorted form |
| LastWinsTree.PruneIsReplacement | src/parser.c:142-151 | Keeping last occurrences equals reading members in turn, each replacing the earlier one with its key |
| LastWinsTree.LastIsPublished | src/parser.c:364-401 | For every key the last member with it is published |
| LastWinsTree.PruneIsDistinct | src/parser.c:364-401 | The published tree repeats no key at any depth |
| LastWinsTree.RepeatsSnoc | src/parser.c:145-150 | A member adds one to members minus distinct keys exactly when its key was there before |
| LastWinsTree.DuplicatesZero | src/parser.c:541-543 | The duplicate count is zero exactly when no object of the source repeats a key |
| LastWinsTree.PruneFixed | src/parser.c:541-543 | Without repeats the published tree is the source tree |
| LastWinsTree.TolerantIsStrict | src/parser.c:142-154 | The tolerant reader without repeats and the strict reader accept the same texts with the same trees |
| CanonicalForm.ParsedIsCarried | src/utf8.c:182-240 | Every text of a parsed tree is well-formed UTF-8 without U+0000, every number a lexeme of the grammar |
| CanonicalForm.RoundTrip | src/serialize.c:275-296 | The sorted serialization of a tree, in every style, reads back as the sorted tree |
| CanonicalForm.CanonicalIdempotent | src/serialize.c:275-296 | Canonicalizing what was read from any presentation of a tree gives its canonical bytes again |
| CanonicalForm.CanonicalIgnoresOrder | src/serialize.c:157-220 | Trees equal up to member order have the same canonical bytes |
| CanonicalSize.NeverLonger | tests/reference_canonical.h:72-74 | The canonical form, newline aside, is never longer than any source of the tree |
| CanonicalSize.StreamsIsReference | tests/reference_canonical.h:61-110 | For every accepted text the streaming conditions hold exactly when copy, sort, print and compare would say yes |
| LinkedTable.AddShape | src/internal.h:29-49 | Appending a tree stores it in preorder with exact parent, first, last, next and count links, touching only its parent and last sibling before it |
| LinkedTable.BuiltTable | src/parser.c:60-81 | A table built from one value is that tree in preorder, every parent before its children |
| LinkedTable.ParentIsExact | src/internal.h:29-49 | A cell whose parent link names a container is one of that container's children |
| LinkedTable.InTableFrame | src/internal.h:40-49 | A stored tree depends on its own cells only |
| Keyset.ComputeCapacity | src/keyset.c:55-61 | A power of two, at least twice the expected keys |
| Keyset.LeastCapacity | src/keyset.c:55-61 | and the least power of two from eight on that is |
| Keyset.EmptyMeansAbsent | src/keyset.c:25-42 | An empty slot after a run of other keys proves the key is not stored |
| Keyset.FindSlot | src/keyset.c:25-42 | The probe ends, finds exactly the stored keys, and otherwise the free slot that ends an unbroken run |
| Keyset.Rehash | src/keyset.c:91-115 | Moving every index to a larger table keeps the same map and the same number of keys |
| Keyset.Keys.Contains | src/keyset.c:83-89 | Membership in the table is membership in the map |
| Keyset.Keys.Grow | src/keyset.c:91-115 | Growth doubles and keeps the map, and leaves everything alone when it fails |
| Keyset.Keys.Insert | src/keyset.c:117-156 | Insertion refines map update: DUPLICATE_KEY exactly for known keys, the previous index returned, load at most one half |
| Keyset.ValidFrame | src/keyset.c:18-23 | The set stays exact while its owner changes anything but the keys of stored indices |
| TokenTable.RoseSize | src/parser.c:60-81 | A value takes as many tokens as the reader charges for it |
| TokenTable.IndexedKey | src/parser.c:141-154 | After a key the set maps it to its latest token and exactly the earlier holders are superseded |
| ParserLemmas.KeysOfObject | src/parser.c:141-154 | While an object is open the key set holds exactly the keys of its members so far |
| ParserLemmas.ObjectDuplicatesSnoc | src/parser.c:145-150 | Duplicates of an object grow by the key's repeat and the value's own duplicates |
| Parser.Document.ArenaClaim | src/parser.c:53-58 | Its precondition is the assertion that the arena never runs out, met at every call |
| Parser.LinkChild | src/internal.h:40-49 | Linking in place is the attach operation of the table |
| Parser.Parser.AddToken | src/parser.c:60-81 | LIMIT exactly at capacity, else the next cell under its parent |
| Parser.Parser.ScanStringBody | src/parser.c:83-106 | The loop finds the reader's closing mark or bad byte |
| Parser.Parser.ReadLiteral | src/parser.c:108-140 | Token, text and arena use of a literal, or the reader's error code and offset |
| Parser.Parser.IndexKey | src/parser.c:141-157 | DUPLICATE_KEY exactly for known keys in strict profiles; else one more duplicate exactly then; the set never grows |
| Parser.Parser.ContainerDelimiter | src/parser.c:168-187 | Close, next element or the reader's syntax error |
| Parser.Parser.ParsePrimitive | src/parser.c:273-315 | The reader's value or error for a literal word or number |
| Parser.Parser.ParseMember | src/parser.c:211-227 | One member as the reader reads it, its key and value tokens added, duplicates counted |
| Parser.Parser.ParseObject | src/parser.c:189-232 | The object's tree appended to the table, or the reader's error |
| Parser.Parser.ParseArray | src/parser.c:234-267 | The array's tree appended to the table, or the reader's error |
| Parser.Parser.ParseValue | src/parser.c:317-334 | The table gains exactly the tree the reader reads, duplicates included, keys stay at most half of the tokens; on error the reader's code and offset |
| Compaction.TagsInTable | src/parser.c:142-151 | In the parsed table a key token is superseded exactly when a later member of its object repeats the key |
| Compaction.SurvivorIsPruned | src/parser.c:380-400 | What the walk keeps of a source tree is its pruned tree |
| Compaction.Packed.Copy | src/parser.c:366-379 | A token keeps content and type under its new parent, inside the room that was counted |
| Compaction.CompactWalk | src/parser.c:364-401 | Both passes visit the same tokens: the copy writes exactly the tokens and arena bytes sized, as the survivors' tree |
| Children.ChildrenOfTree | src/parser.c:338-359 | A stored tree of n cells has n - 1 child entries |
| Children.ChainIsKids | src/parser.c:350-354 | The sibling chain lists a container's children in order and then ends |
| Children.BuildChildren | src/parser.c:338-359 | Every chain is laid out contiguously and all but one slot is filled |
| Children.ChildAt | src/document.c:53-58 | The entry at a position is the child at that position |
| ParseBudget.ParseAllocationBound | src/parser.c:428-464 | The announced bound, or LIMIT exactly when it does not fit size_t |
| ParseBudget.BudgetFigures | src/parser.c:428-464 | The announced bound in figures: record, input, tables, arenas, slots and child list |
| ParseBudget.TextsFit | src/parser.c:473-480 | All texts of a published tree fit one arena byte per input byte and one per token |
| ParseBudget.PrunedTexts | src/parser.c:403-426 | Pruning never needs more text or more tokens |
| DocumentParse.AllocateDocument | src/parser.c:466-495 | All blocks or none, whatever is refused |
| DocumentParse.ParseText | src/parser.c:525-533 | The whole text read as the reader does, trailing bytes refused, the key set never grown |
| DocumentParse.CompactDocument | src/parser.c:403-426 | The table becomes the pruned tree in blocks of exact size; a refusal changes nothing |
| DocumentParse.FinishDocument | src/parser.c:541-546 | Published document of the pruned tree with its children laid out |
| DocumentParse.PackedFits | src/parser.c:440-459 | What compaction allocates fits the blocks of the first parse, and only last-wins texts need it |
| DocumentParse.DefaultLimits | src/common.c:49-76 | Parsing with zero limits gives the verdict of 65535 bytes, depth 32 and 8192 tokens |
| DocumentParse.VerdictMeans | src/parser.c:497-523 | ARGUMENT, LIMIT or reading is decided by those figures before any byte is read |
| DocumentParse.ParseAccepts | src/parser.c:497-562 | A document parses as a tree exactly when limits are served, the input is within them, the grammar derives it and height, entries and key uniqueness fit |
| DocumentParse.Parse | src/parser.c:497-562 | Without refusals the reader's verdict, tree and duplicate count, MEMORY exactly with one; always, peak heap within the announced bound and nothing kept on failure |
| DocumentApi.RootShows | src/document.c:27-30 | The root handle stands for the published tree, which repeats no key |
| DocumentApi.Finished.ObjectGet | src/document.c:60-84 | A key is found exactly when the object has it, and with distinct keys the member is the only one |
| DocumentApi.Finished.ObjectMemberAt | src/document.c:113-139 | Key and value of the member at a position, RANGE exactly past the end |
| DocumentApi.Finished.ArrayGet | src/document.c:157-174 | The element at a position, RANGE exactly past the end |
| DocumentApi.Finished.ValueU64 | src/document.c:239-257 | The integer the lexeme spells exactly from 0 to 2^64 - 1, else RANGE or NOT_INTEGER by its leading digits and sign |
| DocumentApi.Finished.ValueI64 | src/document.c:259-282 | The integer the lexeme spells, sign included, exactly from -2^63 to 2^63 - 1, else RANGE or NOT_INTEGER by its leading digits |
| CanonicalCheck.Cursor.Expect | src/canonical.c:36-43 | Consumes the text exactly when it comes next |
| CanonicalCheck.Cursor.ExpectString | src/canonical.c:56-69 | Consumes exactly the canonical literal of the text |
| CanonicalCheck.Cursor.ExpectNumber | src/canonical.c:74-100 | Yes exactly for an integral in-range lexeme spelled as it is rendered |
| CanonicalCheck.Cursor.ExpectObject | src/canonical.c:109-139 | Yes exactly when keys rise, numbers are in the domain and the canonical bytes come next |
| CanonicalCheck.Cursor.ExpectArray | src/canonical.c:141-157 | The same for arrays |
| CanonicalCheck.Cursor.ExpectValue | src/canonical.c:159-183 | The same for every value, leaving the cursor right after the canonical bytes |
| CanonicalCheck.IsCanonical | src/canonical.c:185-206 | The streaming answer is the reference answer for every parsed document and both newline settings |
| Nodes.SoundTree | src/writer.c:102-143 | A sound node tree stands for a tree the profile carries, without repeated keys |
| Nodes.WrittenScalars | src/writer.c:284-411 | A written scalar is the text, lexeme, boolean or null it was given, an integer spelled by its value |
| Nodes.WrittenContainer | src/writer.c:102-143 | A container holds its children in the order written, members under the keys given |
| KeySort.MergePermutes | src/serialize.c:140-155 | Merging loses and adds nothing |
| KeySort.MergeAscends | src/serialize.c:140-155 | Merging two ascending runs gives an ascending run |
| KeySort.SortPermutesIndices | src/serialize.c:157-167 | Merge sort permutes |
| KeySort.SortAscends | src/serialize.c:157-167 | Merge sort leaves keys ascending |
| KeySort.MergeKeys | src/serialize.c:140-155 | In place: the range becomes the merge of its runs, the rest is untouched |
| KeySort.SortKeys | src/serialize.c:157-167 | In place: the range becomes its merge sort, the rest is untouched |
| KeySort.SortedIndices | src/serialize.c:157-220 | Sorting child indices by key is sorting members by key |
| Serializer.Serializer.Reserve | src/serialize.c:21-40 | LIMIT exactly past the maximum; growth ends, never overflows and keeps the content |
| Serializer.Serializer.Append | src/serialize.c:42-56 | The piece follows the content, or LIMIT because it would not fit |
| Serializer.Serializer.AppendBreak | src/serialize.c:67-76 | Newline and indentation of the level, nothing in compact form |
| Serializer.Serializer.AppendString | src/serialize.c:85-116 | The literal of the text follows, with all bytes above ASCII escaped under the ASCII flag |
| Serializer.Serializer.SerializeArray | src/serialize.c:222-249 | The printed array appended, or LIMIT exactly when it would pass the maximum |
| Serializer.Serializer.SortedChildren | src/serialize.c:178-193 | The object's child indices in key order |
| Serializer.Serializer.SerializeObject | src/serialize.c:172-220 | The printed object with members in key order appended, or LIMIT exactly when too long |
| Serializer.Serializer.SerializeNode | src/serialize.c:251-273 | The printed sorted value appended, or LIMIT exactly when too long |
| Serializer.Serialize | src/serialize.c:275-296 | MEMORY exactly after a refusal, LIMIT when the whole text exceeds maximum_bytes, else that text, all ASCII under the ASCII flag |
| AsciiForm.OutputIsAscii | src/serialize.c:85-116 | Under the ASCII flag every byte of the whole serialization is at most 0x7F |
| WriterState.KeyIsNew | src/writer.c:126-133 | A pending key is not in the key set, so the assertion after its insertion never fires |
| WriterState.KeysWithinNodes | src/writer.c:126-133 | The set never holds more keys than there are nodes |
| WriterState.NamesHere | src/writer.c:261-267 | The key set answers exactly for the members of the open object |
| WriterState.PlaceKeeps | src/writer.c:102-143 | Attaching a scalar keeps stack, table, pending key and key index in agreement |
| WriterState.OpenKeeps | src/writer.c:197-213 | So does opening a container |
| WriterState.CloseKeeps | src/writer.c:215-227 | Closing one changes no node and keeps the agreement |
| WriterState.FailureIsSticky | src/writer.c:19-37 | Over any run of calls a writer that failed or finished never changes again, whatever is called |
| WriterState.AttachedIsStep | src/writer.c:102-143 | Every attaching call is a step of such a run |
| WriterState.RejectedIsStep | src/writer.c:19-27 | So is every refused call |
| WriterState.TokensWithinNodes | src/writer.c:73-93 | A reader charges less than twice the nodes the writer counted |
| WriterState.LinkNode | src/internal.h:40-49 | Linking the new node in place is the attach operation of the table |
| Writer.Writer.constructor | src/writer.c:145-175 | A new writer is empty, ready and in agreement with its empty table |
| Writer.Writer.GrowNodes | src/writer.c:73-93 | LIMIT exactly at maximum_tokens, else room for one more node |
| Writer.Writer.AttachNode | src/writer.c:102-143 | STATE exactly where no value may go, LIMIT at the token limit, MEMORY exactly after a refusal, else one linked node that took the pending key |
| Writer.Writer.AttachScalar | src/writer.c:319-333 | A ready writer gains one finished child or a root; every failure sticks |
| Writer.Writer.ContainerBegin | src/writer.c:197-213 | LIMIT at the depth limit first, else a container is opened |
| Writer.Writer.ContainerEnd | src/writer.c:215-227 | The innermost container of that kind is finished, else STATE |
| Writer.Writer.ValidText | src/writer.c:39-59 | Accepts exactly the text the profile carries |
| Writer.Writer.WriteKey | src/writer.c:245-274 | DUPLICATE_KEY exactly for a member that exists; ARGUMENT changes nothing; the order of all checks |
| Writer.Writer.WriteString | src/writer.c:284-309 | The text becomes a value, or the first check that fails |
| Writer.Writer.WriteInteger | src/writer.c:335-356 | An integer of 64 bits becomes a number value |
| Writer.Writer.WriteLexeme | src/writer.c:362-389 | A lexeme of the grammar becomes a number value, anything else is ARGUMENT |
| Writer.Writer.WriteNumberText | src/writer.c:391-395 | ARGUMENT exactly beyond 64 bytes or outside the grammar, and then nothing changes |
| Writer.Writer.WriteBoolean | src/writer.c:397-406 | A boolean becomes a value |
| Writer.Writer.WriteNull | src/writer.c:408-411 | A null becomes a value |
| Writer.Writer.CopyNumber | src/writer.c:413-441 | The written number prints the normal form of the lexeme; with room only RANGE or memory stops it |
| Writer.Writer.CopyArray | src/writer.c:472-490 | The array's copy placed as one value with "-0" written as 0 |
| Writer.Writer.CopyObject | src/writer.c:447-470 | The object's copy placed as one value, keys and order kept |
| Writer.Writer.CopyValue | src/writer.c:492-519 | The normalized subtree placed; with room for it a copy fails only for a number out of range or memory |
| Writer.Writer.CopyFailed | src/writer.c:524-531 | A copy that broke off leaves a failure, STATE for ARGUMENT |
| Writer.Writer.WriteValue | src/writer.c:533-545 | With room a copy succeeds exactly when every number is in range and no request was refused; a failed one leaves the writer failed |
| Writer.Writer.ObjectBeginExcept | src/writer.c:558-595 | The open object holds exactly the normalized members whose keys are not excluded, in order |
| Writer.Writer.Finish | src/writer.c:597-615 | STATE exactly when something is open, pending or missing; else the sorted text of the built tree, all ASCII under the flag, or LIMIT when too long; MEMORY exactly after a refusal |
| Writer.FinishedReadsBack | src/writer.c:597-615 | Finished text, in every style, is read back as the built tree in key order by a reader with the same depth and twice the tokens |
| CopyRoom.RoomForItem | src/writer.c:481-488 | Room for the rest of an array is room for its next element |
| CopyRoom.RoomForMember | src/writer.c:456-467 | Room for the rest of an object is room for its next member, whose key is new |
| ReferenceCheck.IntegersAreWhole | tests/reference_canonical.h:19-59 | The canonical numeric domain is the numbers without fraction or exponent that a copy can carry |
| ReferenceCheck.InputBounds | tests/reference_canonical.h:72-78 | The input size bounds every text and the node count of the copy |
| ReferenceCheck.HoldsNonIntegralNumber | tests/reference_canonical.h:19-59 | Finds a fraction or exponent exactly when there is one |
| ReferenceCheck.ReferenceIsCanonical | tests/reference_canonical.h:61-110 | Unless a request is refused the slow check answers for every accepted text, and its answer is the streaming one |
| PointerScan.ValueTrace | src/pointer.c:109-157 | Rescanning a value the reader accepted leaves the frames as they were; where it stopped, the frames are its path |
| PointerScan.ScanRediscovers | src/pointer.c:109-157 | The frames before an error are the reader's open containers with their current key or index |
| Pointer.PathIsNamed | src/pointer.c:45-72 | Read by RFC 6901 the emitted text gives back every key and index of the path |
| Pointer.EscapedNames | src/pointer.c:45-58 | The escapes of section 5 of RFC 6901: a slash is `~1`, a tilde `~0` |
| Pointer.PointerNamesError | src/pointer.c:159-190 | For every refused text the pointer emitted from the frames is that of the reader's path |
| PointerMeaning.ValueNames | src/pointer.c:109-157 | Wherever a value is refused its path names the value that spans the offset in any completion |
| PointerMeaning.PointerNamesValue | src/pointer.c:159-190 | In every accepted text without repeated keys that shares the bytes before the error, and closes no array there, the pointer resolves to the value that spans the offset |
| ErrorPointer.SkipString | src/pointer.c:101-107 | Ends just past the closing mark, or at the end of the input |
| ErrorPointer.Scan | src/pointer.c:109-157 | The frame stack updated in place is that of the scan on values |
| ErrorPointer.Emitter.EmitToken | src/pointer.c:45-58 | A slash and the escaped token |
| ErrorPointer.Emitter.EmitIndex | src/pointer.c:60-72 | A slash and the decimal digits of the index |
| ErrorPointer.Emitter.EmitFinish | src/pointer.c:36-43 | The buffer holds as much as fits, terminated |
| ErrorPointer.EmitKey | src/pointer.c:74-88 | The decoded key where it decodes, its bytes where it does not |
| ErrorPointer.ComputeErrorPointer | src/pointer.c:159-190 | Length of the whole pointer and a buffer cut to it, for any error offset |
| ErrorPointer.PointerOfParseError | src/pointer.c:159-190 | For an error of the parser the buffer holds the pointer of the value under construction |

## Left out

- File input and output (`src/stdio.c`), the command-line tools, `src/helpers.c`, version strings and error formatting.
- Line and column of an error: only its code and byte offset are modelled.
- `start` and `end` of a token: the parser writes them and nothing reads them.
- The arena as bytes: it is a counter with the proof that claims fit; texts are sequences held by their tokens.
- The token, node and packed tables as C arrays: they are sequences whose length is checked against the capacity
  before every append, so relocation by `realloc` and stale pointers are not modelled.
- The FNV constants of the hash: any deterministic function of the key takes their place, with a remainder for the mask.
- NULL pointers and unknown flag bits, except the profile and limit checks that decide ARGUMENT.
- Release of a writer, thread safety and stack use in bytes.
- The writer's ArrayBegin, ArrayEnd and ObjectEnd calls: one-line calls of ContainerBegin and ContainerEnd.
- Accessors for strings, booleans, sizes and types: reads of one token field after the checks of `TokenOf`.
- The two passes of compaction recurse on the stored tree, so the depth of the C stack is not modelled.
- Parser.Parser.ParseString: states nothing about the document after a failed parse; it is released without being read.
