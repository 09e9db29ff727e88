# Huffman coding compressor, modelled in Dafny

A model of `huffman_coding.py`, a static Huffman compressor and
decompressor. Compressing a text takes these steps:

- count the characters;
- sort them by descending (count, character);
- build the tree by repeatedly merging the two last (lightest) nodes and
  re-inserting the merged node at the first position whose value is not
  above its own;
- read each character's code off the tree (`child1` adds `0`, `child2` adds
  `1`);
- write the code table as bytes, with the divider byte 128 for each `:`
  separator that is followed by a code (a lone character's trailing `:`
  is dropped, `KeyTable.LoneKey`);
- write a zero byte, the encoded text padded with zeros to a byte
  boundary, and a trailer byte holding the pad count.

Decompressing reverses this:

- render every byte as eight bits;
- parse the table up to the first zero byte;
- pop the trailer and strip the padding from the last payload item;
- walk the remaining bits greedily through the table.

Bit strings are sequences of the characters `'0'` and `'1'`, as in the
program. Characters are `Octet`s (a `char` below 256). File bytes are
`Byte`s (0..255). The failures the program raises as Python exceptions
are `Result.Err` values.

What the code does at its edges, and how the model treats it:

- An empty text fails at `nodes[0]` (line 107); `Compress` returns
  `Err(EmptyText)`.
- A text of one repeated character gets the code `""` and an empty
  payload, and does not decompress (`Huffman.SingleSymbolFails`). The
  exception is a text made only of `chr(0)`: it is written as the file
  `[0, 0, 0]`, which silently decompresses to the empty text
  (`Huffman.ZeroTextDecodesEmpty`).
- The initial list is sorted by (count, character). Each merged node is
  then inserted by value alone, before the first node whose value is not
  above its own (`HuffmanTree.InsertionPoint`).
- The bytes 0, `0`, `1` and 128 are markers to the table parse. A text
  character with one of those values is read as a marker, not as a
  character (`Decoder.ClassifyItem`).
- The slice at line 245 discards the whole last payload byte when the
  padding is zero (see "## Findings"). `Decoder.Decompress` models that
  line as written. `Decoder.DecompressCorrected` strips no bits when the
  padding is zero. `Huffman.RoundTrip` and `Huffman.FileRoundTrip` are
  about the corrected decompressor. `Huffman.RoundTripAsWritten` and
  `Huffman.AsWrittenRoundTripIff` are about the decompressor as written.
- A missing trailer or payload is an index error (`Results.Failure`).
  Bits left over at the end of the walk are dropped silently
  (`Decoder.Walk`).

Modules follow the compressor's stages:

- `Bits`: renderings of values as bit strings and back.
- `Frequency`: the character dictionary and its sort.
- `HuffmanTree`: the node list and the build loop.
- `CodeBook`: `generate_binary`, the code dictionary, the text encoding.
- `KeyTable`: the table text and its byte encoding.
- `Framing`: padding, trailer, chunking into bytes, and the decompressor's
  rendering of bytes.
- `Decoder`: the table parse, the padding strip and the greedy walk.
- `Huffman`: compression and decompression end to end, the round trip and its
  failure cases.

## Model

| member | source | states |
|---|---|---|
| Bits.ToBinary | huffman_coding.py:32-39 | `convert_to_binary_string(v, n)` returns exactly `n` characters, each `0` or `1` |
| Bits.Value | huffman_coding.py:184 | `int(s, 2)`, the binary value of a bit string: it inverts the fixed-width rendering (`Bits.ValueOfToBinary`, `Bits.ToBinaryOfValue`) and is below 2^n on n bits (`Bits.ValueBound`) |
| Bits.ValueOfToBinary | huffman_coding.py:32-39 | a value below 2^n rendered at width n reads back (`int(s, 2)`) as the same value |
| Bits.ToBinaryOfValue | huffman_coding.py:32-39 | rendering the value of any bit string at its own width gives that bit string back |
| Bits.ToBinaryInjective | huffman_coding.py:32-39 | two values below 2^n render to the same n bits if and only if they are equal |
| Bits.ValueBound | huffman_coding.py:184 | `int(s, 2)` of an n-bit string is below 2^n, so every eight-bit chunk is a byte |
| Bits.CharFromBinary | huffman_coding.py:41-46 | the loop with weights 2^(7-i) reads its input as if zero-filled on the right to eight bits; the result lies in 0..255 and equals `int(s, 2)` for eight-bit input, so it inverts `convert_to_binary_string(v, 8)` |
| Bits.MinimalBinary | huffman_coding.py:209 | `bin(n)[2:]`, the digits of n without leading zeros; it reads back as n (`Bits.MinimalBinaryValue`) |
| Bits.ZFill | huffman_coding.py:209 | `.zfill(width)`, zeros added on the left up to the width; with `bin` it renders every byte as the compressor does (`Bits.ByteToBitsAgrees`) |
| Bits.ByteToBits | huffman_coding.py:207-209 | the decompressor's rendering `bin(int(hexlify(byte), 16))[2:].zfill(8)` of one byte; equal to `convert_to_binary_string(b, 8)` (`Bits.ByteToBitsAgrees`) |
| Bits.MinimalBinaryValue | huffman_coding.py:209 | `bin(n)[2:]` reads back as n and has at most k digits when n < 2^k |
| Bits.ByteToBitsAgrees | huffman_coding.py:209 | the decompressor's `bin(b)[2:].zfill(8)` and the compressor's `convert_to_binary_string(b, 8)` render every byte identically |
| Frequency.Bump | huffman_coding.py:60-64 | one counting step adds one to the count of its character, adds the character as a key when it is new, leaves every other count alone and raises the total by one |
| Frequency.Tally | huffman_coding.py:58-64 | after the loop every character of the text is a key, there are no other keys, no key is repeated, each count is the number of occurrences, and the counts sum to the text length |
| Frequency.TallyCounts | huffman_coding.py:58-64 | every entry's count is its character's number of occurrences, at least one |
| Frequency.Above | huffman_coding.py:68 | the order of `key=(v, k), reverse=True`: a greater count, or the same count and a greater character; the sort follows it (`Frequency.SortEntriesDescending`, `Frequency.DescendingUnique`) |
| Frequency.InsertEntry | huffman_coding.py:68 | inserting into the sorted list adds exactly the entry (multiset) |
| Frequency.InsertEntryDescending | huffman_coding.py:68 | inserting an entry with a new character keeps the list strictly descending by (count, character) |
| Frequency.SortEntries | huffman_coding.py:68 | the sort is a permutation of the dictionary's entries |
| Frequency.SortEntriesSyms | huffman_coding.py:68 | the sort keeps the multiset of characters |
| Frequency.SortEntriesTotal | huffman_coding.py:68 | the sort keeps the sum of the counts |
| Frequency.SortEntriesDescending | huffman_coding.py:68 | with distinct characters the sorted list is strictly descending by (count, character), as `key=(v, k), reverse=True` orders it |
| Frequency.DescendingUnique | huffman_coding.py:68 | two strictly descending arrangements of the same entries are equal, so the insertion sort yields exactly Python's `sorted` list |
| Frequency.InitialOrder | huffman_coding.py:58-69 | `sorted_list` has one entry per distinct character of the text with its number of occurrences (at least one), is strictly descending, and its counts sum to the text length |
| HuffmanTree.Name | huffman_coding.py:90 | the program's node name: a leaf's character, a merged node's children's names joined; the root names every character (`HuffmanTree.BuildSpec`) and only leaves have one-character names (`HuffmanTree.LeafIffShortName`) |
| HuffmanTree.LeafIffShortName | huffman_coding.py:23 | the program's leaf test `len(name) == 1` holds of exactly the leaves, since merged names concatenate the children's names (line 90) |
| HuffmanTree.InitialNodes | huffman_coding.py:73-78 | one leaf per sorted entry, in the sorted order; non-increasing and weighing the total count (`HuffmanTree.InitialNodesSpec`) |
| HuffmanTree.InitialNodesSpec | huffman_coding.py:73-78 | the initial node list is non-increasing by value, holds only leaves, names the sorted characters in order and weighs the total count |
| HuffmanTree.Merge | huffman_coding.py:89-93 | the merged node of the two popped nodes, `child1` the first popped and value the sum (`HuffmanTree.StepContents`, `HuffmanTree.StepWellFormed`) |
| HuffmanTree.Insert | huffman_coding.py:96-104 | the new node placed where the search stops; the list stays non-increasing and gains exactly that node (`HuffmanTree.InsertKeepsOrder`, `HuffmanTree.InsertMembers`, `HuffmanTree.InsertContents`) |
| HuffmanTree.InsertionPoint | huffman_coding.py:96-101 | the search stops at the first node whose value is at most the new value: every node before it is heavier, and the end of the list means none qualified |
| HuffmanTree.InsertKeepsOrder | huffman_coding.py:96-104 | inserting at that index, or appending, keeps the list non-increasing |
| HuffmanTree.InsertContents | huffman_coding.py:96-104 | inserting adds exactly the new node's value and the new node's name characters |
| HuffmanTree.InsertMembers | huffman_coding.py:96-104 | after inserting, the list holds exactly the old nodes and the new one |
| HuffmanTree.Step | huffman_coding.py:85-104 | one iteration shortens the list by exactly one |
| HuffmanTree.StepContents | huffman_coding.py:85-104 | an iteration puts the merge of the two popped nodes (`child1` first popped, value the sum) into the list and conserves the total value and the characters named |
| HuffmanTree.StepKeepsOrder | huffman_coding.py:83-104 | on a non-increasing list the two pops take the two least values, and the list stays non-increasing |
| HuffmanTree.StepWellFormed | huffman_coding.py:89-93 | after an iteration every merged node's value is still the sum of its children's values |
| HuffmanTree.Build | huffman_coding.py:83-107 | the build loop down to one node: the root weighs the total and names every character (`HuffmanTree.BuildSpec`), and is merged when there were two nodes or more (`HuffmanTree.BuildMerged`) |
| HuffmanTree.BuildSpec | huffman_coding.py:83-107 | the loop ends with a single root, whose value is the total of the initial values and whose name holds every initial character exactly as often |
| HuffmanTree.BuildMerged | huffman_coding.py:83-107 | with two nodes or more the root is a merged node, not a leaf |
| CodeBook.GenerateBinary | huffman_coding.py:20-30 | `generate_binary(start)` yields one pair per leaf, in the order of the node's name; every code extends `start`, strictly so under a merged node |
| CodeBook.GenerateBinaryBranches | huffman_coding.py:26-29 | the codes under `child1` come first and carry `0` right after `start`; the codes under `child2` carry `1` |
| CodeBook.GenerateBinaryPrefixFree | huffman_coding.py:20-30 | no code of the list is a prefix of another |
| CodeBook.ToDict | huffman_coding.py:112-117 | the dictionary's keys are exactly the characters of the pairs |
| CodeBook.ToDictLookup | huffman_coding.py:116-117 | a character maps to the code of its last pair |
| CodeBook.ToDictDistinct | huffman_coding.py:116-117 | with distinct characters every pair is found in the dictionary |
| CodeBook.EncodeText | huffman_coding.py:122-124 | the characters' codes joined in text order; the greedy walk inverts it (`Decoder.WalkText`) and it distributes over concatenation (`CodeBook.EncodeTextAppend`) |
| CodeBook.EncodeTextAppend | huffman_coding.py:122-124 | encoding distributes over concatenation of texts |
| CodeBook.EncodeTextLength | huffman_coding.py:122-124 | with non-empty codes the encoding is at least as long as the text |
| KeyTable.EntriesText | huffman_coding.py:130-132 | `total_key` before its last comma is cut: each entry written as `c:code,` (`KeyTable.KeyTextSplit`) |
| KeyTable.KeyText | huffman_coding.py:130-135 | `total_key`, the entries `c:code` joined by commas (`KeyTable.KeyTextSplit`) |
| KeyTable.EncodeKey | huffman_coding.py:136-149 | the emission loop; on non-empty codes it writes the entries' bytes joined by the comma byte (`KeyTable.KeyShape`), which the parse reads back (`Decoder.ParseKeyOfTable`) |
| KeyTable.KeyTextSplit | huffman_coding.py:130-135 | `total_key` with its last comma cut is the entries `c:code` joined by commas |
| KeyTable.BinaryKey | huffman_coding.py:136-149 | every emission is eight bits, so `binary_key` is a multiple of eight bits long |
| KeyTable.DividerBits | huffman_coding.py:141 | the literal `10000000` is the rendering of byte 128 |
| KeyTable.EncodeDigits | huffman_coding.py:145-149 | each code digit is emitted as its own character byte |
| KeyTable.HeldSeparator | huffman_coding.py:143-148 | a held `:` followed by a non-`:` character is emitted as the divider before that character |
| KeyTable.EncodeEntry | huffman_coding.py:137-149 | an entry with a non-empty code is emitted as its character byte, the divider and its digits, and `::` becomes the byte of `:` followed by the divider |
| KeyTable.KeyShape | huffman_coding.py:130-149 | with non-empty codes `binary_key` renders the entries' bytes (character, divider, digits) joined by the comma byte |
| KeyTable.LoneKey | huffman_coding.py:130-149 | for a lone character with the empty code the trailing held `:` is never emitted, so only the character reaches the key (or `:` and the divider when the character is `:`) |
| Framing.Serialize | huffman_coding.py:149 | each byte is rendered as exactly eight bits |
| Framing.PaddingCount | huffman_coding.py:165 | `padding_count` lies in 0..7, brings the length to a multiple of eight, and is zero exactly when the length already is one |
| Framing.Frame | huffman_coding.py:165-177 | the padded stream with its trailer is byte-aligned, 8 to 15 bits longer than before, and starts with the unpadded stream |
| Framing.Pack | huffman_coding.py:179-187 | the chunking into bytes: `ceil(len/8)` bytes (`Framing.PackLength`), inverse to rendering bytes on byte-aligned streams (`Framing.PackSerialize`, `Framing.SerializePack`) |
| Framing.PackLength | huffman_coding.py:179-187 | the chunking yields `ceil(len/8)` bytes |
| Framing.PackSerialize | huffman_coding.py:179-187 | chunking the rendering of bytes gives the bytes back |
| Framing.SerializePack | huffman_coding.py:179-187 | rendering the chunks of a byte-aligned stream gives the stream back |
| Framing.PackAppend | huffman_coding.py:179-187 | chunking a byte-aligned front separately from the rest changes nothing |
| Framing.Items | huffman_coding.py:203-211 | `binary_list` holds one eight-bit item per file byte, equal to the compressor's rendering of that byte |
| Framing.Flatten | huffman_coding.py:249-251 | the items joined into one bit string; on the items of a file it gives the compressor's rendering back (`Framing.FlattenItems`) |
| Framing.FlattenItems | huffman_coding.py:249-251 | joining the items of a byte list gives the compressor's rendering of those bytes |
| Decoder.Classify | huffman_coding.py:219-236 | the parse's tests on an item: terminator, digit, divider or character; on the bytes they single out only 0, 48, 49 and 128 (`Decoder.ClassifyItem`) |
| Decoder.ClassifyItem | huffman_coding.py:219-236 | the parse's tests on an item agree with tests on the byte it renders: only bytes 0, 48, 49 and 128 are markers, and any other item is the character of its byte |
| Decoder.Scan | huffman_coding.py:218-237 | the parse loop stops at the first `00000000` item, or at the end when there is none |
| Decoder.ParseKey | huffman_coding.py:213-238 | `data_boundary_index` is the index of the first terminator item, or the item count when there is none |
| Decoder.ScanItems | huffman_coding.py:218-237 | parsing the items of a file is parsing its bytes |
| Decoder.ScanStops | huffman_coding.py:218-221 | up to the first zero byte the parse is the plain loop, and the boundary is that byte's index |
| Decoder.NoTerminator | huffman_coding.py:218-221 | a file without a zero byte has its boundary at its end |
| Decoder.Apply | huffman_coding.py:221-236 | one step of the table parse on an item; over a table it files every code under its character (`Decoder.FoldEntry`, `Decoder.NextEntry`, `Decoder.ReadTable`) |
| Decoder.FoldDigits | huffman_coding.py:222-227 | digit items append their bits to `binary_repr` |
| Decoder.FoldEntry | huffman_coding.py:222-236 | the bytes of one entry file the pending pair, if any, and leave the entry's code and character pending |
| Decoder.NextEntry | huffman_coding.py:231-236 | a comma files the pending pair and is itself filed under the empty code, giving the spurious `key_dict[""]` entry |
| Decoder.ReadTable | huffman_coding.py:218-237 | after k entries the first k-1 codes map to their characters, the k-th is pending, and no key other than those codes and the empty code exists |
| Decoder.ParseKeyOfTable | huffman_coding.py:213-240 | on a table of non-marker characters with non-empty distinct codes, the parse stops at the zero byte, maps every code to its character and holds no key other than the codes and the empty code |
| Decoder.Walk | huffman_coding.py:259-265 | the greedy walk; it inverts `EncodeText` (`Decoder.WalkText`) and drops the bits of an unfinished code (`Decoder.WalkPartialCode`) |
| Decoder.WalkCode | huffman_coding.py:259-265 | walking the rest of a code from any point inside it emits its character and resets `curr_repr` |
| Decoder.WalkText | huffman_coding.py:259-265 | when the table maps every code back to its character and no shorter prefix of a code is a key, the greedy walk over the encoding of a text emits exactly that text |
| Decoder.WalkPartialCode | huffman_coding.py:259-265 | walking part of a code emits nothing |
| Decoder.WalkPrefix | huffman_coding.py:259-265 | walking any prefix of the encoding emits a prefix of the text, a proper one unless the walk sees every bit |
| Decoder.StripPaddingAsWritten | huffman_coding.py:245 | the slice `[:-p]` as Python evaluates it keeps a prefix of the item, and with p = 0 keeps nothing |
| Decoder.StripPadding | huffman_coding.py:245 | the strip evidently meant keeps a prefix that is exactly p bits shorter, or the whole item when p = 0 |
| Decoder.StripsAgree | huffman_coding.py:245 | the two strips differ if and only if the padding is zero |
| Decoder.Unpad | huffman_coding.py:244-251 | strip the padding from the last item and join the items; the corrected strip gives back exactly the payload (`Decoder.UnpadPacked`), the strip as written loses the last eight bits of an aligned payload (`Decoder.UnpadAligned`) |
| Decoder.UnpadPacked | huffman_coding.py:244-251 | after the corrected strip, the padded and chunked payload joins back to exactly the payload bits |
| Decoder.UnpadAligned | huffman_coding.py:244-251 | after the strip as written, a byte-aligned payload joins back without its last eight bits |
| Decoder.DecompressBy | huffman_coding.py:200-265 | a file without a zero byte fails at the trailer pop |
| Decoder.DecompressAgree | huffman_coding.py:244-245 | when the trailer byte is not zero the two strips agree, so the decompressor as written and the corrected one return the same result |
| Decoder.Decompress | huffman_coding.py:200-265 | the decompressor as written, line 245 included, fails at the trailer pop on a file without a zero byte |
| Decoder.DecompressCorrected | huffman_coding.py:200-265 | the decompressor with the strip of line 245 corrected fails at the trailer pop on a file without a zero byte |
| Huffman.Tree | huffman_coding.py:58-107 | the root names every distinct character once, weighs the text length and is well-formed |
| Huffman.Codes | huffman_coding.py:110-111 | `binary_characters` has one code per distinct character of the text, no character twice, and forms a prefix code |
| Huffman.CodesNonEmpty | huffman_coding.py:83-111 | with two distinct characters or more every code is non-empty |
| Huffman.CodesLone | huffman_coding.py:107-111 | a text of one repeated character gets the single code `""` |
| Huffman.TwoSymbolCodes | huffman_coding.py:83-111 | with exactly two distinct characters both codes are one bit long |
| Huffman.MostFrequentFirst | huffman_coding.py:68 | the first entry of `sorted_list` is a most frequent character: no character occurs more often |
| Huffman.ThreeLeavesCodes | huffman_coding.py:83-111 | from three leaves the build gives the first leaf a one-bit code and the other two two-bit codes, wherever the merged node is inserted |
| Huffman.ThreeSymbolCodes | huffman_coding.py:58-111 | with exactly three distinct characters every code has one or two bits, and a more frequent character never gets a longer code than a rarer one |
| Huffman.ThreeSymbolDict | huffman_coding.py:110-117 | the same through the code dictionary: every character of the text has a code, and a more frequent one's is no longer |
| Huffman.ThreeSymbolPayload | huffman_coding.py:110-124 | with exactly three distinct characters the encoding takes at most two bits per character |
| Huffman.EncodeTextBound | huffman_coding.py:122-124 | with codes of at most m bits the encoding is at most m bits per character |
| Huffman.CompressionSanity | huffman_coding.py:58-124 | on `aaaaaaaabbbbcc` (`Huffman.SanityLiteral`) the code of `a` is no longer than the code of `c`, and the payload is at most 42 bits |
| Huffman.CodesTransmittable | huffman_coding.py:111 | the codes of a text with two distinct characters or more and no marker character are non-empty and distinct, and no character is a marker, as the table needs (lines 219-228) |
| Huffman.Compress | huffman_coding.py:49-187 | compression fails exactly on the empty text (`nodes[0]`, line 107) and otherwise writes at least two bytes |
| Huffman.Layout | huffman_coding.py:160-187 | the file `compress` writes: table bytes, zero byte, padded payload, trailer (`Huffman.CompressLayout`, `Huffman.FramedFile`) |
| Huffman.FramedFile | huffman_coding.py:160-187 | padding, trailer and chunking give the table bytes, the zero byte, the padded payload's bytes and the pad count |
| Huffman.CompressLayout | huffman_coding.py:128-187 | for two distinct characters or more the file is the table bytes, the zero byte, the padded payload and the trailer |
| Huffman.DecompressLayout | huffman_coding.py:213-251 | on such a file the decompressor finds the table, pops the trailer and walks the stripped payload |
| Huffman.CodesDecodable | huffman_coding.py:213-265 | the parsed table and the encoder's table fit together: every code maps back to its character and no shorter prefix of it is a key |
| Huffman.FileRoundTrip | huffman_coding.py:160-265 | the corrected decompressor reads back a non-empty text from a file carrying its encoding and the table of a prefix code whose characters are not markers and whose codes are non-empty and distinct |
| Huffman.RoundTrip | huffman_coding.py:58-265 | the corrected decompressor gives back the text `compress` wrote, for a text with two distinct characters or more, none of them a marker |
| Huffman.LayoutUnaligned | huffman_coding.py:244-245 | when the encoding is not a multiple of eight bits the decompressor as written and the corrected one agree on the file |
| Huffman.RoundTripAsWritten | huffman_coding.py:58-265 | the decompressor as written gives back the text `compress` wrote when its encoding is not a multiple of eight bits long (same texts as `Huffman.RoundTrip`) |
| Huffman.AsWrittenRoundTripIff | huffman_coding.py:160-245 | on those texts the decompressor as written gives the text back if and only if its encoding is not a multiple of eight bits long |
| Huffman.LoneCompress | huffman_coding.py:111-187 | a text of one repeated character is written as its table entry, the zero byte and the trailer 0, with no payload |
| Huffman.SingleSymbolFails | huffman_coding.py:244-245 | decompressing a text of one repeated character fails with either strip: no payload item is left once the trailer is popped |
| Huffman.WalkNoCodes | huffman_coding.py:259-265 | a table without a non-empty code makes the walk emit nothing, whatever the bits |
| Huffman.ZeroFileTable | huffman_coding.py:203-238 | the file `[0, 0, 0]` renders as three zero items, and its table ends at the first of them holding only the empty code |
| Huffman.ZeroFileDecodes | huffman_coding.py:213-265 | the file `[0, 0, 0]` decompresses to the empty text with either strip: the table ends at once, the trailer is 0, and the one payload item walks to nothing |
| Huffman.ZeroTextDecodesEmpty | huffman_coding.py:58-265 | a text made only of `chr(0)` is written as `[0, 0, 0]` and decompresses, with either strip, to the empty text rather than failing |
| Huffman.FileLosesText | huffman_coding.py:245 | the decompressor as written returns a proper prefix of the text when the encoding is byte-aligned |
| Huffman.AsWrittenLosesText | huffman_coding.py:245 | for every text whose encoding is a multiple of eight bits long, the decompressor as written returns a proper prefix of the text |
| Huffman.EightOfTwo | huffman_coding.py:245 | on eight characters drawn from two non-marker characters the decompressor as written returns nothing, and the corrected one returns the text |
| Huffman.PaddingZeroExample | huffman_coding.py:245 | on `abababab` the decompressor as written returns the empty text, and the corrected one returns `abababab` |

## Left out

- File reading and writing, the `print` diagnostics, `Node.nprint` and the
  `main` dispatch (lines 12-18, 49-56, 188-198, 201-202, 204-206, 210,
  212, 258, 263, 266-281). These are I/O only. The byte rendering inside
  the reading loop (lines 203, 207-209, 211) is modelled by
  `Framing.Items`. `Compress` takes the text and returns the
  bytes. `Decompress` and `DecompressCorrected` take the bytes and return
  the decoded text instead of writing it.
- The compression ratio (line 196): floating-point display only.
- The `extracted_key` loop (lines 151-155): its result is never used.
- Python 2 `str` versus bytes: every character is an octet.
- The order of the `chars` dictionary, which Python 2 leaves arbitrary.
  It is an association list in order of first occurrence. The sort at
  line 68 erases that order, since a strictly descending arrangement is
  unique (`Frequency.DescendingUnique`).
- Node names. A node is a leaf or a merged node by constructor.
  `HuffmanTree.Name` recovers the program's names, and
  `HuffmanTree.LeafIffShortName` ties the two leaf tests together.
- HuffmanTree.Build: that the greedy merge gives codes of minimum expected
  length is not proved. Proved instead: each iteration pops the two least
  values (`HuffmanTree.StepKeepsOrder`), and with exactly three distinct
  characters a more frequent character never gets a longer code
  (`Huffman.ThreeSymbolCodes`, with `aaaaaaaabbbbcc` in
  `Huffman.CompressionSanity`). For four characters or more the relation
  between frequency and code length is not stated.
- The test `padding_count < 8` (line 168) and the later `padding_count % 8`
  (line 172) always hold or change nothing, so `Framing.Frame` omits them.
- Huffman.RoundTrip: proved for the corrected decompressor, and only for
  texts with two distinct characters or more, none of them a marker
  character. On the same texts `Huffman.AsWrittenRoundTripIff` settles the
  decompressor as written.
  - The marker characters are `chr(0)`, `0`, `1` and `chr(128)`, the bytes
    the table parse takes for markers.
  - One repeated character fails to decompress; `Huffman.SingleSymbolFails`
    covers this case.
  - Texts containing marker characters are not analysed. Their tables can
    decode wrongly.
- Huffman.SingleSymbolFails: excludes the text made of `chr(0)` only. Its
  table byte is itself the terminator, and it decompresses to the empty
  text without an error (`Huffman.ZeroTextDecodesEmpty`).
- Huffman.AsWrittenLosesText: stated under the same preconditions as
  `Huffman.RoundTrip`.
- Huffman.RoundTripAsWritten: stated under the same preconditions as
  `Huffman.RoundTrip`.

## Findings

| source | as written | input that shows it | evidently intended | confidence | as-written member | corrected member |
|---|---|---|---|---|---|---|
| huffman_coding.py:245 | `binary_list[-1][:(padding * -1)]` with padding 0 is `[:-0]`, i.e. `[:0]`, which empties the last payload byte | `abababab`: two one-bit codes, an eight-bit payload and padding 0. The decompressor returns the empty text | strip no bits when the padding is 0 | not executed; proved about the model | Decoder.StripPaddingAsWritten, Decoder.Decompress, Huffman.AsWrittenLosesText, Huffman.PaddingZeroExample | Decoder.StripPadding, Decoder.DecompressCorrected, Huffman.RoundTrip |
