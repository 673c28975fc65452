# A verified model of the codecs of a data-compression demo

The repository is a small web application that shows five ways of making data
smaller, each behind a `compress`/`decompress` (or `quantize`) pair:

- run-length encoding (RLE): a run of n > 1 equal characters becomes the decimal n followed by the character;
- Huffman coding: the text becomes `table|bits`, where `table` is the JSON text of the code table;
- Golomb coding with parameter m = 8, over the UTF-8 bytes of the text;
- LZW: the text becomes a JSON array of dictionary codes;
- a lossy image quantizer that rounds every colour value of an RGBA buffer to a multiple of a step.

The codecs exist three times:

- one class per file in `src/algorithms/`;
- a bundle of the same classes in `src/compression/algorithms.ts`;
- a Python port in `algorithms_py.py`.

The bundle behaves as the single files do, codec by codec:

- RLE is lines 1-39;
- Huffman is lines 42-128;
- Golomb is lines 131-168;
- LZW is lines 171-232;
- the quantizer is lines 235-248.

So one Dafny module models both TypeScript copies; the table below cites the single files. The Python port
differs at the edges (errors where TypeScript yields `undefined`, NaN or a
wrapped byte; `json.dumps` in place of `JSON.stringify`; `split('|', 1)`;
round half to even; no clamping). It has its own modules wherever it differs:
PyGolomb, PyLzw, PyJson with PyHuffman, and PyQuantizer. The Python RLE (`algorithms_py.py:200-234`) is the same pair of loops, so module Rle models it too.

Modules and files:

| file | module | what it holds |
|---|---|---|
| base.dfy | Base | `Option`, `Result`, `Byte` |
| ordered_map.dfy | OrderedMap | a JavaScript `Map` / Python `dict`: a list of entries in insertion order |
| rle.dfy | Rle | RLE (TypeScript and Python) |
| golomb.dfy | Golomb | Golomb coding, `parseInt(_, 2)`, `Uint8Array` |
| python_golomb.dfy | PyGolomb | the Python decoder: `int(_, 2)` and `bytes(...)` |
| lzw.dfy | Lzw | LZW, codes as `Option<int>` (`None` is the JSON `null` of an `undefined` code) |
| python_lzw.dfy | PyLzw | the Python LZW with KeyError, IndexError and ValueError |
| huffman_tree.dfy | HuffmanTree | the tree, the stable sort by frequency, the code table |
| huffman_json.dfy | HuffmanJson | `JSON.stringify` of the code table and `JSON.parse` of such text |
| huffman.dfy | Huffman | frequency table, `compress`, `decompress`, the round trip |
| python_json.dfy | PyJson | `json.dumps` (with `ensure_ascii`) and `json.loads` of the code table |
| python_huffman.dfy | PyHuffman | the Python Huffman codec |
| quantizer.dfy | Quantizer | `ImageData` as a class over an array, `quantize` |
| python_quantizer.dfy | PyQuantizer | the Python quantizer over a list |

Each loop of the source is a method proved equal to a specification function,
for example `Rle.Compress` and `Rle.Encode`. The properties are lemmas about
those functions. Strings are sequences of code points. `for … of` and Python
iteration visit code points; the TypeScript RLE and Golomb decoders index
UTF-16 code units, which are the same on text without characters beyond
U+FFFF (see "Left out"). JavaScript numbers are integers or NaN
here, and a `Map` is a list of entries in insertion order.

## Model

| member | source | states |
|---|---|---|
| Rle.Compress | src/algorithms/RLECompressor.ts:2-16 | the loop computes Encode: each maximal run, in order, as its length in decimal (when above 1) followed by the character |
| Rle.CompressStep | src/algorithms/RLECompressor.ts:7-14 | one iteration either extends the current run or flushes it as a token and starts a new run |
| Rle.CompressEnds | src/algorithms/RLECompressor.ts:15 | when the loop ends, the text gathered is the whole encoding |
| Rle.RunEndMaximal | src/algorithms/RLECompressor.ts:8 | a run extends while the next character equals the current one and stops before the first that differs |
| Rle.EncodeNoLonger | src/algorithms/RLECompressor.ts:2-16 | the encoding is never longer than the input |
| Rle.DecimalShorterThanCount | src/algorithms/RLECompressor.ts:11 | the numeral of a count k >= 2 is shorter than k, which is why a token saves space |
| Rle.ShortRun | src/algorithms/RLECompressor.ts:11 | a run of 2 to 9 equal characters becomes one digit and the character |
| Rle.Decompress | src/algorithms/RLECompressor.ts:18-38 | the loop computes Decode: digits accumulate into a count, the next character is repeated that many times, a bare character is copied |
| Rle.DecodeAt | src/algorithms/RLECompressor.ts:22-35 | after the digit scan, the three branches (end of input, counted run, bare character) continue the decoding |
| Rle.AppendDigit | src/algorithms/RLECompressor.ts:24-27 | appending a digit to the count multiplies its value by ten and adds the digit |
| Rle.DecodeCountedRun | src/algorithms/RLECompressor.ts:29-31 | digits then a non-digit c decode to c repeated `parseInt(digits)` times, then the rest |
| Rle.DecodeBareChar | src/algorithms/RLECompressor.ts:32-34 | a non-digit without a count is copied |
| Rle.DecodeDropsTrailingDigits | src/algorithms/RLECompressor.ts:29 | digits at the end of the input, with no character after them, are dropped |
| Rle.DecodeToken | src/algorithms/RLECompressor.ts:11 | a token written by compress decodes back to its run |
| Rle.ParseDecimalOfDecimal | src/algorithms/RLECompressor.ts:30 | `parseInt` of the decimal numeral of k is k |
| Rle.RoundTrip | src/algorithms/RLECompressor.ts:1-38 | for an input without decimal digits, decompress(compress(s)) == s |
| Rle.Example | src/algorithms/RLECompressor.ts:2-16 | "aaabbbbcc" compresses to "3a4b2c" |
| Rle.ExampleBack | src/algorithms/RLECompressor.ts:18-38 | "3a4b2c" decompresses to "aaabbbbcc" |
| Rle.MultiDigitExample | src/algorithms/RLECompressor.ts:24-30 | a count of several digits ("12a") is read whole |
| Rle.TrailingDigitsExample | src/algorithms/RLECompressor.ts:29-35 | "2a7" decompresses to "aa": the trailing count is dropped |
| Rle.EmptyInput | src/algorithms/RLECompressor.ts:3 | the empty input compresses and decompresses to the empty string |
| Rle.PythonDemo | algorithms_py.py:240-242 | the Python demonstration "aaabbbcccdddd" compresses to "3a3b3c4d" (the Python compress is the same loop, lines 201-215) |
| Rle.PythonDemoBack | algorithms_py.py:217-234 | "3a3b3c4d" decompresses to "aaabbbcccdddd" |
| Golomb.Ones | src/algorithms/GolombCompressor.ts:11 | `'1'.repeat(n)` is n ones |
| Golomb.PadStart | src/algorithms/GolombCompressor.ts:12 | `padStart` keeps the string at its end and pads to the wanted length |
| Golomb.Bits3 | src/algorithms/GolombCompressor.ts:12 | the remainder is written in exactly three characters |
| Golomb.RemainderBitsIs | src/algorithms/GolombCompressor.ts:12 | `r.toString(2).padStart(3, '0')` is the three-digit binary numeral of r |
| Golomb.CodewordParts | src/algorithms/GolombCompressor.ts:9-12 | the codeword of byte b is b div 8 ones, a zero, then b mod 8 in three binary digits |
| Golomb.CodewordExamples | src/algorithms/GolombCompressor.ts:4-16 | byte 0 becomes "0000" and byte 255 becomes 31 ones and "0111" |
| Golomb.Compress | src/algorithms/GolombCompressor.ts:4-16 | the loop computes Encode, the concatenation of the codewords of the bytes |
| Golomb.EncodeAppend | src/algorithms/GolombCompressor.ts:8-13 | the encoding of a + b is the encoding of a followed by that of b |
| Golomb.EncodeIsBinary | src/algorithms/GolombCompressor.ts:11-12 | the encoding holds only '0' and '1' |
| Golomb.ParseRemainder | src/algorithms/GolombCompressor.ts:32 | `parseInt` with radix 2 reads a three-digit remainder back |
| Golomb.ToUint8 | src/algorithms/GolombCompressor.ts:36 | a `Uint8Array` stores a number in 0..255 unchanged |
| Golomb.NextField | src/algorithms/GolombCompressor.ts:23-31 | the position after a field lies beyond where it started, so the loop moves forward |
| Golomb.OnesEnd | src/algorithms/GolombCompressor.ts:24-27 | the count of ones stops at the first character that is not '1' |
| Golomb.SliceLength | src/algorithms/GolombCompressor.ts:30 | `slice(i, i + 3)` inside the input has three characters |
| Golomb.Decompress | src/algorithms/GolombCompressor.ts:18-37 | the loop computes Decode: count ones, skip one character, parse the next three, push q * 8 + r, store as bytes |
| Golomb.DecodeAt | src/algorithms/GolombCompressor.ts:22-34 | one iteration reads one field and resumes four characters after the ones |
| Golomb.FieldsCount | src/algorithms/GolombCompressor.ts:22-34 | each field consumes at least four characters |
| Golomb.DecodeLength | src/algorithms/GolombCompressor.ts:18-37 | decompress yields at most one byte per four characters, rounded up |
| Golomb.TerminatorUnchecked | src/algorithms/GolombCompressor.ts:28 | the character that ends the ones is skipped unread: changing it changes nothing |
| Golomb.CodewordAt | src/algorithms/GolombCompressor.ts:22-34 | a codeword in the input is read as its field, and reading resumes right after it |
| Golomb.FieldValue | src/algorithms/GolombCompressor.ts:33 | the field of byte b has the value b |
| Golomb.RoundTrip | src/algorithms/GolombCompressor.ts:1-37 | decoding the encoding of any byte sequence gives it back |
| Golomb.TruncatedExample | src/algorithms/GolombCompressor.ts:30-36 | a cut stream "110" decodes to byte 0: `parseInt('')` is NaN and the array stores 0 |
| Golomb.CheckedFrom | src/algorithms/GolombCompressor.ts:22-36 | the corrected decoder succeeds exactly when every field has three remainder characters, and then gives the bytes `decompress` gives |
| Golomb.CheckedRoundTrip | src/algorithms/GolombCompressor.ts:1-37 | the corrected decoder reads back every encoding |
| Golomb.CheckedTruncatedExample | src/algorithms/GolombCompressor.ts:30-36 | the corrected decoder refuses the cut stream "110" |
| Golomb.SignedRemainderExample | src/algorithms/GolombCompressor.ts:32-36 | "0-1" decodes to 255: `parseInt('-1', 2)` is -1, wrapped modulo 256 |
| PyGolomb.ParseBinary | algorithms_py.py:35 | `int(s, 2)` of a non-empty binary string is its binary value |
| PyGolomb.EmptyRefused | algorithms_py.py:35 | `int('', 2)` raises |
| PyGolomb.ParseRemainder | algorithms_py.py:18-35 | `int` reads back the three digits `format(r, '03b')` wrote |
| PyGolomb.LiteralExamples | algorithms_py.py:35 | `int` accepts a `0b` prefix, single underscores, surrounding white space and a sign, and refuses "", "1__0" and "0b" |
| PyGolomb.ToBytes | algorithms_py.py:38 | `bytes(...)` succeeds exactly when every value is in 0..255, and keeps the values |
| PyGolomb.Decompress | algorithms_py.py:22-38 | the loop computes Decode: the same fields as TypeScript, each parsed by `int`, the first failure raising ValueError |
| PyGolomb.FailureStops | algorithms_py.py:35 | a field that `int` refuses makes the whole call raise |
| PyGolomb.RoundTrip | algorithms_py.py:10-38 | the Python decoder gives back every byte sequence the encoder wrote |
| PyGolomb.AgreesOnBinary | algorithms_py.py:22-38 | on binary input that Python decodes, TypeScript decodes to the same bytes |
| PyGolomb.TruncatedExample | algorithms_py.py:33-35 | on "110" Python raises where TypeScript yields byte 0 |
| PyGolomb.NegativeExample | algorithms_py.py:35-38 | on "0-1" `bytes` raises where TypeScript wraps to 255 |
| PyGolomb.PrefixExample | algorithms_py.py:35 | "00b1" is byte 1 for Python (`0b1`) and byte 0 for TypeScript |
| Lzw.Seed | src/algorithms/LZWCompressor.ts:6-8 | the first 256 codes are the one-character strings of code 0..255 |
| Lzw.Lookup | src/algorithms/LZWCompressor.ts:18 | `dictionary.get(w)` is the code of w, or undefined when w is not a key |
| Lzw.SeedEncoderMap | src/algorithms/LZWCompressor.ts:3-8 | the seeded Map sends each of the 256 one-character strings to its code and nothing else |
| Lzw.InverseInsert | src/algorithms/LZWCompressor.ts:19 | `dictionary.set(wc, dictSize++)` adds wc as the next code |
| Lzw.Compress | src/algorithms/LZWCompressor.ts:2-29 | the loop computes Encode (before `JSON.stringify`) |
| Lzw.EncoderDictionary | src/algorithms/LZWCompressor.ts:13-22 | the keys stay distinct and each emitted code adds one key |
| Lzw.EncodeBounds | src/algorithms/LZWCompressor.ts:2-29 | at most one code per input character plus one, and at most 256 + n keys |
| Lzw.MatchIsKey | src/algorithms/LZWCompressor.ts:13-22 | for input below 256, the current match w is always a key, and empty only before the first character |
| Lzw.CodesSpellInput | src/algorithms/LZWCompressor.ts:13-26 | the phrases of the emitted codes, in order, spell the input |
| Lzw.DecStep | src/algorithms/LZWCompressor.ts:44-55 | one decoder step fails exactly when the code is neither known nor the next one |
| Lzw.SeedDecoderMap | src/algorithms/LZWCompressor.ts:33-38 | the seeded Map sends each code 0..255 to its one-character string |
| Lzw.Decompress | src/algorithms/LZWCompressor.ts:31-59 | the loop computes Decode (after `JSON.parse`), including the thrown error |
| Lzw.FromCharCode | src/algorithms/LZWCompressor.ts:40 | `String.fromCharCode` of a code below 256 is that character |
| Lzw.DecodeCoded | src/algorithms/LZWCompressor.ts:43-56 | on codes that name phrases, the decoder rebuilds the encoder's dictionary and spells the phrases |
| Lzw.DecoderRebuildsDictionary | src/algorithms/LZWCompressor.ts:31-59 | decoding the codes of an input ends with exactly the encoder's final dictionary |
| Lzw.RoundTrip | src/algorithms/LZWCompressor.ts:1-59 | for a non-empty input of characters below 256, decompress(compress(s)) == s |
| Lzw.DecodeRejects | src/algorithms/LZWCompressor.ts:47-53 | a code that is neither known nor the next one makes decompress throw |
| Lzw.DecodeErrorSticks | src/algorithms/LZWCompressor.ts:52 | once thrown, the error is the result |
| Lzw.CheckedRoundTrip | src/algorithms/LZWCompressor.ts:1-59 | with no codes read as "", decompress(compress(s)) == s for every input of characters below 256, "" included |
| Lzw.EmptyInput | src/algorithms/LZWCompressor.ts:24-40 | "" compresses to `[]`, and `[]` decompresses to "\0" (`fromCharCode(undefined)`) |
| Lzw.RepeatedCharacter | src/algorithms/LZWCompressor.ts:49-50 | "aaa" gives [97, 256], where 256 is the code about to be added, and decodes back |
| Lzw.WideCharacter | src/algorithms/LZWCompressor.ts:18-40 | "Ā" gives [null, 256], which decodes to "\0\0\0" |
| Lzw.NullIffWide | src/algorithms/LZWCompressor.ts:13-26 | a `null` code appears exactly when the input holds a character from 256 on |
| Lzw.WideEmitsNull | src/algorithms/LZWCompressor.ts:18 | an input holding a character from 256 on gets a `null` code somewhere in its output, whether the wide character comes first or after narrow ones |
| PyLzw.Compress | algorithms_py.py:152-172 | the loop computes Encode, or the KeyError `dictionary[w]` raises |
| PyLzw.ErrorSticks | algorithms_py.py:164 | once raised, the error is the result |
| PyLzw.EncodeAgrees | algorithms_py.py:152-172 | Python raises KeyError exactly where TypeScript emits a null, and otherwise gives the same codes |
| PyLzw.KeyErrorIffWide | algorithms_py.py:164-170 | compress raises KeyError exactly when the input holds a character from 256 on |
| PyLzw.Chr | algorithms_py.py:179 | in the model, `chr(n)` is the character n for 0..0x10FFFF outside the surrogates, ValueError out of range and LoneSurrogate for a surrogate |
| PyLzw.Decompress | algorithms_py.py:174-197 | the loop computes Decode: IndexError on `[]`, ValueError on a bad code |
| PyLzw.DecodeAgrees | algorithms_py.py:174-197 | on codes with a first code below 256, Python decodes as TypeScript does |
| PyLzw.RoundTrip | algorithms_py.py:151-197 | for a non-empty input of characters below 256, decompress(compress(s)) == s |
| PyLzw.CheckedRoundTrip | algorithms_py.py:151-197 | with an empty list read as "", decompress(compress(s)) == s for every input of characters below 256, "" included |
| PyLzw.EmptyInput | algorithms_py.py:179 | "" compresses to `[]`, and decompressing `[]` raises IndexError |
| PyLzw.FirstCodeBeyond16Bits | algorithms_py.py:179 | a first code 0x10000 is one character for `chr`, where `fromCharCode` keeps 16 bits |
| PyLzw.ExampleRoundTrip | algorithms_py.py:254-257 | "TOBEORNOTTOBEORTOBEORNOT" round-trips |
| OrderedMap.Get | src/algorithms/HuffmanCompressor.ts:20 | `get(k)` is the value of the entry with key k, or undefined |
| OrderedMap.SetFacts | src/algorithms/HuffmanCompressor.ts:20 | `set` replaces the value of an existing key in place, or appends a new entry |
| OrderedMap.SetAllFresh | src/algorithms/HuffmanCompressor.ts:81 | `new Map(entries)` with distinct keys is those entries, in order |
| Huffman.BuildFrequencyTable | src/algorithms/HuffmanCompressor.ts:16-23 | the loop computes FreqTo, the counts in first-occurrence order |
| Huffman.FreqFacts | src/algorithms/HuffmanCompressor.ts:16-23 | the table has one entry per distinct character, which counts its occurrences |
| Huffman.FreqWeight | src/algorithms/HuffmanCompressor.ts:16-23 | the counts add up to the length of the input |
| HuffmanTree.LeafList | src/algorithms/HuffmanCompressor.ts:26 | one leaf per table entry, in the table's order, with its character and count |
| HuffmanTree.SortFacts | src/algorithms/HuffmanCompressor.ts:29 | the sort by frequency is a permutation and is sorted |
| HuffmanTree.SortStable | src/algorithms/HuffmanCompressor.ts:29 | nodes of equal frequency keep their order (`Array.prototype.sort` is stable) |
| HuffmanTree.Merge | src/algorithms/HuffmanCompressor.ts:28-35 | each round of the loop leaves one node fewer |
| HuffmanTree.MergeLightest | src/algorithms/HuffmanCompressor.ts:29-35 | each round joins two lightest nodes, the lighter on the left |
| HuffmanTree.MergeWeighted | src/algorithms/HuffmanCompressor.ts:32-34 | a parent weighs the sum of its children |
| HuffmanTree.BuildHuffmanTree | src/algorithms/HuffmanCompressor.ts:25-39 | the loop computes BuildTree; the empty table gives null |
| HuffmanTree.BuildTree | src/algorithms/HuffmanCompressor.ts:38 | there is a root exactly when there was a node |
| HuffmanTree.BuildTreeMeasures | src/algorithms/HuffmanCompressor.ts:28-36 | the root weighs the sum of the leaves and holds every leaf of the list |
| Huffman.TreeFacts | src/algorithms/HuffmanCompressor.ts:62-63 | for a non-empty input the root weighs the input length and its leaves are its distinct characters, once each |
| HuffmanTree.CodeTableIsPaths | src/algorithms/HuffmanCompressor.ts:41-56 | when the leaves are distinct, the Map built by the walk is the list of leaf paths, left to right |
| HuffmanTree.PathsKeys | src/algorithms/HuffmanCompressor.ts:41-56 | the code table's keys are the leaves, left to right |
| HuffmanTree.PathsCodes | src/algorithms/HuffmanCompressor.ts:47-53 | every code is non-empty, binary and extends the prefix |
| HuffmanTree.PathsPrefixFree | src/algorithms/HuffmanCompressor.ts:49-53 | no code is a prefix of another |
| HuffmanTree.SingleSymbol | src/algorithms/HuffmanCompressor.ts:47 | a lone leaf gets the code "0" (`prefix \|\| '0'`) |
| Huffman.TableFacts | src/algorithms/HuffmanCompressor.ts:62-64 | the code table has one entry per distinct character, with non-empty, binary, prefix-free codes |
| Huffman.SingleSymbolInput | src/algorithms/HuffmanCompressor.ts:47 | an input of one repeated character gets the table [[c, "0"]] |
| Huffman.TableText | src/algorithms/HuffmanCompressor.ts:71 | `Array.from(codeTable.entries())` is the entries in order |
| Huffman.Compress | src/algorithms/HuffmanCompressor.ts:58-73 | the method computes Encode: "" for "", otherwise the table text, '\|' and the codes of the characters |
| Huffman.PayloadBinary | src/algorithms/HuffmanCompressor.ts:67-69 | the bits are binary and non-empty for a non-empty input |
| HuffmanJson.HexValue | src/algorithms/HuffmanCompressor.ts:81 | a hexadecimal digit has a value below 16 |
| HuffmanJson.Combine | src/algorithms/HuffmanCompressor.ts:81 | the character of a surrogate pair lies beyond U+FFFF, and its high and low ten bits are those of the two surrogates |
| HuffmanJson.SurrogatePairExample | src/algorithms/HuffmanCompressor.ts:81 | `JSON.parse` reads the escapes `\ud83d\ude00` as the one character U+1F600 |
| HuffmanJson.StringRoundTrip | src/algorithms/HuffmanCompressor.ts:71-81 | `JSON.parse` reads back a string that `JSON.stringify` wrote |
| HuffmanJson.PairRoundTrip | src/algorithms/HuffmanCompressor.ts:71-81 | an entry reads back, and reading resumes after it |
| HuffmanJson.TableRoundTrip | src/algorithms/HuffmanCompressor.ts:71-81 | parsing the text of a table gives the table back |
| HuffmanJson.StringifyAvoids | src/algorithms/HuffmanCompressor.ts:71-72 | the text of a table whose strings have no '\|' has none |
| Huffman.BarFrom | src/algorithms/HuffmanCompressor.ts:76 | the first '\|' at or after i, or the end |
| Huffman.Reverse | src/algorithms/HuffmanCompressor.ts:83 | the reverse table swaps each entry, in order |
| Huffman.Decompress | src/algorithms/HuffmanCompressor.ts:75-97 | the method computes Decode, with the split, the empty checks, the parse error and the greedy loop |
| Huffman.EmptyPieces | src/algorithms/HuffmanCompressor.ts:76-78 | no '\|', nothing before the first, nothing after it, or an empty second piece (`a\|\|b`) gives "" |
| Huffman.GreedyThrough | src/algorithms/HuffmanCompressor.ts:88-94 | with a prefix code, the loop emits a character exactly when the bits read end a code |
| Huffman.TrailingBits | src/algorithms/HuffmanCompressor.ts:88-94 | bits after the last complete code, which match no code, add nothing to the output |
| Huffman.PayloadDecodes | src/algorithms/HuffmanCompressor.ts:67-94 | the greedy loop reads the bits of the input back as the input |
| Huffman.PiecesOf | src/algorithms/HuffmanCompressor.ts:76 | `split('\|')` of table + '\|' + bits, neither with a '\|', is the two parts |
| Huffman.TablesOf | src/algorithms/HuffmanCompressor.ts:81-83 | rebuilding the Map and its reverse from the table text gives the table and a prefix code |
| Huffman.RoundTrip | src/algorithms/HuffmanCompressor.ts:58-97 | a non-empty input without '\|' decompresses to itself |
| Huffman.BarInInput | src/algorithms/HuffmanCompressor.ts:71-81 | "\|" compresses to `[["\|","0"]]\|0`, and decompressing that throws a SyntaxError |
| Huffman.LastBar | src/algorithms/HuffmanCompressor.ts:76 | the last '\|' before k, if any |
| Huffman.RoundTripAnyInput | src/algorithms/HuffmanCompressor.ts:58-97 | splitting at the last '\|', every non-empty input decompresses to itself |
| PyJson.Hex4 | algorithms_py.py:105 | the hexadecimal part of a `\u` escape has four characters |
| PyJson.Hex4RoundTrip | algorithms_py.py:105-117 | `json.loads` reads back the four digits `json.dumps` wrote |
| PyJson.Surrogates | algorithms_py.py:105 | a character beyond U+FFFF is written as the escapes of its surrogate pair, which combine back to it |
| PyJson.EscapeStep | algorithms_py.py:105-117 | the escape of any character that is not plain printable ASCII reads back |
| PyJson.StringRoundTrip | algorithms_py.py:105-117 | a string that `json.dumps` wrote reads back |
| PyJson.PairRoundTrip | algorithms_py.py:105-117 | an entry `["k", "v"]` reads back, and reading resumes after it |
| PyJson.LoadsDumps | algorithms_py.py:105-117 | loading the text of a table gives the table back |
| PyJson.DumpsAscii | algorithms_py.py:105 | the text `json.dumps` writes holds only ASCII |
| PyJson.DumpsAvoids | algorithms_py.py:105-106 | the text of a table whose strings have no '\|' has none |
| PyHuffman.Compress | algorithms_py.py:93-106 | the method computes Encode: the tree and table are those of TypeScript; the table text is `json.dumps` |
| PyHuffman.Split | algorithms_py.py:109-111 | `split('\|', 1)` is None exactly without a '\|', and otherwise the text around the first one |
| PyHuffman.Decompress | algorithms_py.py:108-129 | the method computes Decode, with the split, the empty checks, the load error and the greedy loop |
| PyHuffman.EmptyParts | algorithms_py.py:109-115 | no '\|', nothing before it, or nothing after it gives "" |
| PyHuffman.SplitOf | algorithms_py.py:109 | when the table has no '\|', the bits are all the text after it, '\|' included |
| PyHuffman.SplitOnceContrast | algorithms_py.py:109 | on "a\|b\|c" TypeScript's split keeps "b" and Python's keeps "b\|c" |
| PyHuffman.RoundTrip | algorithms_py.py:93-129 | a non-empty input without '\|' decompresses to itself |
| PyHuffman.HelloWorld | algorithms_py.py:247-250 | the demonstration string "hello world" round-trips |
| PyHuffman.BarInInput | algorithms_py.py:105-117 | "\|" compresses to `[["\|", "0"]]\|0`, and decompressing that raises JSONDecodeError |
| PyHuffman.RoundTripAnyInput | algorithms_py.py:93-129 | splitting at the last '\|', every non-empty input decompresses to itself |
| Quantizer.StepBounds | src/algorithms/ImageQuantizer.ts:4 | the step is Infinity exactly for quality 0, otherwise at least 1, and 1 from quality 129 on |
| Quantizer.SliderSteps | src/algorithms/ImageQuantizer.ts:4 | qualities 10..100 give steps 2..25 |
| Quantizer.CheckedStep | src/algorithms/ImageQuantizer.ts:4 | the corrected step refuses exactly the qualities 0 and below; otherwise it is 256 div quality, at least 1 and at most 256, the step `quantize` uses |
| Quantizer.RoundFacts | src/algorithms/ImageQuantizer.ts:6 | `Math.round(v / n)` is the k with n(2k - 1) <= 2v < n(2k + 1) |
| Quantizer.NearestIsRound | src/algorithms/ImageQuantizer.ts:6 | the nearest multiple computed by the model is `Math.round(v / n) * n` |
| Quantizer.SnapFixes | src/algorithms/ImageQuantizer.ts:6 | a multiple of the step is stored unchanged |
| Quantizer.SnapMultiple | src/algorithms/ImageQuantizer.ts:6 | a stored colour is a multiple of the step, or 255 after clamping |
| Quantizer.SnapClose | src/algorithms/ImageQuantizer.ts:6 | a colour moves by at most half a step |
| Quantizer.SnapIdempotent | src/algorithms/ImageQuantizer.ts:6 | quantizing twice is quantizing once |
| Quantizer.QuantizedFacts | src/algorithms/ImageQuantizer.ts:5-10 | alpha is copied, colours move by at most half a step and land on a multiple or 255 |
| Quantizer.HighQualityIdentity | src/algorithms/ImageQuantizer.ts:4-10 | quality from 129 on, or negative, leaves the image unchanged |
| Quantizer.ZeroQuality | src/algorithms/ImageQuantizer.ts:4-9 | quality 0 turns every colour to 0 (NaN in a clamped array) and keeps alpha |
| Quantizer.DefaultQualityExample | src/algorithms/ImageQuantizer.ts:2-10 | the default quality 50 gives step 5; the pixel (10, 250, 5, 255) is kept and a colour 123 becomes 125 |
| Quantizer.PixelsIsProduct | src/algorithms/ImageQuantizer.ts:3 | the pixel count, summed row by row, is width * height |
| Quantizer.ImageData.constructor | src/algorithms/ImageQuantizer.ts:3 | `new ImageData(width, height)` is a fresh transparent black buffer of 4 bytes per pixel |
| Quantizer.Quantize | src/algorithms/ImageQuantizer.ts:2-13 | a fresh image of the same size whose buffer is the quantized buffer |
| PyQuantizer.StepBounds | algorithms_py.py:140 | the step is at least 1, 1 for quality from 129 on or negative, and equal to the TypeScript step |
| PyQuantizer.FloorDivFacts | algorithms_py.py:143 | floor division of a possibly negative value |
| PyQuantizer.RoundHalfEvenFacts | algorithms_py.py:143 | `round` goes to the nearest integer, a half to the even one |
| PyQuantizer.SnapIsRound | algorithms_py.py:143 | the colour is `round(v / step) * step` |
| PyQuantizer.SnapClose | algorithms_py.py:143-145 | a colour moves by at most half a step |
| PyQuantizer.SnapFixes | algorithms_py.py:143-145 | a multiple of the step is kept |
| PyQuantizer.NoClamp | algorithms_py.py:140-143 | at quality 128, 255 becomes 256: nothing clamps |
| PyQuantizer.HalfToEven | algorithms_py.py:143 | 1, 3 and 5 at step 2 become 0, 4 and 4 |
| PyQuantizer.QuantizedFacts | algorithms_py.py:133-148 | the call fails exactly for quality 0 or a length that is not a multiple of 4; otherwise alpha is copied and colours move by at most half a step |
| PyQuantizer.NegativeQualityIdentity | algorithms_py.py:140-146 | a negative quality returns the list unchanged |
| PyQuantizer.CheckedQuantized | algorithms_py.py:133-148 | the corrected quantizer raises ValueError exactly for a quality of 0 or less, and otherwise returns what `quantize` returns |
| PyQuantizer.AgreesWithClamped | algorithms_py.py:143 | for slider qualities, off a halfway point and below 256, Python and TypeScript store the same colour |
| PyQuantizer.Quantize | algorithms_py.py:133-148 | the loop computes Quantized, including both errors |

## Left out

- UTF-8: `TextEncoder.encode`, `TextDecoder.decode`, `str.encode` and `bytes.decode` are not modelled. Golomb works on the bytes. The decoded text, and the replacement characters or UnicodeDecodeError for bad bytes, are not modelled.
- JSON around the LZW codes: `JSON.stringify`/`json.dumps` of a list of integers, and parsing it back, are not modelled. The codes themselves are the input and output. A parsed value that is not an array of integers is not modelled.
- Huffman table text that is valid JSON but not an array of string pairs: `new Map(...)` and `dict(...)` of other values are not modelled. The model's parsers refuse such text as an error.
- HuffmanJson: `JSON.parse` white space between tokens is not accepted. The table text compress writes has none.
- PyJson: the strict-mode details of Python's JSON scanner (control characters inside strings, the C accelerator's handling of odd hexadecimal) are simplified. A lone surrogate is an error, since a Dafny string cannot hold one.
- Lone surrogates in general are not modelled: `String.fromCharCode` or `chr` of a surrogate is the error LoneSurrogate, and a `\u` escape of a surrogate that is not half of a high-low pair is a SyntaxError where `JSON.parse` reads it as a lone surrogate.
- Rle.Compress / Rle.Decompress: the TypeScript class indexes UTF-16 code units, and the model indexes characters. The two agree on text without characters beyond U+FFFF. A surrogate pair split into two runs is not modelled: on "😀😀" TypeScript compress sees four different code units and returns the text unchanged, while the model gives "2😀".
- Golomb.Decompress: the TypeScript loop indexes UTF-16 code units (`input[i]`, `input.slice`), and the model indexes characters. The two agree on text without characters beyond U+FFFF. On "01", U+10000, "1" TypeScript reads the two code units of U+10000 into the first field's remainder and gives bytes [1, 0], while the model gives [1].
- PyGolomb.PyInt2: CPython's `int(s, 2)`, and so PyGolomb.Decompress, also accepts decimal digits of other scripts whose value is 0 or 1 (`int('0١0', 2) == 2`, so "00١0" decompresses to [2]). The model accepts only the ASCII digits 0 and 1 and gives InvalidLiteral otherwise.
- PyQuantizer.Quantize: `v / step` is floating-point division in Python. The model divides exactly, which is the same for colour values 0..255 and any step. A value beyond 2^53 is rounded by the division, and a value beyond about 1.8e308 raises OverflowError; neither is modelled.
- PyLzw.Chr: Python's `chr` of a surrogate (0xD800..0xDFFF) returns a string holding a lone surrogate. A Dafny string cannot hold one, so the model gives LoneSurrogate, which Python does not raise.
- HuffmanTree.BuildTree: the Huffman-code property that a more frequent character never gets a longer code is not proved. It follows from the optimality of merging the two lightest nodes, whose proof is an exchange argument over whole trees that the model does not carry. What is proved is that the codes are prefix-free (PathsPrefixFree), that each step merges the two lightest nodes (MergeLightest, MergeKeepsTree), and that the root weighs the sum of the leaves and holds every leaf (BuildTreeMeasures).
- Rle.Compress / Rle.Decompress: `\d` and Python's `str.isdigit` are modelled as the ASCII digits 0-9. Python's `isdigit` and `int` also take other Unicode digits, which are not modelled.
- Rle.RoundTrip: requires an input without decimal digits, because a digit in the input is read back as a count.
- Lzw.RoundTrip: requires characters below 256. For wider characters compress emits `null`, and NullIffWide and WideCharacter state what happens. It also requires a non-empty input: "" compresses to `[]`, which decompresses to "\0" (Lzw.EmptyInput); the corrected Lzw.CheckedRoundTrip covers "".
- PyLzw.RoundTrip: requires a non-empty input of characters below 256. "" compresses to `[]`, and decompressing `[]` raises IndexError (PyLzw.EmptyInput); the corrected PyLzw.CheckedRoundTrip covers "".
- Quantizer: JavaScript floating point is written with integers. This is exact for integer colours 0..255 and whole steps. A non-integer quality is not modelled.
- Quantizer: the `ImageData` width, height and colour space checks of the browser are not modelled.
- The user interface (`DataCompressionApp.tsx`), timing, and compression ratios shown on screen are not part of this model.
- The Python `HuffmanNode.__lt__` is never called (the sort uses a key) and is not modelled.
- The choice between codecs in the user interface, and its check that compares the compressed data with the input, are not part of this model.
- The Python demonstration's `print` calls are not modelled. Its strings appear as lemmas: Rle.PythonDemo, PyHuffman.HelloWorld and PyLzw.ExampleRoundTrip. The Golomb demonstration "Hello" is covered by PyGolomb.RoundTrip on its UTF-8 bytes.

## Findings

| source | as written | input that shows it | evidently intended | confidence | as-written member | corrected member |
|---|---|---|---|---|---|---|
| src/algorithms/HuffmanCompressor.ts:76 | `input.split('\|')` takes the text before the first '\|' as the table, but the table text holds any '\|' of the input | "\|": compress gives `[["\|","0"]]\|0`, and decompress throws a SyntaxError | every non-empty input round-trips; the codes are binary, so splitting at the last '\|' does it | high; not executed | Huffman.BarInInput | Huffman.RoundTripAnyInput |
| algorithms_py.py:109 | `input_str.split('\|', 1)` cuts at the first '\|', inside the table text when the input holds one | "\|": compress gives `[["\|", "0"]]\|0`, and decompress raises JSONDecodeError | every non-empty input round-trips, as with `rsplit('\|', 1)` | high; not executed | PyHuffman.BarInInput | PyHuffman.RoundTripAnyInput |
| src/algorithms/GolombCompressor.ts:30-36 | a field cut short after its ones is decoded anyway: `parseInt('', 2)` is NaN and the array stores 0 | "110" decompresses to byte 0 | a stream with fewer than three bits after a terminator is a decoding error | high; not executed | Golomb.TruncatedExample | Golomb.CheckedFrom |
| src/algorithms/ImageQuantizer.ts:4 | `256 / quality` accepts quality 0 and negative qualities | quality 0 gives step Infinity and turns every colour to 0; quality -5 gives step 1 and leaves the image unchanged | a quality of 0 or less is refused before the division | medium; not executed | Quantizer.ZeroQuality | Quantizer.CheckedStep |
| algorithms_py.py:140 | `max(1, 256 // quality)` accepts a negative quality as step 1 | quality -5 returns the list unchanged | a quality of 0 or less is refused before the division | medium; not executed | PyQuantizer.NegativeQualityIdentity | PyQuantizer.CheckedQuantized |
| src/algorithms/LZWCompressor.ts:40 | `String.fromCharCode(compressed[0])` runs on an empty code list, where `compressed[0]` is `undefined` | "" compresses to `[]`, which decompresses to "\0" | decompressing the compression of "" gives "" | high; not executed | Lzw.EmptyInput | Lzw.CheckedRoundTrip |
| algorithms_py.py:179 | `chr(compressed[0])` runs on an empty list | "" compresses to `[]`, and decompressing it raises IndexError | decompressing the compression of "" gives "" | high; not executed | PyLzw.EmptyInput | PyLzw.CheckedRoundTrip |
