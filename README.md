# Huffman compressor, word counter and JSON checker, modelled in Dafny

This project is a Dafny model of the computational core of three small Go
tools.

- **compress**: a Huffman file compressor. It counts byte frequencies and
  seeds a min-heap of leaf nodes. It then merges the two cheapest nodes until
  one tree is left and reads the codes off the root-to-leaf paths. `Encode`
  packs the concatenated codes into bytes, most significant bit first.
  `Decode` walks the bits back through the reverse code table. A text
  container wraps the payload: an `HS` line, the number of codes, one
  `code,symbol` line per code, an `HE` line, then the packed payload.
- **wctool**: the line, word and character counters behind a `wc` clone.
- **jsonparser**: a rune-by-rune lexer with an in-string flag, and a
  validator that checks the token list in strides of four.

Modules follow the Go packages:

| module | file | Go source |
|---|---|---|
| `Wrappers` | wrappers.dfy | `Option` and `Result` |
| `Text` | text.dfy | `strings.Split`, `strings.Join`, `strconv.Atoi`, `utf8` |
| `Frequency` | frequency.dfy | compress/frequency |
| `Queue` | queue.dfy | compress/priority_queue, plus the `container/heap` algorithm it drives |
| `Huffman` | huffman.dfy | compress/huffman |
| `HuffmanVector` | huffman_vector.dfy | the tree and code vectors of compress/huffman |
| `Compression` | compression.dfy | compress/compression |
| `Container` | container.dfy | the header and payload parts of compress/file |
| `WordCount` | wc.dfy | wctool/file |
| `Lexer` | lexer.dfy | jsonparser/lexer |
| `Parser` | parser.dfy | jsonparser/parser |

The source's loops and in-place updates stay imperative in the model:

- the queue is a class whose `items` field the methods reassign;
- the builder, the packer, the decoder, the header reader and writer, the
  line and word counters, the lexer and the validator are methods with
  `for` or `while` loops;
- the character counter is a function, as the source's single expression
  over `bytes.Runes` is.

Each method is proved against a specification function: `Frequencies`,
`Seeds`/`Greedy`, `PackAsWritten`, `Decoded`, `ParseHeader`, `Payload`,
`Lines`, `Words`, `Tokens` and `Accepts`. The properties are lemmas about
those functions. `AssignCodes` is a recursion in the source and a pure
recursive function here.

Symbols are bytes: `byte` is the integers 0 to 255. Code strings are
`string`, the rune view. Go's `int` is a mathematical integer, except in the
header parser. There, `numCodes+3` and `numCodes+2` can overflow a 64-bit
`int`, so `Wrap` models the wrap-around explicitly.

## Model

| member | source | states |
|---|---|---|
| Frequency.CalculateFrequencies | compress/frequency/frequency.go:12-18 | the loop computes `Frequencies(content)`, the count of each byte's occurrences |
| Frequency.FrequenciesTotal | compress/frequency/frequency.go:13-17 | the counts sum to the length of the input |
| Frequency.FrequenciesKeys | compress/frequency/frequency.go:14-16 | a byte is a key iff it occurs in the input, and every count is at least 1 |
| Frequency.FrequenciesSnoc | compress/frequency/frequency.go:15 | one more byte adds one to its count, starting from 0, and changes nothing else |
| Frequency.TotalUpdate | compress/frequency/frequency.go:15 | overwriting one entry changes the sum by the difference |
| Frequency.FrequencyExamples | compress/frequency/frequency_test.go:9-10 | "abbcaabbccc" gives {a:3, b:4, c:4}; the empty input gives the empty map |
| Queue.PriorityQueue.constructor | compress/priority_queue/priority_queue.go:55 | an empty, valid heap |
| Queue.PriorityQueue.Len | compress/priority_queue/priority_queue.go:21 | the number of nodes held |
| Queue.PriorityQueue.Swap | compress/priority_queue/priority_queue.go:30-34 | the two nodes change places, each records its new slot, nothing else changes and the bag of nodes is kept |
| Queue.PriorityQueue.Push | compress/priority_queue/priority_queue.go:37-41 | appends the node with its index set to the old length |
| Queue.PriorityQueue.Pop | compress/priority_queue/priority_queue.go:44-51 | removes and returns the last node with index -1 and leaves the prefix unchanged |
| Queue.PriorityQueue.Up | compress/priority_queue/priority_queue.go:24-27 | sift-up under `Less` restores the heap order and keeps the nodes |
| Queue.PriorityQueue.Down | compress/priority_queue/priority_queue.go:24-27 | sift-down under `Less` orders the subtree at `i0` and keeps the nodes and the slots from `n` on |
| Queue.PriorityQueue.HeapPush | compress/priority_queue/priority_queue.go:63 | `heap.Push` adds the node and keeps the heap order |
| Queue.PriorityQueue.HeapPop | compress/huffman/huffman_tree.go:26-27 | `heap.Pop` returns a node of least priority, detached, and removes exactly it |
| Queue.PriorityQueue.HeapInit | compress/priority_queue/priority_queue.go:66 | `heap.Init` establishes the heap order and keeps the nodes |
| Queue.NewPriorityQueue | compress/priority_queue/priority_queue.go:54-68 | a fresh heap holding one seeded leaf per entry, so `Len()` is `len(frequencies)` |
| Queue.SeedsMembers | compress/priority_queue/priority_queue.go:57-64 | one node per entry, each the leaf `Seed(c, f)` with priority equal to its frequency and no children |
| Queue.SeedsAdd | compress/priority_queue/priority_queue.go:57-63 | seeding one more entry adds exactly its leaf |
| Queue.SeedsRemove | compress/priority_queue/priority_queue.go:57-63 | any entry can be the last one seeded |
| Queue.HeapMin | compress/priority_queue/priority_queue.go:24-27 | the root of a heap-ordered slice has the least priority of all its nodes |
| Queue.RootMin | compress/priority_queue/priority_queue.go:24-27 | slot 0 of a heap-ordered slice has priority at most that of every slot |
| Queue.Drain | compress/priority_queue/priority_queue_test.go:19-25 | popping a heap until it is empty yields every node it held exactly once, in non-decreasing priority |
| Queue.ExtractOrderExample | compress/priority_queue/priority_queue_test.go:11-38 | {a:3, b:2, c:1} seeds three nodes, popped in priority order 1, 2, 3 |
| Huffman.BuildHuffmanTree | compress/huffman/huffman_tree.go:19-44 | None iff the table is empty; otherwise a well-formed tree whose leaves are the seeds, whose weight is the sum of the frequencies, that greedy merging of the two least nodes yields, and whose root has two children when there are two symbols or more |
| Huffman.MergeTwoLeast | compress/huffman/huffman_tree.go:26-39 | one loop round: the queue shrinks by one and the builder invariant holds |
| Huffman.TakeRoot | compress/huffman/huffman_tree.go:43 | the last node popped is the whole tree |
| Huffman.MergeInv | compress/huffman/huffman_tree.go:26-39 | merging the two least nodes keeps the leaves, the weight, well-formedness and greediness |
| Huffman.MergeWellFormed | compress/huffman/huffman_tree.go:30-36 | a merged node has both children and weight and priority equal to the sum of theirs |
| Huffman.MergeWeight | compress/huffman/huffman_tree.go:31-33 | merging keeps the total weight of the queue |
| Huffman.MergeLeaves | compress/huffman/huffman_tree.go:34-35 | merging keeps the bag of leaves |
| Huffman.MergeGreedy | compress/huffman/huffman_tree.go:24-40 | a tree greedy for the merged queue is greedy for the queue before the merge |
| Huffman.BuilderEnd | compress/huffman/huffman_tree.go:24-43 | the single node left is the tree with all the properties of the builder |
| Huffman.SeedsFolds | compress/huffman/huffman_tree.go:21 | the seeded queue weighs the frequency sum and its leaves are the seeds |
| Huffman.LeafRootSingleSymbol | compress/huffman/huffman_tree.go:49-51 | a root that is a leaf comes from a table with exactly one symbol |
| Huffman.AssignCodesAdds | compress/huffman/huffman_tree.go:47-63 | `AssignCodes` adds the codes of the tree's leaves to the caller's map |
| Huffman.LeafCodesKeys | compress/huffman/huffman_tree.go:49-51 | every leaf receives a code and nothing else does |
| Huffman.LeafCodesArePaths | compress/huffman/huffman_tree.go:54-62 | each code extends the prefix with '0' for left and '1' for right, down to that symbol's leaf |
| Huffman.LeafCodesBits | compress/huffman/huffman_tree.go:54-62 | codes are bit strings and longer than the prefix below an inner node |
| Huffman.PathsPrefixFree | compress/huffman/huffman_tree.go:47-63 | no code of one symbol is a prefix of another symbol's code |
| Huffman.SameCodeSameSymbol | compress/huffman/huffman_tree.go:47-63 | two symbols with the same code are the same symbol |
| Huffman.HuffmanCodes | compress/cli/commands/cmd_compress.go:44-45 | from the builder's tree and `""`: one code per symbol, root-to-leaf paths, prefix-free, non-empty below an inner root, and `""` for a lone leaf root |
| HuffmanVector.BuildExample | compress/huffman/huffman_tree_test.go:9-33 | the table {a:8, b:3, c:1, d:5, e:12, f:6} builds a root of weight 35 with both children |
| HuffmanVector.CodesExample | compress/huffman/huffman_tree_test.go:38-68 | the same table gives {f:"00", a:"01", c:"1000", b:"1001", d:"101", e:"11"} |
| HuffmanVector.GreedyForced | compress/huffman/huffman_tree.go:24-40 | without ties, the greedy choice of the next round is forced |
| HuffmanVector.TestTreeForced | compress/huffman/huffman_tree_test.go:9-16 | on the vector's weights the greedy tree is unique |
| HuffmanVector.TestTree | compress/huffman/huffman_tree_test.go:9-16 | every greedy tree of the vector's table is the one concrete tree |
| HuffmanVector.TestCodes | compress/huffman/huffman_tree_test.go:61-68 | that tree's codes are the expected table |
| Compression.Encode | compress/compression/compression.go:16-51 | the output is the concatenated codes packed as the source packs them |
| Compression.PackBits | compress/compression/compression.go:26-50 | the packing loop and the trailing byte compute `PackAsWritten` |
| Compression.BitsSnoc | compress/compression/compression.go:20-22 | one more symbol appends its code, or "" when the table lacks the symbol |
| Compression.PlacedBit | compress/compression/compression.go:33-35 | bit k of a chunk goes to bit 7 - k of its byte, set only by '1' |
| Compression.ChunkBits | compress/compression/compression.go:29-41 | a full byte prints back as its eight bits, MSB first, with '1' kept and anything else read as '0' |
| Compression.PackLength | compress/compression/compression.go:37-48 | the intended packing has ceil(bits / 8) bytes |
| Compression.PackAsWrittenLength | compress/compression/compression.go:37-48 | so does the packing as written |
| Compression.PackAsWrittenWholeBytes | compress/compression/compression.go:44-48 | the two packings agree when the bit count is a multiple of 8 |
| Compression.PadFills | compress/compression/compression.go:44-48 | the padding is under 8 bits and completes a byte |
| Compression.UnpackPack | compress/compression/compression.go:29-48 | the intended packing reads back as the bits followed by zero padding |
| Compression.PackKeepsBits | compress/compression/compression.go:29-48 | the intended packing keeps every bit of a bit string, in order |
| Compression.EncodeExample | compress/compression/compression_test.go:10-22 | {a:"00", b:"01", c:"10", d:"11"} over "abcd" gives [0x1B]; empty input gives empty output |
| Compression.TrailingShiftLosesBits | compress/compression/compression.go:44-48 | {a:"1"} over "a" is packed as [0x00], not [0x80], and does not decode |
| Compression.Decode | compress/compression/decompression.go:14-35 | the nested loops compute `Decoded`, the bit walk through the reverse table |
| Compression.UnpackLength | compress/compression/decompression.go:20-21 | each byte expands to exactly 8 bits |
| Compression.DecodedLength | compress/compression/decompression.go:18-28 | the output has at most 8 symbols per input byte |
| Compression.RunCurrent | compress/compression/decompression.go:22-26 | a pending code is never itself a key of the table |
| Compression.RunEmitsValues | compress/compression/decompression.go:23-24 | every emitted symbol is a value of the table |
| Compression.DecodedOutcome | compress/compression/decompression.go:30-34 | an error carries the non-empty leftover code, which is not a key; a success emits only table values |
| Compression.RunMisses | compress/compression/decompression.go:22-26 | bits whose prefixes all miss the table only grow the pending code |
| Compression.ZeroByteUndecodable | compress/compression/decompression.go:30-32 | a leftover code is reported as "invalid code" |
| Compression.DecodeExample | compress/compression/decompression_test.go:16-22 | [165, 15] with {"00":c, "01":b, "10":a, "11":d} gives "aabbccdd"; empty input gives empty output |
| Compression.DecodeEncode | compress/compression/decompression.go:13 | the round trip returns the input text for a prefix-free table of non-empty '0'/'1' codes, its inverse, and a bit count that is a multiple of 8 |
| Compression.TreeRoundTrip | compress/compression/decompression.go:13 | for the codes read off a tree built from two symbols or more, and their inverse, the round trip returns the text when its bits fill whole bytes |
| Compression.SingleSymbolLost | compress/huffman/huffman_tree.go:49-51 | with one symbol the only code is "", so a non-empty text encodes to no bytes and decodes to the empty text |
| Compression.EmptyCodesNoBits | compress/compression/compression.go:20-22 | bytes whose codes are all "" write no bits |
| Huffman.SingleSymbolLeafRoot | compress/huffman/huffman_tree.go:24-43 | a table of one symbol builds a lone leaf |
| Compression.UnpackPackWhole | compress/compression/decompression.go:18-21 | whole packed bytes read back as exactly the bits |
| Container.WriteCodeTableOnHeader | compress/file/file.go:70-93 | writes "HS", the count, one `code,symbol` line per entry in the given map order, then "HE" |
| Container.WriteLine | compress/file/file.go:76-90 | each write appends one line and its newline |
| Container.HeaderLinesShape | compress/file/file.go:70-93 | no header line holds a newline, and only the last is "HE" |
| Container.EntryLinesHaveComma | compress/file/file.go:83 | every entry line has a comma |
| Container.ReadReverseLookupCodesTableFromHeader | compress/file/file.go:164-201 | the parser computes `ParseHeader` |
| Container.ReadEntries | compress/file/file.go:184-194 | the entry loop reads lines 2 up to the last two into the reverse table, or stops at the first bad line |
| Container.EntriesStep | compress/file/file.go:186-193 | one good entry line overwrites its code's entry; a bad one is the error |
| Container.EntriesFail | compress/file/file.go:186-189 | the first bad entry line decides the error |
| Container.EndMarker | compress/file/file.go:197-199 | line count+2 must exist and be "HE", with Go's `int` wrap-around and the panic case as errors |
| Container.ParseHeaderOk | compress/file/file.go:165-201 | parsing succeeds iff the start marker, a count in range, the end marker at count+2 and well-formed entry lines are all present; the table is the entries' |
| Container.TooFewLines | compress/file/file.go:197-199 | a count beyond the lines present gives "invalid header end marker" |
| Container.EntryParses | compress/file/file.go:186-193 | an entry line as written parses back to its code and symbol |
| Container.EntriesOfLines | compress/file/file.go:184-194 | the written entry lines parse to the inverse of the code table in map order |
| Container.InverseOfTable | compress/file/file.go:193 | for distinct codes, that table is the exact inverse of the code table |
| Container.EnumerationLength | compress/file/file.go:76 | a map order without repeats has `len(codesTable)` entries, the count written |
| Container.HeaderSplit | compress/file/file.go:165 | splitting a written header plus a payload on newlines gives its lines and the payload |
| Container.ParseHeaderLines | compress/file/file.go:165-199 | the lines of a written header parse to the inverse table |
| Container.PayloadLines | compress/file/file.go:222-240 | the payload after a written header is read back |
| Container.HeaderRoundTrip | compress/file/file.go:70-93 | writing a header and reading it back gives the inverse code table and the payload, for ASCII symbols other than ',' and '\n', distinct codes without those characters, and a payload without '\n' |
| Container.FirstEnd | compress/file/file.go:225-231 | the scan finds the first "HE" line, or reports that there is none |
| Container.ReadTextAfterHeader | compress/file/file.go:222-240 | the scan and join compute `Payload` |
| Container.PayloadDropsNewlines | compress/file/file.go:239 | the payload is everything after the first "HE" line, with newline bytes dropped |
| Container.EmptyHeaderVector | compress/file/file_test.go:127-131 | "HS\n0\nHE\n" parses to the empty map |
| Container.FourEntryVector | compress/file/file_test.go:122-125 | "HS\n4\n00,a\n01,b\n10,c\n11,d\nHE\n" parses to {"00":a, "01":b, "10":c, "11":d} |
| Container.MissingEndMarkerVector | compress/file/file_test.go:133-136 | without "HE" the parse fails with "invalid header end marker" |
| Container.MissingStartMarkerVector | compress/file/file_test.go:138-141 | without "HS" the parse fails with "invalid header start marker" |
| Container.PayloadVector | compress/file/file_test.go:211-215 | the payload after a three-entry header is "010101" |
| Container.NoEndMarkerVector | compress/file/file_test.go:216-227 | an empty file and a file without "HE" give "header end marker not found" |
| Text.Split | compress/file/file.go:165 | `strings.Split` gives one more piece than separators, none containing the separator |
| Text.JoinSplit | compress/file/file.go:239 | joining the pieces with "" removes the separators |
| Text.SplitLastEmpty | compress/file/file.go:165 | the last piece is empty iff the input is empty or ends with the separator |
| Text.Atoi | compress/file/file.go:173-180 | `strconv.Atoi` succeeds only within 64-bit `int` range and on text ending in a digit |
| Text.AtoiDecimal | compress/file/file.go:76 | the count written in decimal reads back as itself |
| Text.Decimal | compress/file/file.go:76 | decimal text is a non-empty string of digits |
| Text.AsciiUtf8 | compress/file/file.go:83 | an ASCII string is written byte for byte and read back in the Latin-1 view |
| Text.RuneCountOfUtf8 | wctool/file/file.go:91 | decoding the UTF-8 of a string gives back its number of characters |
| Text.CountAppend | compress/frequency/frequency.go:15 | occurrences in a concatenation add up |
| WordCount.CountLines | wctool/file/file.go:49-61 | the loop computes `Lines` |
| WordCount.LinesByNewlines | wctool/file/file.go:49-61 | the number of '\n' bytes, plus one for an unterminated last line |
| WordCount.LinesBound | wctool/file/file.go:49-61 | at most the byte count, and 0 only for empty input |
| WordCount.LinesOfLines | wctool/file/file.go:49-61 | newline-terminated lines count as their number |
| WordCount.CountWords | wctool/file/file.go:64-87 | the in-word state machine computes `Words` |
| WordCount.WordsOfSpaces | wctool/file/file.go:70-75 | space-only input has no words |
| WordCount.WordsOfRun | wctool/file/file.go:76-84 | a non-empty run without spaces is one word |
| WordCount.WordsSeparated | wctool/file/file.go:64-87 | a space between two texts adds their word counts |
| WordCount.CountCharacters | wctool/file/file.go:90-92 | the rune count is at most the byte count, and 0 only for empty input |
| WordCount.CharactersOfString | wctool/file/file.go:90-92 | the UTF-8 of a string has as many runes as the string has characters |
| WordCount.CharactersOfAscii | wctool/file/file.go:90-92 | ASCII input has one rune per byte |
| WordCount.LineVectors | wctool/file/file_test.go:43-46 | "" gives 0, "hello\n" 1, "hello\nworld\n" 2 and "hello\nworld" 2 |
| WordCount.WordVectors | wctool/file/file_test.go:66-90 | empty and all-space input give 0, one word 1, the sentence 5 and the mixed input 3 |
| WordCount.CharacterVector | wctool/file/file_test.go:105-116 | "¡Hola, mundo!" has 13 runes |
| WordCount.AllCountsVector | wctool/cli/commands/cmdall_test.go:14-36 | "ja \n\tjaja \n\tjajaja" has 18 bytes, 3 lines, 3 words and 18 runes |
| Lexer.Lex | jsonparser/lexer/lexer.go:12-65 | the rune loop computes `Tokens` |
| Lexer.Flush | jsonparser/lexer/lexer.go:60-62 | a pending token is emitted only when it is non-empty |
| Lexer.StepInvariant | jsonparser/lexer/lexer.go:18-56 | one rune keeps the tokens non-empty, adds the rune to their spelling unless it is whitespace, and toggles the flag exactly on '"' |
| Lexer.StepsInvariant | jsonparser/lexer/lexer.go:17-57 | the same over any text: the spelling grows by the text without whitespace, and the flag follows the parity of its quotes |
| Lexer.TokensSpellInput | jsonparser/lexer/lexer.go:17-62 | the tokens concatenate to the input without ' ', '\t', '\n' and '\r' |
| Lexer.TokensNonEmpty | jsonparser/lexer/lexer.go:22-23 | no token is empty |
| Lexer.TokensOfEmpty | jsonparser/lexer/lexer.go:59-64 | empty input has no tokens |
| Lexer.UnterminatedString | jsonparser/lexer/lexer.go:59-62 | an unterminated string is emitted last, quote included |
| Lexer.StructuralOutsideString | jsonparser/lexer/lexer.go:19-26 | outside a string a brace or comma flushes the pending token and becomes a token |
| Lexer.StructuralInsideString | jsonparser/lexer/lexer.go:27-29 | inside a string it is appended to the pending token |
| Lexer.QuoteToggles | jsonparser/lexer/lexer.go:31-38 | a quote is appended and toggles the flag; the closing one emits the token, quotes and any earlier prefix included |
| Lexer.WhitespaceSkipped | jsonparser/lexer/lexer.go:51-52 | whitespace changes nothing, inside strings too |
| Lexer.OtherJoins | jsonparser/lexer/lexer.go:53-55 | any other rune is appended to the pending token |
| Lexer.RenderTokens | jsonparser/lexer/lexer.go:12-65 | an object with plain string members lexes to "{", each quoted key, ":", quoted value and ",", then "}" |
| Lexer.LexVectors | jsonparser/lexer/lexer_test.go:16-45 | the lexer's vectors: "{}", one and two members, a trailing comma and an unquoted key |
| Parser.Parse | jsonparser/parser/parser.go:12-28 | the guard and the stride-4 loop compute `Accepts` |
| Parser.RejectsWithoutBraces | jsonparser/parser/parser.go:14-16 | fewer than two tokens, or a wrong first or last token, is rejected |
| Parser.GroupBeforeBrace | jsonparser/parser/parser.go:19-25 | in an accepted list, each checked group of four ends before the closing brace |
| Parser.AcceptedLength | jsonparser/parser/parser.go:19-22 | every accepted list has `(len - 2) % 4 == 0` |
| Parser.ParseVectors | jsonparser/parser/parser_test.go:13-22 | "{" "}" is accepted; the empty list and one-element lists are rejected; the lone-quote pattern is accepted |
| Parser.PipelineRejectsMembers | jsonparser/main.go:27-32 | the lexer's tokens of any object with members are rejected by the validator |
| Parser.PipelineRejectsVector | jsonparser/main.go:27-32 | {"key":"value"} is rejected |
| Parser.PipelineAcceptsObject | jsonparser/parser/parser.go:11 | a corrected validator accepts the lexer's tokens of every compact object whose keys and values are plain strings, without quotes or whitespace inside |
| Parser.ObjectVectors | jsonparser/parser/parser_test.go:34-43 | the corrected validator accepts "{" "}" and rejects a trailing comma and an unquoted key |

## Left out

- File and console I/O are not modelled. This covers reading and writing
  files, `WriteTextAfterHeader`, the temporary-file helpers, the CLI commands
  and main programs of all three tools, and the ratelimiter, loadbalancer and
  loadtester programs. Header and payload handling work on in-memory byte
  sequences.
- The lexer-then-validator wiring of jsonparser/main.go appears only in the
  `Pipeline` lemmas, as the composition `Accepts(Tokens(...))`.
- Tree nodes are values, not pointers. Aliasing between a popped node and
  the tree that holds it is not captured. The `index` a node keeps after
  leaving the queue is modelled as -1, as `Pop` sets it.
- `container/heap` is not part of the repository's files. The model supplies
  its sift-up, sift-down, push, pop and init as methods of the queue class.
  Among nodes of equal priority, the node Go's heap pops is left open: `Greedy`
  allows any least node. The test vector has no ties, so its tree and codes
  are determined.
- Go's map iteration order is a parameter in two places:
  - `order` in `WriteCodeTableOnHeader`, required to enumerate the keys once
    each;
  - the seeding loop of `NewPriorityQueue`, where any order gives the same
    bag of nodes.
- The empty frequency map makes Go's final `heap.Pop` panic. Huffman.BuildHuffmanTree
  returns `None` in that case.
- Queue.PriorityQueue.Less has no contract beyond its definition. The heap
  lemmas use the same strict comparison of priorities.
- `%c` of a symbol byte at or above 0x80 writes two UTF-8 bytes. The parser
  keeps only the first, so such headers do not round-trip. A ',' or '\n'
  symbol, or a code containing them, breaks the line format. Container.HeaderRoundTrip
  is therefore restricted to ASCII symbols other than ',' and '\n' and to
  codes without those characters.
- The code field read back from a header is mapped to characters one byte per
  character. This is exact for the ASCII codes the compressor writes.
- Compression.DecodeEncode holds only when the bit count is a multiple of 8
  and every code is non-empty. The packer's zero padding is not recorded, so
  the unrestricted round trip is false in the code. A table of a single
  symbol gets the one code "", and its text is lost: it encodes to no bytes
  and decodes to the empty text, as Compression.SingleSymbolLost states. The
  tree-built round trip, Compression.TreeRoundTrip, therefore needs two
  symbols or more. The full file path also drops newline bytes from the
  payload, and that is not composed into one round trip.
- Error values are datatype constructors. The panics become errors: an empty
  symbol field becomes `EmptySymbol`, and a negative or wrapped end-marker
  index becomes `EndIndexOutOfRange`.
- The header parser reads the entry lines from index 2 up to the last two
  lines whatever the count says, and the model does the same.
- Go `int` overflow of the wctool counters and of the frequency counts is not
  modelled. Those counts are bounded by the input length.
- The lexer works on a `string` of characters, which stands for the decoded
  runes. Invalid UTF-8 input, which Go decodes to U+FFFD, is not modelled.
  `CountCharacters` does count an invalid byte as one rune.
- The step-2 "valid" cases of jsonparser/parser/parser_test.go:24-33 expect
  one-element token lists to be accepted. The code rejects them at
  jsonparser/parser/parser.go:14, and the model follows the code, as
  Parser.ParseVectors shows.

## Findings

| source | as written | input that shows it | evidently intended | confidence | as-written member | corrected member |
|---|---|---|---|---|---|---|
| compress/compression/compression.go:44-48 | the trailing partial byte, whose bits are already placed from bit 7 down, is shifted left again by `8 - byteIndex` | codes {a:"1"} and input "a" give [0x00] | the byte as placed, [0x80], which decodes back to "a" | not executed | Compression.TrailingShiftLosesBits | Compression.UnpackPack |
| jsonparser/parser/parser.go:19-25 | each member must be a lone `"` token, a key, ":" and a lone `"`, but the lexer emits every string as one quoted token | {"key":"value"}, lexed to "{", "\"key\"", ":", "\"value\"", "}", is rejected | string-key and string-value members separated by commas, as the comment at jsonparser/parser/parser.go:11 says | not executed | Parser.PipelineRejectsMembers | Parser.PipelineAcceptsObject |
