# GCSA2 support structures in Dafny

This project models the support layer of GCSA2, a generalized compressed suffix
array for graphs. It covers the parts of `support.h` and `support.cpp` that do
integer and string logic:

- **Alphabet** (`alphabet.dfy`, module `Alphabets`). The default byte-to-comp
  table and its inverse. The cumulative count array `C`, built either from a text
  or from precomputed counts.
- **Key** (`keys.dfy`, module `Keys`). A k-mer label of up to 16 characters in
  3-bit groups, followed by a predecessor byte and a successor byte, all in one
  64-bit word. Covers encoding, decoding, field access, merging and replacing.
- **Node** (`nodes.dfy`, module `Nodes`). A graph position packed as an id, an
  optional orientation bit and an offset. Covers the textual form
  `id:offset` / `id:-offset` and its parser.
- **KMer** (`kmers.dfy`, module `KMers`). The k-mer record, its label-only order,
  the character bitmap built from a token, and construction from a line of
  tokens.
- **PathNode** (`pathnodes.dfy`, module `PathNodes`). The doubling node: the
  byte accessors and mutators of its `fields` word, and the label and start
  comparators.

Two support modules are shared by the others:

- `bits.dfy`: 64-bit words as natural numbers below 2^64, with bitwise OR, shifts
  and masks defined one bit at a time.
- `decimal.dfy`: decimal printing, and `std::stoul` restricted to digits.

Fixed-width arithmetic is written out. Every left shift of a 64-bit value is
reduced modulo 2^64, and a byte assignment keeps the low 8 bits.

The two source files come from different versions:

- `support.cpp` calls `Key::label`, a three-argument `Node::encode` and
  `Node::rc`. None of these is declared in `support.h`.
- `Key::label` is taken to be `Key::kmer`, that is `key >> 16`.
- Node packing takes a `Layout` with two parts: the offset width, and whether an
  orientation bit sits between the id and the offset.
- The header's `Node` (8-bit offset, no orientation bit) is `HEADER_LAYOUT`. In
  that layout the three-argument encode drops the orientation, and `rc` is always
  false.

## Model

| member | source | states |
|---|---|---|
| Alphabets.DefaultChar2CompIsRule | support.cpp:32-58 | the default table has 256 entries. `\0` and `$` map to 0, `A/a C/c G/g T/t` to 1-4, `#` to 6, and every other byte to 5. Every entry indexes the default comp2char table |
| Alphabets.DefaultComp2CharInverse | support.cpp:37-60 | the default alphabet has 7 comp values, and char2comp maps each comp2char character back to its own comp value |
| Alphabets.CharacterCounts | support.h:101-107 | after the call, `counts[c]` is the number of text symbols whose comp value is `c`, for every entry of `counts` |
| Alphabets.Alphabet.Default | support.cpp:64-69 | the default alphabet: the default tables, `sigma == 7`, and a `C` of 8 zeros |
| Alphabets.Alphabet.FromSequence | support.h:62-77 | `C[i]` is the number of text symbols with comp value below `i` (all zero for an empty text), and `sigma == |comp2char|` |
| Alphabets.Alphabet.FromCounts | support.cpp:81-88 | `C[0] == 0`, and `C[i]` is the 64-bit sum of the first `i` counts. Entries past the counts stay 0 |
| Alphabets.CumulativeCounts | support.h:70-76 | the text constructor's `C` starts at 0, is non-decreasing, and ends at the text length when every comp value is below `sigma` |
| Alphabets.PrefixSumOfCounts | support.cpp:81-88 | the prefix sums of a text's per-comp counts are its cumulative counts |
| Alphabets.ConstructorsAgree | support.cpp:81-88 | for a text shorter than 2^64, every per-comp count fits in 64 bits, and the wrapping prefix sum the counts constructor stores in `C[i]` equals the cumulative count the text constructor stores there |
| Keys.Encode | support.h:127-138 | the loop computes the label's 3-bit groups, then the predecessor byte, then the successor byte, each step a 64-bit shift-and-OR |
| Keys.LabelValueIsBase8 | support.h:130-134 | for at most 16 characters with comp values below 8, the label part is the base-8 number of the comp values, first character most significant |
| Keys.PackIsSum | support.h:135-137 | a label value below 2^48 packs as `value * 2^16 + pred * 2^8 + succ`, with nothing lost |
| Keys.EncodeFields | support.h:142-145 | of an encoded key: `kmer` is the base-8 label, `predecessors` and `successors` read back the bitmaps, and `last` is the comp value of the final character |
| Keys.Decode | support.cpp:406-420 | the result has `min(k, 16)` characters, and position `len-1-i` holds `comp2char` of the `i`-th lowest 3-bit group of `key >> 16`. The result is the string `DecodeLabel` defines, about which `DecodeEncode` is proved |
| Keys.DecodeEncode | support.cpp:406-420 | decoding an encoded label gives the label back, when every character is a fixed point of comp2char after char2comp |
| Keys.LastChars | support.cpp:422-428 | one entry per key, entry `i` being `last(keys[i])`, which fits in 3 bits |
| Keys.MergeFields | support.h:147 | `merge` keeps the first key's label and ORs both bitmaps |
| Keys.ReplaceFields | support.h:148-151 | `replace` sets the label to the new value modulo 2^48 and keeps the low 16 bits, so both bitmaps are kept |
| Decimal.LeadingDigits | support.cpp:436 | the position `stoul` stops at: every character before it is a digit, and the character at it is not |
| Decimal.DigitsValueOfDecimal | support.cpp:465-467 | the printed decimal digits of a number denote that number |
| Decimal.StoulOfDecimal | support.cpp:436 | `stoul` reads back a printed 64-bit value and stops at the first following non-digit |
| Nodes.EncodeValue | support.h:163-166 | an id that fits is not truncated, so the packed node is the id and orientation bit shifted above the offset, plus the offset |
| Nodes.EncodeFields | support.h:163-172 | `id(encode(id, o, rc)) == id` and `offset(...) == o`, and the orientation bit reads back, for `o <= OFFSET_MASK` and an id that fits |
| Nodes.IdFits | support.h:171 | the id of any 64-bit node fits above the offset and orientation bit |
| Nodes.EncodeOfFields | support.h:163-172 | every 64-bit node re-encodes from its own id, offset and orientation |
| Nodes.EncodeTokenOfDecode | support.cpp:432-469 | parsing the printed form of any node gives back the same node |
| Nodes.DecodeOfEncode | support.cpp:461-469 | an encoded node prints as its id, `:`, then `-` exactly when the orientation bit is set, then the offset |
| Nodes.SeparatorUnchecked | support.cpp:443-450 | any non-digit after the id parses the same as `:` |
| Nodes.NothingAfterSeparator | support.cpp:437-441 | a token that ends at or just after the id is rejected with the sentinel |
| Nodes.OffsetAboveMask | support.cpp:443-456 | on either strand (`id:offset` or `id:-offset`), an offset above `OFFSET_MASK` is rejected with the sentinel, not wrapped |
| Nodes.SentinelIsNodeZero | support.cpp:437-441 | the rejection sentinel 0 is also the value `"0:0"` encodes |
| KMers.MakeSorted | support.h:191-192 | after `makeSorted` the k-mer is sorted, and its key and start are unchanged |
| KMers.LessIsStrictWeakOrder | support.h:185-203 | the k-mer order is irreflexive and transitive, and two k-mers tie exactly when their labels are equal. The key-versus-k-mer order agrees with it |
| KMers.MergeKeepsOrder | support.h:185-189 | merging another key's bitmaps into a k-mer does not move it in the order |
| KMers.BitmapsDoNotOrder | support.h:185-189 | any predecessor and successor bitmaps below the same label give the same order |
| KMers.Chars | support.cpp:486-492 | the loop computes the bitmap of the characters at even positions |
| KMers.CharsBits | support.cpp:486-492 | bit `j` of the bitmap is set exactly when `j < 8` and some even position holds a character with comp value `j` |
| KMers.CharsOrderFree | support.cpp:486-492 | the bitmap depends only on which comp values occur at even positions, not on their order or count |
| KMers.CharsIgnoreOddPositions | support.cpp:490 | tokens that agree at their even positions have the same bitmap |
| KMers.FromTokens | support.cpp:477-484 | builds the k-mer of a token line, or reports that `stoul` threw for either node column |
| KMers.KMerOfFields | support.cpp:476-483 | a built k-mer's label is the base-8 comp number of column 0, its bitmaps are those of columns 2 and 3, and `from` is column 1 parsed |
| KMers.FromOfPrintedNode | support.cpp:482 | a start node written in printed form is read back exactly |
| PathNodes.PathNode.MakeSorted | support.h:238-239 | after `makeSorted` the path is sorted, and its start, label and fields are unchanged |
| PathNodes.PathNode.SetOrder | support.h:242-246 | `order()` becomes the new value. `predecessors()` and the bits above 16 are unchanged |
| PathNodes.SetOrderValue | support.h:244-245 | clearing bits 8-15 and ORing in the shifted order stays within 64 bits. It sets byte 1 and leaves byte 0 and the bits above 16 alone |
| PathNodes.PathNode.SetPredecessors | support.h:249-253 | `predecessors()` becomes the new bitmap. `order()` and every bit above 8 are unchanged |
| PathNodes.SetPredecessorsValue | support.h:251-252 | clearing the low byte and ORing in the bitmap sets byte 0 and leaves the rest |
| PathNodes.PathNode.AddPredecessors | support.h:255-258 | the bitmap becomes the OR of both nodes' old bitmaps, which also holds when the other node is this node. Bits above 8 are unchanged |
| PathNodes.AddPredecessorsValue | support.h:257 | ORing in a byte ORs the low bytes and leaves the bits above them |
| PathNodes.HasPredecessorIsBitmap | support.h:260-263 | for comp values below 8, `hasPredecessor` tests that bit of the predecessor bitmap |
| PathNodes.AddedPredecessorBits | support.h:255-258 | after adding, a predecessor bit is set exactly when it was set in either node |
| PathNodes.PathNode.Outdegree | support.h:265 | the outdegree is the `to` member, which edge generation reuses as the count of outgoing edges |
| PathNodes.PathLabelComparator.constructor | support.h:289 | a comparator built with length `len` compares the first `len` ranks (`maxLength == len`) |
| PathNodes.PathLabelComparator.Default | support.h:289 | the default comparator compares the whole label (`maxLength == LABEL_LENGTH`) |
| PathNodes.PathLabelComparator.Compare | support.h:291-298 | the result is the lexicographic order of the first `max_length` ranks of the two labels |
| PathNodes.LexLessExists | support.h:293-297 | that order holds exactly when the labels agree up to some position and the first is smaller there |
| PathNodes.LexLessIsStrictTotalOrder | support.h:291-298 | the label order is irreflexive, asymmetric and transitive, and orders any two different prefixes one way or the other |
| PathNodes.EqualPrefixesUnordered | support.h:297 | labels equal on the compared prefix are not ordered either way |
| PathNodes.FromLessIsStrictWeakOrder | support.h:301-306 | the start comparator is a strict weak order whose ties are equal starts |

## Left out

- Copy, move, swap, `serialize` and `load` of `SadaSparse` and `SadaRLE` (support.cpp:159-402). They are stream I/O and pointer rewiring of rank/select structures whose construction is not part of this model.
- Alphabet `serialize`/`load` (support.cpp:135-155) and its copy constructor, move constructor, `swap`, `copy` and assignment operators (support.cpp:71-133). These are storage management and stream I/O.
- `operator<<` for `KMer` (support.cpp:494-503). It only formats for an output stream.
- `uniqueKeys`, the `PathNode` constructors, `serialize`, copy and move (support.h:215, 267-283). Their bodies are not part of this model. The Dafny `PathNode` constructor only sets the members, so that nodes can be created.
- The diagnostics `Node::encode(token)` writes to the error stream are not modelled. The returned value is.
- `Decimal.Stoul`: reads digits only. It does not model leading whitespace, a sign, or a base prefix. A thrown exception (no leading digit, or a value of 2^64 or more) is the `Throws` result.
- Characters are bytes 0-255 (`Bytes`). Signed `char` indexing of `char2comp` for bytes of 128 and up is not modelled.
- Nodes.Encode: the three-argument encoder of support.cpp:458 is not shown. It is modelled as `(id << (offsetBits + 1)) | (rc << offsetBits) | offset` when the layout has an orientation bit, and as the header's `(id << offsetBits) | offset` otherwise.
- Keys.LabelValueIsBase8: the base-8 reading, and the field lemmas built on it, need at most 16 characters with comp values below 8, as the header comment requires. The encoder itself is modelled for any label and wraps at 64 bits.
- Keys.Decode: every 3-bit group read must index `comp2char` (`Decodable`). The source reads `comp2char[key & CHAR_MASK]` unchecked (support.cpp:415), so a group of 7 against the 7-entry default `comp2char` reads out of bounds. That case is not modelled.
- KMers.FromTokens: the line must have at least four tokens, and `successor` must index one. The source indexes `tokens[2]`, `tokens[3]` and `tokens[successor]` unchecked (support.cpp:479-483), and reads out of bounds otherwise. That case is not modelled.
- PathNodes.PathLabelComparator.Compare: both labels must be full 8-rank labels and `max_length` at most 8. The constructor accepts any length (support.h:289), and a longer one makes the loop read past the label (support.h:295). That case is not modelled.
- PathNodes.PathNode.HasPredecessor: comp values of 32 or more make the C++ shift undefined, so they are excluded.
- KMers.Chars: comp values of 32 or more make the C++ shift undefined. The model treats them like 8-31, which fall outside the byte and set nothing.
- Alphabets.Alphabet.FromSequence: every comp value of the text must index `C`, and the counts constructor may not be given more counts than `comp2char` has entries. Writes past the end of `C` are undefined in the source.
- KMers.MakeSorted: the k-mer record is a value, so `makeSorted` returns the updated record instead of changing it in place.
- The comparators are modelled as orders. Their use in sorting lies outside these files.
