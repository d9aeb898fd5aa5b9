# Tomcat-RS wire codecs, dates, URIs and routing: a Dafny model

Tomcat-RS is a servlet container. This project models the parts of it that turn octets into
requests and responses and back, and the request mapper, and proves what those parts promise.
Strings are octet sequences; `Utf8` says which of them the program's string type admits.
Integers are unbounded except where the program's 32- or 64-bit width shows, and there the
wrap-around, saturation or overflow check is written out.

Objects that the program updates in place are classes here (the HPACK table, encoder and
decoder, the chunked decoder, the AJP message and stream) and loops are methods with
invariants. Each is proved equal to a specification function, and the theorems are about those
functions.

* **HPACK** (RFC 7541). `HpackTable` is the evicting FIFO, `HpackInteger` the prefix integers,
  `Huffman` and `HuffmanTable` the bit-packed code of Appendix B, `HpackString` string
  literals, `HpackIndex` the combined index space, `HpackCodec` instructions and blocks,
  `HpackDelivery` one block between two tables that may have come apart, `HpackRuns` whole
  connections, `HpackGaps` table size changes between blocks, `HpackCeilings` ceilings lowered
  under an encoder that has not followed, `HpackPolicy` what may enter the tables under the
  policy for sensitive fields, and `HpackEndpoints` the stateful encoder and decoder.
  The main results are `HpackRuns.EveryRunDelivers` and `HpackCeilings.RunDeliversIff`;
  `HpackEndpoints.Converse` states them of the objects themselves.
* **Chunked transfer coding** (section 7.1 of RFC 9112). `Chunked` is the resumable decoder and
  its one-byte machine, `ChunkedRendering` everything that may be sent to it,
  `ChunkedRefusals` what stops it and with which error, `ChunkedOneShot` the whole-buffer decoder of the compatibility tests.
* **Dates, validators and ranges.** `Calendar` steps one day at a time and proves the closed
  civil-date formula equal to it; `HttpDate` prints and parses; `ByteRanges` and
  `DefaultServlet` decide conditional and range requests, and `ConditionalRequests` says for
  every combination of conditional headers which answer is given.
* **URIs.** `UriNormalize` decodes and collapses request targets and `UriRefusals` says exactly
  which are accepted; `PercentCoding` has the manager's encoder and the two decoders that should
  undo it, and `FormSpelling` every way to write an octet for it.
* **AJP/1.3.** `AjpMessage` is the cursor and the framing, `AjpResponse` the response stream and
  the proxy's reader, `AjpRequest` the Forward Request decoder, `AjpForward` the layout it
  should undo, `AjpDeclared` the body length it declares and `AjpRefusals` what it refuses.
* **Mapper.** `Mapper` picks the context and the servlet pattern and splits the URI.

`Bytes`, `Bits`, `Text` and `Utf8` are shared vocabulary; `Unicode` proves UTF-8 and trimming
right against scalar values. `KnownVectors` fixes, by worked examples of the standards and of the
repository's tests, what no law can: tables and the order of octets.

## What the code does differently from what is said about it

* A table's `resize` is public and ignores the ceiling, although `max_capacity` is described as
  never exceeded: a resize keeps the invariant if and only if it respects the ceiling
  (`HpackTable.ResizedSound`). The encoder and the decoder always do.
* `set_table_size` evicts at once but only the last size in a gap is announced, where section
  4.2 of RFC 7541 wants the smallest announced too. The encoder's table is then only a prefix
  of the decoder's: `HpackGaps.BlockTablesEqualIff` says exactly when they are equal after a
  block and `HpackGaps.TablesCanDiffer` gives a run where they are not. Nothing is ever misread
  because of it.
* A decoder's ceiling can be lowered below what the encoder uses. A block arrives if and only if
  a size it announces is within the ceiling, the decoder's table then reaches as far as every
  index the block uses, and the list is within the decoder's budget
  (`HpackDelivery.BlockDeliversIff`); a whole run delivers if and only if every block does so at
  its turn (`HpackCeilings.RunDeliversIff`). Calls that never let the encoder's size exceed the
  ceiling (`HpackRuns.Allowed`), as calls on the encoder alone never do, always deliver.
  `HpackCeilings.LoweredAloneBreaks` and `HpackCeilings.LoweredAndRaisedBreaks` are runs that
  fail, the second with an announced size that respects the ceiling.
* The bit length of a Huffman string is summed in 32 bits. The announced length is right if and
  only if the sum does not wrap (`Huffman.EncodedLenExactIff`), a string literal decodes to the
  string if and only if a wrong length is not announced (`HpackString.DecodeEncodedIff`), and
  strings for which it is announced exist (`HpackString.LongStringIsMisannounced`). They are far
  above the default list budget.
* The cap on a chunk-size or trailer line counts the CR, so the longest accepted line without
  its CRLF is one octet below the cap (`ChunkedRendering.FeedWholeLineIff`). The body cap adds
  with saturation: body plus remaining chunk stays within the cap on every input if and only if
  the cap is not the largest `usize` (`ChunkedRendering.BodyBoundHoldsIff`).
* The whole-buffer chunked decoder wants size lines to be UTF-8 in full; the streaming one only
  up to the `;`. When the streaming decoder completes, the two agree exactly when those lines are
  UTF-8, and `ChunkedOneShot.NonTextExtensionSeparates` is an input on which they do not. The
  other way round nothing is promised: the whole-buffer decoder also accepts a size with a plus
  sign, a missing trailer section and any two octets after a chunk.
* `http_date` accepts any unsigned 64-bit time, but from 2 to the 63 on its output no longer
  parses, so an echoed date of that size is never fresh. The servlet's own times come from the
  system clock type, which on Unix does not reach that far, so this concerns `http_date` alone.
* The servlet's entity tags are weak, so echoing one in `If-Match` always fails the precondition.
* A comment says that the pattern `/*` loses to extension matches; by its rank it beats them:
  `Mapper.SlashStarBeatsExtensions`.
* An AJP string of 65535 octets reads as null. A header name collides with a header code only
  from 0xA000 to 0xA0FF octets; longer names up to 65535 are read correctly.

## Model

| member | source | states |
|---|---|---|
| HpackTable.FitIsLongestPrefix | crates/tomcatrs-coyote/src/hpack.rs:297-308 | evicting from the old end leaves exactly the longest newest-first prefix that fits the capacity |
| HpackTable.FitTwice | crates/tomcatrs-coyote/src/hpack.rs:287-308 | two evictions in a row are one eviction to the smaller capacity |
| HpackTable.FitInside | crates/tomcatrs-coyote/src/hpack.rs:297-326 | older entries may be evicted before newer ones are put in front of them |
| HpackTable.FitMonotone | crates/tomcatrs-coyote/src/hpack.rs:297-308 | eviction to one capacity keeps a prefix of a table a prefix of it |
| HpackTable.MakeRoomThenAdd | crates/tomcatrs-coyote/src/hpack.rs:315-326 | making room before adding leaves what adding before evicting leaves; an entry larger than the capacity empties the table |
| HpackTable.InsertedSound | crates/tomcatrs-coyote/src/hpack.rs:315-326 | an insertion keeps size at most capacity at most ceiling |
| HpackTable.ResizedSound | crates/tomcatrs-coyote/src/hpack.rs:274-290 | a size change keeps the invariant if and only if it is at most the ceiling |
| HpackTable.CappedSound | crates/tomcatrs-coyote/src/hpack.rs:261-266 | a change of the ceiling keeps the invariant whatever the new ceiling |
| HpackTable.DynamicTable.constructor | crates/tomcatrs-coyote/src/hpack.rs:224-231 | a new table is empty with its capacity at the ceiling |
| HpackTable.DynamicTable.EvictToFit | crates/tomcatrs-coyote/src/hpack.rs:299-308 | evicts to the fit and keeps the running size the sum of entry sizes |
| HpackTable.DynamicTable.Resize | crates/tomcatrs-coyote/src/hpack.rs:287-290 | sets any capacity and evicts to it |
| HpackTable.DynamicTable.SetMaxCapacity | crates/tomcatrs-coyote/src/hpack.rs:261-266 | moves the ceiling and evicts only when the capacity was above it |
| HpackTable.DynamicTable.ApplySizeUpdate | crates/tomcatrs-coyote/src/hpack.rs:274-283 | refuses a size over the ceiling and changes nothing then |
| HpackTable.DynamicTable.Insert | crates/tomcatrs-coyote/src/hpack.rs:315-326 | puts the field in front and keeps the longest prefix that fits |
| HpackIndex.FirstFull | crates/tomcatrs-coyote/src/hpack.rs:359-373 | the least index whose field is the one sought; none when no field is |
| HpackIndex.FirstName | crates/tomcatrs-coyote/src/hpack.rs:376-390 | the least index whose field has the name; none when none has |
| HpackIndex.FindFull | crates/tomcatrs-coyote/src/hpack.rs:359-373 | finds the least index of the whole index space that holds the field, or none when none does |
| HpackIndex.FindName | crates/tomcatrs-coyote/src/hpack.rs:376-390 | the same for a field with the name |
| HpackInteger.EncodeInteger | crates/tomcatrs-coyote/src/hpack.rs:402-416 | the loop writes the prefix and the seven-bit groups |
| HpackInteger.DecodeInteger | crates/tomcatrs-coyote/src/hpack.rs:430-460 | the loop is the continuation function, error by error |
| HpackInteger.DecodeEncoded | crates/tomcatrs-coyote/src/hpack.rs:402-460 | for every usize, prefix width, flag bits and following octets, decoding an encoding gives the value and its length |
| HpackInteger.DecodeMeaning | crates/tomcatrs-coyote/src/hpack.rs:430-460 | any successful decoding is the prefix, or the full prefix plus the base-128 sum, fits 64 bits and takes at most eleven octets |
| HpackInteger.CutIsTruncated | crates/tomcatrs-coyote/src/hpack.rs:430-460 | an integer cut anywhere short of its end is refused as truncated |
| HpackInteger.LargerOverflows | crates/tomcatrs-coyote/src/hpack.rs:430-460 | a number above the largest usize is refused as an overflow, whatever follows it |
| Huffman.PeelAppend | crates/tomcatrs-coyote/src/hpack.rs:781-829 | symbols can be taken off as bits arrive: stopping and going on changes nothing |
| Huffman.PeelLeavesLittle | crates/tomcatrs-coyote/src/hpack.rs:787-815 | with a complete code at most 29 bits stay unmatched |
| Huffman.EncoderHoldsLittle | crates/tomcatrs-coyote/src/hpack.rs:741-752 | for every input and position, seven bits left over and a word make at most 37 |
| Huffman.DecoderHoldsLittle | crates/tomcatrs-coyote/src/hpack.rs:787-815 | for every input at most 29 bits are unmatched |
| Bits.ShiftMeaning | crates/tomcatrs-coyote/src/hpack.rs:746-799 | the shifts and masks of the accumulator are product, quotient and remainder by a power of two |
| Bits.PushBitsMeaning | crates/tomcatrs-coyote/src/hpack.rs:746-789 | shifting a word in appends its bits to the live ones |
| Bits.FrontBitsMeaning | crates/tomcatrs-coyote/src/hpack.rs:799-799 | shifting right and masking takes the oldest live bits and leaves the others |
| Huffman.DecodeEncoded | crates/tomcatrs-coyote/src/hpack.rs:740-829 | every octet string decodes from its encoding, for any complete prefix code |
| Huffman.EncodeDecoded | crates/tomcatrs-coyote/src/hpack.rs:740-829 | whatever decodes is the encoding of what it decodes to, so bad padding and an embedded end symbol never decode |
| Huffman.ExactInverse | crates/tomcatrs-coyote/src/hpack.rs:740-829 | decoding and encoding are exact inverses |
| Huffman.Encode | crates/tomcatrs-coyote/src/hpack.rs:740-761 | the accumulator loop writes the padded code words; every shift is in range and loses no live bit; after each symbol it holds exactly the word and what earlier words left over, at most 37 bits |
| Huffman.Decode | crates/tomcatrs-coyote/src/hpack.rs:781-829 | the accumulator loop is greedy decoding with every shift in range; after each octet it holds exactly the unmatched bits and eight more, at most 37, and once its symbols are taken off exactly the unmatched ones, at most 29 |
| Huffman.MatchFront | crates/tomcatrs-coyote/src/hpack.rs:793-815 | trying the lengths 5 to 30 finds the word that starts the live bits, if any does |
| Huffman.Lookup | crates/tomcatrs-coyote/src/hpack.rs:834-842 | the linear scan finds the code word exactly when the table has it |
| Huffman.ComputeEncodedLen | crates/tomcatrs-coyote/src/hpack.rs:765-768 | the announced length is computed from a bit count modulo 2 to the 32 |
| Huffman.EncodedLenExactIff | crates/tomcatrs-coyote/src/hpack.rs:765-768 | the announced length is the true one if and only if the bit count is below 2 to the 32 |
| HuffmanTable.TableIsCode | crates/tomcatrs-coyote/src/hpack.rs:476-734 | the 257 words are 5 to 30 bits long, prefix-free and complete, and no all-ones word is 8 bits or shorter |
| HuffmanTable.AppendixBIsExact | crates/tomcatrs-coyote/src/hpack.rs:476-829 | the exact inverse for the concrete table |
| HuffmanTable.SymbolsAscend | crates/tomcatrs-coyote/src/hpack.rs:476-734 | words of one length are numbered in the order of their symbols, so the code is the canonical one for its lengths |
| HuffmanTable.FiveBits | crates/tomcatrs-coyote/src/hpack.rs:476-734 | the ten five-bit words and their symbols |
| HuffmanTable.SixBits | crates/tomcatrs-coyote/src/hpack.rs:476-734 | the 26 six-bit words and their symbols |
| HuffmanTable.SevenBits | crates/tomcatrs-coyote/src/hpack.rs:476-734 | the 32 seven-bit words and their symbols |
| HpackString.EncodeString | crates/tomcatrs-coyote/src/hpack.rs:853-868 | Huffman-codes when, and only when, that is strictly shorter |
| HpackString.DecodeString | crates/tomcatrs-coyote/src/hpack.rs:878-897 | the decoded string, its length on the wire, or the first error |
| HpackString.AfterLength | crates/tomcatrs-coyote/src/hpack.rs:878-897 | once any length is read: too few octets are truncation, then a bad Huffman form and bad UTF-8 draw their errors, in this order |
| HpackString.DecodeEncodedIff | crates/tomcatrs-coyote/src/hpack.rs:853-897 | a string literal decodes to the string, whatever follows it, if and only if its Huffman length is not announced wrongly |
| HpackString.ShorterFormIsUsed | crates/tomcatrs-coyote/src/hpack.rs:853-868 | the flag bit is set exactly when the Huffman form is shorter, and the form written is as long as the shorter one |
| HpackString.LongStringIsMisannounced | crates/tomcatrs-coyote/src/hpack.rs:765-868 | a string of 858 993 460 zeros is announced as one octet and does not decode to itself |
| HpackCodec.DecodeFromSound | crates/tomcatrs-coyote/src/hpack.rs:958-1036 | from any point of any block the table invariant and the list budget hold to the end |
| HpackCodec.DecodeBlockSound | crates/tomcatrs-coyote/src/hpack.rs:958-1036 | for every octet string, accepted or not, the table stays within capacity and ceiling and a returned list within the budget |
| HpackEndpoints.HpackEncoder.constructor | crates/tomcatrs-coyote/src/hpack.rs:1101-1107 | an encoder starts with an empty table and nothing to announce |
| HpackEndpoints.HpackEncoder.SetTableSize | crates/tomcatrs-coyote/src/hpack.rs:1128-1132 | clamps to the ceiling, evicts at once and remembers only this size |
| HpackEndpoints.HpackEncoder.EncodeLiteral | crates/tomcatrs-coyote/src/hpack.rs:1216-1244 | writes the literal form of the hint with an indexed or spelled-out name |
| HpackEndpoints.HpackEncoder.EncodeField | crates/tomcatrs-coyote/src/hpack.rs:1183-1213 | writes a field and leaves the table that the field's form implies |
| HpackEndpoints.HpackEncoder.EncodeWithHints | crates/tomcatrs-coyote/src/hpack.rs:1156-1180 | writes the pending size, then the fields, and nothing is pending afterwards |
| HpackEndpoints.HpackEncoder.Encode | crates/tomcatrs-coyote/src/hpack.rs:1136-1149 | writes the block under the sensitivity policy: no sensitive field enters the table, a lone unknown one that is not sensitive and fits is the newest entry, and its first octet says never-indexed or indexed accordingly |
| HpackEndpoints.HpackDecoder.constructor | crates/tomcatrs-coyote/src/hpack.rs:921-926 | a decoder starts with an empty table and a 16 MiB budget |
| HpackEndpoints.HpackDecoder.SetMaxTableSize | crates/tomcatrs-coyote/src/hpack.rs:937-939 | moves the ceiling, evicting when the capacity was above it |
| HpackEndpoints.HpackDecoder.SetMaxHeaderListSize | crates/tomcatrs-coyote/src/hpack.rs:931-933 | sets the list budget |
| HpackEndpoints.HpackDecoder.ResolveIndex | crates/tomcatrs-coyote/src/hpack.rs:341-356 | an index means its field of the combined space, or is invalid |
| HpackEndpoints.HpackDecoder.DecodeLiteral | crates/tomcatrs-coyote/src/hpack.rs:1012-1026 | a literal's field and length, or the first error |
| HpackEndpoints.HpackDecoder.DecodeInstruction | crates/tomcatrs-coyote/src/hpack.rs:966-1005 | one instruction: what it yields and the table it leaves |
| HpackEndpoints.HpackDecoder.Decode | crates/tomcatrs-coyote/src/hpack.rs:958-1006 | the loop is the block specification, for any octets |
| HpackEndpoints.Converse | crates/tomcatrs-coyote/src/hpack.rs:915-1244 | the encoder and decoder objects, wired together and driven by any calls: every list arrives as sent if and only if every block arrives at its turn, and always while the encoder's size is within the decoder's ceiling |
| HpackDelivery.FieldDeliversIff | crates/tomcatrs-coyote/src/hpack.rs:958-1244 | one encoded field decodes to itself, its octets consumed exactly, if and only if the decoder's table reaches as far as the index it uses; the tables keep their common history either way |
| HpackDelivery.FieldsDeliverIff | crates/tomcatrs-coyote/src/hpack.rs:958-1244 | a list of fields is read back if and only if every index used is known at its turn and the list is within the budget; over the budget alone, the error says so |
| HpackDelivery.IndexMeans | crates/tomcatrs-coyote/src/hpack.rs:341-356 | an index of the encoder means the same field to a decoder whose table reaches that far, and is invalid to any other |
| HpackDelivery.InsertedAkin | crates/tomcatrs-coyote/src/hpack.rs:315-326 | inserting the same field keeps the tables' common history, whatever their capacities |
| HpackDelivery.BlockDeliversIff | crates/tomcatrs-coyote/src/hpack.rs:958-1244 | for any two tables of a common history and any list budget, a block is read back if and only if a size it announces is within the ceiling, every index used is known and the list is within the budget; a size over the ceiling and a list over the budget are named in the error |
| HpackRuns.BlockRoundTrip | crates/tomcatrs-coyote/src/hpack.rs:958-1244 | a connected pair delivers every block, a leading size update included, and stays in step |
| HpackRuns.FieldsInStep | crates/tomcatrs-coyote/src/hpack.rs:958-1244 | while the encoder's table is a prefix of the decoder's every index is known, and a block keeps it so |
| HpackRuns.SizesAreAllowed | crates/tomcatrs-coyote/src/hpack.rs:1128-1132 | calls on the encoder alone always keep its size within the ceiling |
| HpackRuns.SetCeilingConnected | crates/tomcatrs-coyote/src/hpack.rs:937-939 | lowering the ceiling no further than the encoder's size keeps the run invariant |
| HpackRuns.StepConnected | crates/tomcatrs-coyote/src/hpack.rs:1128-1180 | each call keeps the run invariant; at a block boundary the capacities are equal |
| HpackRuns.RunConnected | crates/tomcatrs-coyote/src/hpack.rs:958-1244 | the run invariant holds after any allowed calls, from any connected pair |
| HpackRuns.EveryRunDelivers | crates/tomcatrs-coyote/src/hpack.rs:958-1244 | for any sequence of calls with any hints, table sizes and respected ceilings, the decoder returns exactly the lists sent, and the encoder's table is a prefix of the decoder's |
| HpackGaps.AfterSizesFits | crates/tomcatrs-coyote/src/hpack.rs:1128-1132 | after several sizes the encoder is fitted to the smallest and will announce the last |
| HpackGaps.GapTablesEqualIff | crates/tomcatrs-coyote/src/hpack.rs:1128-1244 | from equal tables, after a gap and any block the tables are equal if and only if what the announced size keeps fits the smallest size or the block's additions push out the first entry that does not |
| HpackGaps.FollowAllFit | crates/tomcatrs-coyote/src/hpack.rs:958-1244 | after a block a table holds what fits of the block's additions and its old entries |
| HpackGaps.BlockTablesEqualIff | crates/tomcatrs-coyote/src/hpack.rs:1128-1244 | after any block the tables are equal if and only if they were equal once the size was announced or the additions push out the first entry only the decoder kept |
| HpackGaps.TidyRunsStayEqual | crates/tomcatrs-coyote/src/hpack.rs:1128-1174 | when the last size of every gap is its smallest, the tables are equal after every block |
| HpackGaps.ShrinkThenGrowSeparates | crates/tomcatrs-coyote/src/hpack.rs:1128-1174 | emptying a non-empty table and restoring its size within a gap separates the tables |
| HpackGaps.TablesCanDiffer | crates/tomcatrs-coyote/src/hpack.rs:1128-1174 | a concrete run after which they differ |
| HpackCeilings.LoweredAloneBreaks | crates/tomcatrs-coyote/src/hpack.rs:937-1003 | a concrete run: the ceiling lowered under the encoder makes an index invalid |
| HpackCeilings.LoweredAndRaisedBreaks | crates/tomcatrs-coyote/src/hpack.rs:937-1003 | a second run: a size is set and announced within the ceiling, but the ceiling was lowered and raised in between, and the block fails |
| HpackCeilings.StepDeliversIff | crates/tomcatrs-coyote/src/hpack.rs:915-1244 | a call delivers if and only if its block arrives, and then keeps the tables' common history |
| HpackCeilings.RunDeliversIff | crates/tomcatrs-coyote/src/hpack.rs:915-1244 | for any calls, ceiling changes included, the lists received are the lists sent if and only if every block arrives at its turn |
| HpackCeilings.FreshRunDeliversIff | crates/tomcatrs-coyote/src/hpack.rs:915-1244 | the same from a fresh encoder and decoder |
| HpackPolicy.FormOfField | crates/tomcatrs-coyote/src/hpack.rs:1183-1244 | the first octet of a field: 1 for an index, 01 for a literal to index, 0000 for one without indexing, 0001 for one never to be indexed |
| HpackPolicy.FormOfUpdate | crates/tomcatrs-coyote/src/hpack.rs:1156-1174 | the first octet of a size update starts 001 |
| HpackPolicy.OnlyLetInEnters | crates/tomcatrs-coyote/src/hpack.rs:1183-1213 | whatever the hints, all that enters the encoder's table or a following decoder's is a field whose hint is to index it |
| HpackPolicy.SensitiveStaysOut | crates/tomcatrs-coyote/src/hpack.rs:1136-1149 | under the default policy no sensitive field enters either table |
| HpackPolicy.PlainFieldIsNewest | crates/tomcatrs-coyote/src/hpack.rs:1136-1213 | a field that is not sensitive, not known and not too large is the newest entry afterwards, after any fields before it |
| HpackPolicy.SensitiveIsNeverIndexed | crates/tomcatrs-coyote/src/hpack.rs:1136-1244 | an unknown field is written never-indexed exactly when it is sensitive and with indexing exactly when it is not |
| HpackPolicy.RunDiscreet | crates/tomcatrs-coyote/src/hpack.rs:1128-1180 | on any connected run that leaves the hints to the policy, tables without sensitive fields stay so |
| HpackPolicy.CredentialsStayOut | crates/tomcatrs-coyote/src/hpack.rs:1090-1149 | from the start of a connection with the built-in policy neither table ever holds an authorization or cookie field |
| HpackPolicy.IndexZeroRefused | crates/tomcatrs-coyote/src/hpack.rs:341-345 | index 0 is invalid |
| HpackPolicy.LateUpdateRefused | crates/tomcatrs-coyote/src/hpack.rs:986-1003 | a size update after a field is refused, whatever its size |
| Chunked.RunConcat | crates/tomcatrs-coyote/src/chunked.rs:175-231 | running over two fragments is running over their concatenation |
| Chunked.FragmentationDoesNotMatter | crates/tomcatrs-coyote/src/chunked.rs:175-231 | however a stream is cut, the state, octets used and error are those of one push |
| Chunked.RunUses | crates/tomcatrs-coyote/src/chunked.rs:175-231 | a run never uses more than its input, and uses all of it unless it completes or fails |
| Chunked.RunFeeds | crates/tomcatrs-coyote/src/chunked.rs:241-275 | accumulating a line and parsing it is the byte machine over the same octets |
| Chunked.RunCopies | crates/tomcatrs-coyote/src/chunked.rs:186-196 | copying a run of data at once is the byte machine over it |
| Chunked.StepSound | crates/tomcatrs-coyote/src/chunked.rs:175-341 | every octet keeps the framing facts and the trailer count within 32 and, short of the largest cap, body plus remaining chunk within the cap |
| Chunked.RunSound | crates/tomcatrs-coyote/src/chunked.rs:175-341 | so does every input under every cap, and short of an error no line is over its cap |
| Chunked.LargestCapLosesTheBound | crates/tomcatrs-coyote/src/chunked.rs:304-311 | under the largest cap a size line can put body plus remaining chunk over it |
| ChunkedRendering.OverflowRun | crates/tomcatrs-coyote/src/chunked.rs:175-315 | from the start, one chunk and a size line of sixteen `f` get there |
| ChunkedRendering.BodyBoundHoldsIff | crates/tomcatrs-coyote/src/chunked.rs:175-315 | for every input body plus remaining chunk is within the cap, if and only if the cap is not the largest `usize` |
| ChunkedRendering.FeedWholeLineIff | crates/tomcatrs-coyote/src/chunked.rs:241-275 | a line is read whole if and only if it and its CR are within the cap, and is refused as too large otherwise |
| Chunked.ChunkedDecoder.constructor | crates/tomcatrs-coyote/src/chunked.rs:123-133 | a decoder starts at a size line with nothing read |
| Chunked.ChunkedDecoder.FeedLine | crates/tomcatrs-coyote/src/chunked.rs:241-275 | a line up to its CRLF, more to come, or the error and the line it leaves |
| Chunked.ChunkedDecoder.ParseSizeLine | crates/tomcatrs-coyote/src/chunked.rs:279-315 | the new state or error of a complete size line |
| Chunked.ChunkedDecoder.ParseTrailerLine | crates/tomcatrs-coyote/src/chunked.rs:319-341 | the new state or error of a complete trailer line |
| Chunked.ChunkedDecoder.Push | crates/tomcatrs-coyote/src/chunked.rs:175-231 | a push is the fold of the byte machine, which stops when the body is complete |
| ChunkedRendering.RenderingDecodes | crates/tomcatrs-coyote/src/chunked.rs:175-341 | any rendering of chunks, extensions and trailers, with blanks around sizes, names and values, within the caps, whatever follows it, decodes to them and is consumed exactly |
| ChunkedRendering.EncodedDecodes | crates/tomcatrs-coyote/src/chunked.rs:354-364 | what the encoder writes decodes to the body |
| ChunkedRefusals.OverCapStops | crates/tomcatrs-coyote/src/chunked.rs:304-311 | after any chunks, a size that takes the body over the cap is refused as too large, with the body read so far and nothing more; the largest cap alone is excepted |
| ChunkedRefusals.NoSizeStops | crates/tomcatrs-coyote/src/chunked.rs:279-302 | a size line without digits, with another octet among them or with more than 64 bits is malformed |
| ChunkedRefusals.BadSizeLineStops | crates/tomcatrs-coyote/src/chunked.rs:241-275 | a size line that ends in a bare line feed is malformed, one of 4096 octets and its CRLF too large |
| ChunkedRefusals.UnendedDataStops | crates/tomcatrs-coyote/src/chunked.rs:197-214 | data that no CRLF follows is malformed, at either octet |
| ChunkedRefusals.BadTrailerStops | crates/tomcatrs-coyote/src/chunked.rs:319-341 | a trailer line without a colon, without a name or not UTF-8 is malformed, as is one with a bare line feed; one of 8192 octets and its CRLF is too large |
| ChunkedRefusals.TrailersAreLimited | crates/tomcatrs-coyote/src/chunked.rs:319-328 | a thirty-third trailer line is too large, whatever it says |
| ChunkedOneShot.DecodeChunked | crates/tomcatrs-compat-tests/src/lib.rs:412-443 | the whole-buffer loop, error by error |
| ChunkedOneShot.FirstChunk | crates/tomcatrs-coyote/src/chunked.rs:175-315 | a completed streaming decode begins with a size line and either ends there or has the whole chunk |
| ChunkedOneShot.StreamingRefinesOneShot | crates/tomcatrs-compat-tests/src/lib.rs:412-443 | when the streaming decoder completes, the whole-buffer decoder returns the same body if and only if every size line is UTF-8 |
| ChunkedOneShot.NonTextExtensionSeparates | crates/tomcatrs-compat-tests/src/lib.rs:412-443 | an input with a non-text extension that only the streaming decoder accepts |
| ChunkedOneShot.AsciiLinesAgree | crates/tomcatrs-compat-tests/src/lib.rs:412-443 | in particular for ASCII framing lines |
| Calendar.CivilStep | crates/tomcatrs-coyote/src/cookies.rs:332-349 | one day later the formula gives the calendar's next day |
| Calendar.FormulaIsCalendar | crates/tomcatrs-coyote/src/cookies.rs:326-349 | for every day, before the epoch or after, year, month, day and weekday are those of the calendar that steps by Gregorian leap rules from Thursday 1 January 1970 |
| HttpDate.FixdateIsCalendar | crates/tomcatrs-coyote/src/cookies.rs:317-361 | the printed date is the calendar's for every signed time |
| HttpDate.FormattersAgree | crates/tomcatrs-catalina/src/default_servlet.rs:716-748 | the two formatters print the same from the epoch on |
| HttpDate.RenderedParses | crates/tomcatrs-catalina/src/default_servlet.rs:766-813 | a printed date splits into its fields again |
| HttpDate.EpochSecondsInverts | crates/tomcatrs-catalina/src/default_servlet.rs:780-790 | the parser's arithmetic undoes the formula up to 64-bit wrap-around |
| HttpDate.DateRoundTrip | crates/tomcatrs-catalina/src/default_servlet.rs:716-813 | for every unsigned 64-bit time the printed date parses back to it if and only if it is below 2 to the 63, and not at all from there on |
| HttpDate.FixdateRoundTrip | crates/tomcatrs-coyote/src/cookies.rs:317-361 | the same for the signed formatter from the year 0 on: a date before the epoch does not parse |
| HttpDate.NamesInOrder | crates/tomcatrs-coyote/src/cookies.rs:317-361 | weekdays are counted from Sunday and months from January |
| HttpDate.WeekdayIsOverlooked | crates/tomcatrs-catalina/src/default_servlet.rs:766-769 | what stands before the first comma and blank of a date makes no difference, nor need it be there |
| ByteRanges.ComputeParseRange | crates/tomcatrs-catalina/src/default_servlet.rs:524-588 | the loop classifies a header element by element |
| ByteRanges.RangesInBounds | crates/tomcatrs-catalina/src/default_servlet.rs:524-588 | for every header each returned range has start at most end below the length |
| ByteRanges.ResolveSelects | crates/tomcatrs-catalina/src/default_servlet.rs:546-575 | a resolved range holds exactly the octets its specification selects, an unsatisfiable one none |
| ByteRanges.RenderedRanges | crates/tomcatrs-catalina/src/default_servlet.rs:524-588 | a rendered list, with any blanks and empty elements, gives exactly its satisfiable specifications in order, is ignored when it has none, and is unsatisfiable precisely when it has some and none is satisfiable |
| ByteRanges.UnitAndLength | crates/tomcatrs-catalina/src/default_servlet.rs:524-533 | another unit is ignored whatever the length; an empty file satisfies no range |
| ByteRanges.OneBadElement | crates/tomcatrs-catalina/src/default_servlet.rs:539-575 | one element that is no range, anywhere among any others, voids the header |
| ByteRanges.NothingListed | crates/tomcatrs-catalina/src/default_servlet.rs:539-588 | a list of nothing but blanks is ignored |
| DefaultServlet.ComputeEtagMatches | crates/tomcatrs-catalina/src/default_servlet.rs:632-652 | the loop finds a match exactly when some listed tag matches |
| DefaultServlet.OwnEtag | crates/tomcatrs-catalina/src/default_servlet.rs:623-652 | the servlet's tag matches itself weakly and never strongly |
| DefaultServlet.EchoedEtagIsFresh | crates/tomcatrs-catalina/src/default_servlet.rs:285-305 | echoing the tag in If-None-Match gives 304 for every size and time |
| DefaultServlet.EchoedEtagNeverMatches | crates/tomcatrs-catalina/src/default_servlet.rs:271-283 | echoing it in If-Match always fails the precondition |
| DefaultServlet.EchoedDateIsFreshIff | crates/tomcatrs-catalina/src/default_servlet.rs:285-305 | echoing the printed modification time gives 304 if and only if the time is below 2 to the 63 |
| DefaultServlet.EchoedDateHolds | crates/tomcatrs-catalina/src/default_servlet.rs:271-283 | echoing it in If-Unmodified-Since never fails the precondition |
| DefaultServlet.PartialInBounds | crates/tomcatrs-catalina/src/default_servlet.rs:254-360 | a partial response names only octets the file has |
| ConditionalRequests.WeakEtagInjective | crates/tomcatrs-catalina/src/default_servlet.rs:623-625 | two files have one tag exactly when they have one size and one time |
| ConditionalRequests.ListMatchesIff | crates/tomcatrs-catalina/src/default_servlet.rs:632-652 | a list of tags, weak and strong, of this servlet or not, with blanks, matches exactly when it lists the file's tag; for If-Match it must be listed as strong |
| ConditionalRequests.ConditionsDecide | crates/tomcatrs-catalina/src/default_servlet.rs:268-305 | for every combination of the four conditional headers and any Range: 412 exactly when If-Match, or without it If-Unmodified-Since, fails; else 304 exactly when If-None-Match, or without it If-Modified-Since, says that the client has the file; else the answer of an unconditional request |
| ConditionalRequests.StaleTagIsServed | crates/tomcatrs-catalina/src/default_servlet.rs:285-305 | a tag the servlet gave out gives 304 exactly while the file has the size and the time it had then, whatever date comes with it |
| ConditionalRequests.EchoedDateDecides | crates/tomcatrs-catalina/src/default_servlet.rs:285-305 | a printed date gives 304 exactly when it is below 2 to the 63 and the file did not change after it |
| ConditionalRequests.UnreadDateIsIgnored | crates/tomcatrs-catalina/src/default_servlet.rs:277-305 | a date that does not parse is no condition |
| ConditionalRequests.RangesServed | crates/tomcatrs-catalina/src/default_servlet.rs:307-360 | without conditions a list of ranges gives the whole file when it lists none, 416 when none is satisfiable, and else the satisfiable ones in order, in one part or several |
| UriNormalize.PercentDecode | crates/tomcatrs-coyote/src/normalize.rs:92-121 | the loop decodes octet by octet, or stops at the first error |
| UriNormalize.CollapseDotSegments | crates/tomcatrs-coyote/src/normalize.rs:128-151 | the loop is the stack fold of the segments |
| UriNormalize.StackMeaning | crates/tomcatrs-coyote/src/normalize.rs:131-143 | the stack survives exactly when no prefix has more `..` than names; it then holds only ordinary names of the path |
| UriNormalize.CollapseSucceedsIff | crates/tomcatrs-coyote/src/normalize.rs:128-151 | collapsing succeeds exactly when the path never climbs above the root |
| UriNormalize.CollapsedIsClean | crates/tomcatrs-coyote/src/normalize.rs:123-151 | a collapsed path is rooted and its segments are ordinary names |
| UriNormalize.CollapseIdempotent | crates/tomcatrs-coyote/src/normalize.rs:128-151 | collapsing again changes nothing |
| UriNormalize.CollapsedOctets | crates/tomcatrs-coyote/src/normalize.rs:128-151 | collapsing invents nothing but slashes |
| UriNormalize.DecodedHasNoNul | crates/tomcatrs-coyote/src/normalize.rs:92-121 | decoding never yields a NUL, plain or escaped |
| UriNormalize.AcceptedIsClean | crates/tomcatrs-coyote/src/normalize.rs:160-197 | every accepted path but `*` is rooted, without dot segments, inner empty segments, backslash or NUL, however they were spelled |
| UriRefusals.DecodesIffSpells | crates/tomcatrs-coyote/src/normalize.rs:92-121 | decoding gives a path exactly when the input spells it octet by octet: as itself or escaped, a slash only as itself, a percent sign only escaped, a NUL in no way |
| UriRefusals.SlashesKept | crates/tomcatrs-coyote/src/normalize.rs:92-121 | decoding neither adds nor removes a slash |
| UriRefusals.DecodingRefuses | crates/tomcatrs-coyote/src/normalize.rs:92-121 | after any decodable front an escaped slash, a NUL in either form and a broken escape each draw their own error, whatever follows |
| UriRefusals.EncodedSlashOffends | crates/tomcatrs-coyote/src/normalize.rs:104-109 | the escaped slash in either case of its digit, and the escaped NUL, are such offences |
| UriRefusals.AcceptedIff | crates/tomcatrs-coyote/src/normalize.rs:160-197 | a target is accepted exactly when it is `*` or a rooted spelling of UTF-8 text that never climbs above the root and has no backslash in either form |
| UriRefusals.RawRefused | crates/tomcatrs-coyote/src/normalize.rs:176-184 | a path that is not rooted and a plain backslash draw their errors before decoding |
| UriRefusals.EscapeRefused | crates/tomcatrs-coyote/src/normalize.rs:160-186 | a rooted target with an escaped slash, a NUL or a broken escape is refused by that error |
| UriRefusals.SpelledRefused | crates/tomcatrs-coyote/src/normalize.rs:188-194 | a decodable target is refused for an escaped backslash, bad UTF-8 or a climb above the root, in this order |
| UriRefusals.ParentCancels | crates/tomcatrs-coyote/src/normalize.rs:128-151 | in a path, an ordinary name with `..` after it may be left out |
| UriRefusals.DotIsNothing | crates/tomcatrs-coyote/src/normalize.rs:133-137 | a segment of one dot and an empty segment mean nothing |
| PercentCoding.UrlEncoded | crates/tomcatrs-catalina/src/manager_ui.rs:184-197 | an encoded string holds unreserved octets and `%` only |
| PercentCoding.UrlEncode | crates/tomcatrs-catalina/src/manager_ui.rs:184-197 | the loop encodes octet by octet |
| PercentCoding.FormDecode | crates/tomcatrs-catalina/src/manager.rs:562-597 | the loop decodes escapes and plus signs and falls back to its input |
| PercentCoding.EncodedFormDecodes | crates/tomcatrs-catalina/src/manager_ui.rs:180-197 | the manager reads back every string it encodes |
| PercentCoding.ParseQuery | crates/tomcatrs-catalina/src/manager.rs:546-559 | the loop builds the map of the pieces |
| PercentCoding.QueriesCompose | crates/tomcatrs-catalina/src/manager.rs:546-559 | joining any two queries with `&` overlays the second on the first |
| PercentCoding.RenderedQueryParses | crates/tomcatrs-catalina/src/manager.rs:546-597 | a query of encoded names and values parses to exactly those pairs, the last of a name winning |
| PercentCoding.SpelledNormalizes | crates/tomcatrs-coyote/src/normalize.rs:92-197 | a target spelled from encoded names normalizes to those names verbatim, trailing slash and query kept |
| FormSpelling.OctetWritten | crates/tomcatrs-catalina/src/manager_ui.rs:184-197 | letters, digits, `-`, `_`, `.` and `~` are written as they are and every other octet as `%` and two capital hexadecimal digits |
| FormSpelling.FormReads | crates/tomcatrs-catalina/src/manager.rs:562-597 | octets written plain, escaped or, for a blank, as a plus sign read back when they are text; otherwise the input is returned |
| FormSpelling.BrokenEscapeStays | crates/tomcatrs-catalina/src/manager.rs:572-590 | a percent sign without two digits after it stands for itself |
| FormSpelling.NameAlone | crates/tomcatrs-catalina/src/manager.rs:546-559 | a name alone has the empty value and an empty piece is no parameter |
| Unicode.ValidIff | crates/tomcatrs-coyote/src/hpack.rs:893-893 | octets are a valid string exactly when some Unicode scalar values encode to them |
| Unicode.TrimMeaning | crates/tomcatrs-coyote/src/chunked.rs:279-296 | trimming drops exactly the White_Space characters at both ends |
| AjpMessage.StringReadsBackIff | crates/tomcatrs-coyote/src/ajp.rs:321-369 | a written string reads back if and only if it is shorter than 65535 octets |
| AjpMessage.LongStringReadsAsNull | crates/tomcatrs-coyote/src/ajp.rs:321-369 | at 65535 octets it reads as null and leaves its octets to be read as fields |
| AjpMessage.StringTaken | crates/tomcatrs-coyote/src/ajp.rs:321-369 | null and every shorter string read back, whatever follows |
| AjpMessage.FrameReadsBack | crates/tomcatrs-coyote/src/ajp.rs:383-430 | a framed payload is read back and the stream is left just after it |
| AjpRefusals.ShortTextRefused | crates/tomcatrs-coyote/src/ajp.rs:304-331 | text that ends before its length, or before its NUL, is truncated |
| AjpRefusals.TextRefused | crates/tomcatrs-coyote/src/ajp.rs:321-336 | text without its NUL, and text that is not UTF-8, draw their errors |
| AjpMessage.AjpMessage.ReadU8 | crates/tomcatrs-coyote/src/ajp.rs:284-291 | one octet off the rest, or truncation with the cursor where it was |
| AjpMessage.AjpMessage.ReadU16 | crates/tomcatrs-coyote/src/ajp.rs:294-301 | a big-endian number off the rest, or truncation with the cursor where it was |
| AjpMessage.AjpMessage.ReadBytes | crates/tomcatrs-coyote/src/ajp.rs:304-311 | raw octets off the rest, or truncation with the cursor where it was |
| AjpMessage.AjpMessage.ReadString | crates/tomcatrs-coyote/src/ajp.rs:321-336 | a string, null, or the first of truncation, a missing NUL and bad UTF-8, and where the cursor stands in each case |
| AjpMessage.AjpMessage.ReadRequiredString | crates/tomcatrs-coyote/src/ajp.rs:340-343 | the same with null refused |
| AjpMessage.AjpMessage.constructor | crates/tomcatrs-coyote/src/ajp.rs:249-254 | a new message is empty |
| AjpMessage.AjpMessage.FromPayload | crates/tomcatrs-coyote/src/ajp.rs:257-262 | a wrapped payload is read from its start |
| AjpMessage.AjpMessage.WriteU8 | crates/tomcatrs-coyote/src/ajp.rs:348-350 | appends one octet |
| AjpMessage.AjpMessage.WriteU16 | crates/tomcatrs-coyote/src/ajp.rs:353-355 | appends a number big-endian |
| AjpMessage.AjpMessage.WriteRaw | crates/tomcatrs-coyote/src/ajp.rs:371-373 | appends octets as they are |
| AjpMessage.AjpMessage.WriteString | crates/tomcatrs-coyote/src/ajp.rs:359-368 | appends the length modulo 65536, the octets and a NUL, or the null marker |
| AjpMessage.AjpMessage.Encode | crates/tomcatrs-coyote/src/ajp.rs:383-392 | the frame, or a refusal over 65535 octets |
| AjpMessage.AjpMessage.WriteTo | crates/tomcatrs-coyote/src/ajp.rs:433-441 | sends the whole frame or nothing |
| AjpMessage.ReadFrom | crates/tomcatrs-coyote/src/ajp.rs:404-430 | one packet, none at a clean end, or an error, and what is left of the stream in each case |
| AjpResponse.EncodeSendHeaders | crates/tomcatrs-coyote/src/ajp.rs:753-765 | the payload of Send Headers |
| AjpResponse.EncodeSendBodyChunk | crates/tomcatrs-coyote/src/ajp.rs:771-781 | the payload of a chunk, or a refusal over 8192 octets |
| AjpResponse.EncodeEndResponse | crates/tomcatrs-coyote/src/ajp.rs:787-792 | the payload of End Response |
| AjpResponse.WriteResponse | crates/tomcatrs-coyote/src/ajp.rs:1035-1051 | writes the three kinds of packets in order; fails, with nothing written, exactly when the header packet is too long |
| AjpResponse.Chunks | crates/tomcatrs-coyote/src/ajp.rs:1040-1044 | the pieces are non-empty, at most 8192 octets, full but for the last, and concatenate to the body |
| AjpResponse.ChunkCount | crates/tomcatrs-coyote/src/ajp.rs:1040-1044 | there are as many as 8192 octets at a time need, and none for an empty body |
| AjpResponse.HeadersTaken | crates/tomcatrs-coyote/src/ajp.rs:753-765 | a header packet that fits reads back to the status, reason and ordered headers; its size alone rules out every truncated length |
| AjpResponse.ResponseReadsBack | crates/tomcatrs-coyote/src/ajp.rs:1035-1051 | whatever can be written reads back as headers, chunks and end, and the stream goes on after it |
| AjpResponse.ConversationReadsBack | crates/tomcatrs-coyote/src/ajp.rs:928-1051 | the responses of a whole connection read back with nothing left over |
| AjpResponse.BodyArrives | crates/tomcatrs-coyote/src/ajp.rs:1035-1051 | the chunk messages of a response carry its body and nothing else |
| AjpRequest.DecodeHead | crates/tomcatrs-coyote/src/ajp.rs:539-558 | the fields before the headers, or the first error |
| AjpRequest.DecodeName | crates/tomcatrs-coyote/src/ajp.rs:564-589 | a coded or spelled header name, lower-cased |
| AjpRequest.DecodeHeaders | crates/tomcatrs-coyote/src/ajp.rs:560-595 | the announced number of headers in order; the last content-length counts |
| AjpRequest.DecodeAttributes | crates/tomcatrs-coyote/src/ajp.rs:597-647 | the attributes up to the terminator, or the first error |
| AjpRequest.DecodeForward | crates/tomcatrs-coyote/src/ajp.rs:539-667 | the whole packet |
| AjpForward.NameReadsBackIff | crates/tomcatrs-coyote/src/ajp.rs:564-589 | a written name reads back lower-cased if and only if its length does not wrap and does not start like a header code |
| AjpForward.LastAttributeWins | crates/tomcatrs-coyote/src/ajp.rs:597-647 | for every code the last attribute counts; a null stored method never does |
| AjpForward.LayoutDecodes | crates/tomcatrs-coyote/src/ajp.rs:539-667 | a request laid out on the wire decodes back to itself, whatever follows it |
| AjpForward.PairChangesNothing | crates/tomcatrs-coyote/src/ajp.rs:628-640 | a req_attribute pair after any attributes leaves the outcome unchanged, also when what follows is refused |
| AjpForward.PairsAreDropped | crates/tomcatrs-coyote/src/ajp.rs:628-640 | packets that differ only in pairs, any number anywhere, decode alike |
| AjpDeclared.LowerIff | crates/tomcatrs-coyote/src/ajp.rs:588-588 | a spelled name reads as a lower-case one exactly when it spells it in letters of either case |
| AjpDeclared.LastLengthCounts | crates/tomcatrs-coyote/src/ajp.rs:591-593 | the last content-length header counts, whatever precedes it: a number of 64 bits between blanks declares itself |
| AjpDeclared.NoLengthIsZero | crates/tomcatrs-coyote/src/ajp.rs:563-595 | without such a header the length is 0 |
| AjpDeclared.NoNumberIsZero | crates/tomcatrs-coyote/src/ajp.rs:591-593 | a last content-length that is no number, or is too large, declares 0 |
| AjpDeclared.DeclaredArrives | crates/tomcatrs-coyote/src/ajp.rs:539-667 | on the wire, the last header that names the body's length, by its code or spelled in any case, sets the decoded request's length |
| AjpDeclared.NothingDeclared | crates/tomcatrs-coyote/src/ajp.rs:539-667 | a request on the wire without such a header has length 0 |
| AjpRefusals.CutFrameRefused | crates/tomcatrs-coyote/src/ajp.rs:404-430 | a stream that ends inside a packet is refused, one that ends before a packet is a clean end |
| AjpRefusals.OtherMagicRefused | crates/tomcatrs-coyote/src/ajp.rs:404-430 | a packet with another magic is refused with only its header consumed |
| AjpRefusals.OtherPacketRefused | crates/tomcatrs-coyote/src/ajp.rs:540-545 | another packet type is refused |
| AjpRefusals.OtherMethodRefused | crates/tomcatrs-coyote/src/ajp.rs:547-550 | a method code outside 1 to 27 is refused |
| AjpRefusals.OtherHeaderRefused | crates/tomcatrs-coyote/src/ajp.rs:569-577 | after any headers, a header code outside 0xA001 to 0xA00E is refused |
| AjpRefusals.OtherAttributeRefused | crates/tomcatrs-coyote/src/ajp.rs:597-647 | after any attributes, an unknown attribute code is refused |
| AjpRefusals.UnendedRefused | crates/tomcatrs-coyote/src/ajp.rs:597-606 | attributes without a terminator are truncated |
| Mapper.ParsedTextIsKept | crates/tomcatrs-catalina/src/mapper.rs:54-148 | parsing a pattern loses nothing but the difference between the empty pattern and `/`, and printing then parsing gives it back |
| Mapper.KindsByShape | crates/tomcatrs-catalina/src/mapper.rs:54-75 | a pattern with slash star at its end is a prefix, else one with `*.` at its start an extension, the empty one and `/` the default, and any other exact |
| Mapper.ExtensionIff | crates/tomcatrs-catalina/src/mapper.rs:94-104 | an extension matches exactly the paths that end in a dot and the extension, if it has neither dot nor slash |
| Mapper.CompoundExtensionNeverMatches | crates/tomcatrs-catalina/src/mapper.rs:94-104 | an extension with a dot or a slash in it matches no path |
| Mapper.TiesAreIdentical | crates/tomcatrs-catalina/src/mapper.rs:111-136 | two matches of the same rank are the same pattern |
| Mapper.ResolveWrapper | crates/tomcatrs-catalina/src/mapper.rs:267-289 | the nested loops are the first-best search over all patterns in declaration order |
| Mapper.FirstBestIsFirstMaximum | crates/tomcatrs-catalina/src/mapper.rs:267-289 | nothing is found exactly when nothing matches; otherwise the first of the highest-ranking matches |
| Mapper.BestWinsByKind | crates/tomcatrs-catalina/src/mapper.rs:111-136 | the winner is the exact pattern for the path if declared, else the longest prefix that matches, else an extension, else the default; its wrapper is the first to declare it; and there is one if anything matches |
| Mapper.WinnerIgnoresOrder | crates/tomcatrs-catalina/src/mapper.rs:267-289 | the winning pattern depends on the set of declared patterns, not on their order |
| Mapper.SlashStarBeatsExtensions | crates/tomcatrs-catalina/src/mapper.rs:111-136 | where the match-all prefix is declared no extension and no default pattern wins |
| Mapper.ResolveContext | crates/tomcatrs-catalina/src/mapper.rs:245-263 | whatever the order of the walk, the result is a context over the URI that no rival exceeds in length, or none when there is none |
| Mapper.PathsOverUriDiffer | crates/tomcatrs-catalina/src/mapper.rs:301-307 | two different context paths over a rooted URI differ in length |
| Mapper.LongestIsUnique | crates/tomcatrs-catalina/src/mapper.rs:245-263 | so the longest context is unique |
| Mapper.PartsRebuildUri | crates/tomcatrs-catalina/src/mapper.rs:301-361 | context path, servlet path and path info rebuild the URI; a bare context URI gains a slash |
| Mapper.Map | crates/tomcatrs-catalina/src/mapper.rs:204-223 | the longest context; in it the winner by kind and length, and the first wrapper that declares it; the servlet path and path info that its kind implies; the rebuilt URI; or none when there is no claimant |
| KnownVectors.Integers | crates/tomcatrs-coyote/src/hpack.rs:1284-1307 | the worked integers of Appendix C.1 of RFC 7541 |
| KnownVectors.StaticEntries | crates/tomcatrs-coyote/src/hpack.rs:125-188 | static entries that Appendix C of RFC 7541 and the tests name |
| KnownVectors.Wire | crates/tomcatrs-coyote/src/ajp.rs:1304-1339 | numbers go out high octet first, packets to the proxy start `AB`, and End Response is 5 and the reuse flag |
| KnownVectors.ExampleDate | crates/tomcatrs-coyote/src/cookies.rs:650-660 | the example date of section 5.6.7 of RFC 9110 is printed as there |

## Left out

- UriNormalize.AcceptedIsClean: that a collapsed path is UTF-8 is not stated; the program's string type guarantees it.
- AjpRequest.DecodeForward: the reading of one packet is split into the head, a name, the headers and the attributes; the stored method is kept beside the coded one and chosen at the end.
- The unbounded sums of entry sizes stand for machine sums that would need more memory than a machine has to wrap around.
- `HpackEncoder::set_sensitivity_predicate` (a plain field update); the sensitivity predicate is a parameter.
- The reason texts inside errors, logging, and the debug and display implementations.
- Sockets, TLS, tasks and timers: a stream is the octets still to arrive and those sent.
- The AJP connection loop, CPing and Shutdown, the request body exchange, the shared secret and the conversion of a Forward Request into a request.
- File-system access: the length and modification time of a file are inputs; the multipart body, headers and MIME types of a response are not built.
- `Accept` quality lists, cookies and `Set-Cookie`.
- Host resolution by name, alias and default, lifecycle, filters, valves and configuration parsing.
- HTTP/1 and HTTP/2 framing around these codecs.
