# A verified model of the command server

The server accepts commands over TCP and WebSocket, decodes them with code generated from each device's
argument list, starts devices on demand and notifies subscribed sessions. This project models its codecs,
its parser, its hash and its state machines, and proves what they promise. `dafny verify dfyconfig.toml`
checks everything.

| component | files | main results |
|---|---|---|
| SHA-1 | `Fips180`, `Fips180Laws`, `Sha1`, `Bits` | the buffered hash with its circular schedule computes the digest of FIPS 180-4 for every message |
| JSON parser | `JsonMachine`, `JsonText`, `JsonTextLaws`, `JsonShift`, `JsonString`, `JsonNumber`, `JsonNumberLaws`, `JsonParser`, `JsonPrint`, `JsonClip`, `JsonList`, `JsonHeap`, `JsonStack`, `JsonAllocator`, `JsonAllocatorLaws`, `JsonMemory`, `JsonPacking` | the stack machine accepts exactly a stated grammar; print and parse is the identity; the values that the parser builds on the heap, each node in memory of its own, walked, are the parsed tree; when the loop leaves the buffer; zone allocator; bit packing of values |
| Wire format | `Wire`, `WireLaws`, `WireOutcome`, `WireWriter`, `WireReader`, `WireTrip`, `NetworkOrder`, `Sockets` | what `build_command` writes, both transports read back; what each reader makes of any other bytes |
| Device start-up | `Devices` | the recursive start is a search that finds exactly the reachable devices and detects exactly the cycles |
| WebSocket | `WebSocketFrame`, `WebSocket`, `Sockets` | receiving and sending agree with RFC 6455 for every split of reads and writes |
| Sessions | `Sessions` | ids and subscriptions over every run |
| Base64 | `Base64` | the loops follow section 4 of RFC 4648, and decoding undoes encoding |

Each component has a specification on values (`Fips180.Digest`, `JsonMachine.Derives`, `WireOutcome.PacksOutcome`,
`Devices.Reaches`, `WebSocketFrame.ParseFrame`, `Sessions.Run`, `Base64.Encode`) and the code in its own
form: classes with the fields that the source updates, arrays for its buffers, loops where it loops. Each
method is tied to the specification, and the lemmas are about the specification. The modules whose names end in
`Laws`, and `JsonShift`, say what a specification means in other words than its own: by division, by single bits
and characters, and by the examples of the standards. `Common` holds what several
components share.

Points where the code does less than a caller might expect, with the exact condition:

- `jsonParse` reads past its text when only white space or an unfinished comment remains
  (`JsonText.RunsPastExactly`).
- A string with an escaped NUL is cut short for a reader of C strings (`JsonClip.SeenWholeExactly`,
  `JsonClip.EscapedNulIsCut`; `JsonClip.WithoutEscapedNul` is a check before the call).
- A string without its closing quote is accepted at the end of a text (`JsonText.UnclosedExactly`,
  `JsonText.UnclosedIsAccepted`).
- A NaN with certain bits is taken for another kind of value (`JsonPacking.NumberExactly`,
  `JsonPacking.TaggedNaN`).
- `string2double` counts the exponent in 32 bits (`JsonNumber.ReadsWrittenExactly`,
  `JsonNumber.LargeExponentIsLost`).
- `JsonAllocator::allocate` gives overlapping memory when a sum of sizes wraps
  (`JsonAllocator.CallsServedExactly`, `JsonAllocator.WrapOverlaps`).
- The WebSocket argument reader compares a length with the buffer size, and not with what is left of the
  buffer after the cursor (`WireOutcome.StaysInsideExactly`, `WireOutcome.FullLengthLeadsBeyond`).
- The TCP argument reader goes on when the stream has ended, and fails on a container of 2^31 bytes although it
  has read it (`WireOutcome.GoesOnExactly`, `WireOutcome.EndedStreamGoesOn`, `WireTrip.LongTextIsRefused`).
- `build_command` writes past its pack when a run of scalars has more than 1024 bytes
  (`WireTrip.RunsFitExactly`, `WireTrip.TooManyScalars`), and cuts a container to its size modulo 2^32
  (`Wire.CutAllIsGood`, `WireTrip.LongTextIsLost`).
- `DeviceManager::get` gives a null reference to a device that is under construction (`Devices.Manager.Get`).
- `WebSocket::read_n_bytes` compares with the TCP buffer size, so that one frame size is refused
  (`WebSocket.ReceivesFrame`, `WebSocket.RefusedSize`).
- SUBSCRIBE_PUBSUB narrows its channel to 16 bits, so that 65536 means channel 0
  (`Sessions.ChannelIsNarrowed`).
- `send_request` returns the size of the last chunk, which is the whole only when there was one chunk
  (`WebSocket.Connection.SendRequest`).
- The header comment in core/kserver_session.cpp:23-24 shows a payload size field that neither the writer nor
  the readers have; the model follows the code.

## Model

| member | source | states |
|---|---|---|
| `Sha1.Hash` | core/crypto/sha1.cpp:325-335 | for every message, the digest is the chained compression of the message with its padding, the length counter taken modulo 2^64; below 2^64 bits this is the digest of FIPS 180-4 |
| `Sha1.PaddedMessageHash` | core/crypto/sha1.cpp:239-296 | a message fed through the 64-byte buffer and then padded from the fill level alone hashes to the block-by-block fold over the padded message, for every compression function |
| `Sha1.SplitIndependent` | core/crypto/sha1.cpp:273-296 | feeding `xs` and then `ys` leaves the same hash, buffer, fill level and length as feeding `xs + ys`, from every fill level |
| `Sha1.PutAllHashesBlocks` | core/crypto/sha1.cpp:120-135 | byte-by-byte feeding compresses exactly the whole blocks; what is left over is in the buffer |
| `Sha1.PutAllCounts` | core/crypto/sha1.cpp:120-135 | the fill level and the wrapping 64-bit length counter after any number of bytes |
| `Sha1.PutAllKeepsZeroTail` | core/crypto/sha1.cpp:120-135 | a buffer that is zero from its fill level on stays so, as it is from the start |
| `Sha1.PutChunk` | core/crypto/sha1.cpp:287-293 | one block copy of any chunk that fits equals feeding its bytes one at a time, including the compression when it fills the buffer |
| `Sha1.TailZeros` | core/crypto/sha1.cpp:247-259 | the zeros written in one or two tail blocks number exactly the smallest solution of the congruence of section 5.1.1 |
| `Sha1.FedZeros` | core/crypto/sha1.cpp:249-259 | zeroing in bulk, in one or two blocks, equals feeding the same number of zero bytes |
| `Sha1.NextSlot` | core/crypto/sha1.cpp:187-190 | the word computed from slots s+13, s+8, s+2 and s is the word W_t of the 80-word recurrence |
| `Sha1.WindowAdvances` | core/crypto/sha1.cpp:186-215 | after slot t & 15 is overwritten, the sixteen slots again hold the newest schedule words, one per residue |
| `Sha1.WindowStays` | core/crypto/sha1.cpp:186-190 | in the first sixteen rounds the slots hold W_0 to W_15 untouched |
| `Sha1.HeldWord` | core/crypto/sha1.cpp:189-212 | in round t the slot for t-3, t-8, t-14 or t-16 still holds that word of the recurrence |
| `Sha1.F0` | core/crypto/sha1.cpp:108-108 | the choice written with "or" is Ch of section 4.1.1 |
| `Sha1.F1` | core/crypto/sha1.cpp:109-109 | the parity of section 4.1.1 |
| `Sha1.F2` | core/crypto/sha1.cpp:110-110 | the majority written with "or" is Maj of section 4.1.1 |
| `Sha1.EndianSwap` | core/crypto/sha1.cpp:146-182 | swapping the four bytes of a word and reading it as little-endian reads it as big-endian |
| `Sha1.Context.constructor` | core/crypto/sha1.cpp:228-237 | the initial hash of section 5.3.1, an empty zeroed buffer, counters at zero |
| `Sha1.Context.LoadWords` | core/crypto/sha1.cpp:146-184 | the swapped buffer, seen as words, is the sixteen big-endian words of the block |
| `Sha1.Context.AdvanceSlot` | core/crypto/sha1.cpp:186-190 | keeps the window of schedule words from round to round, and leaves W_t in slot t & 15 |
| `Sha1.Context.Step` | core/crypto/sha1.cpp:139-224 | the circular schedule and four loops, with the source's assignments and table, give the compression of section 6.1.2; the buffer ends zeroed and the counters unchanged |
| `Sha1.Context.Absorb` | core/crypto/sha1.cpp:273-296 | the new context is that of feeding the input one byte at a time, for every fill level |
| `Sha1.Context.CopyIn` | core/crypto/sha1.cpp:284-294 | one turn of the loop: the chunk in the buffer, the 8-bit count, the 64-bit length, and a compression when the buffer is full |
| `Sha1.Context.PutPad` | core/crypto/sha1.cpp:129-135 | one padding byte, which is not counted in the length |
| `Sha1.Context.ZeroFill` | core/crypto/sha1.cpp:257-259 | zeroing with the count advanced equals feeding zeros |
| `Sha1.Context.ZeroFillBlock` | core/crypto/sha1.cpp:249-256 | filling the block with zeros and compressing equals feeding zeros |
| `Sha1.Context.PutLength` | core/crypto/sha1.cpp:265-270 | the eight length bytes, most significant first |
| `Sha1.Context.PadZeros` | core/crypto/sha1.cpp:247-259 | the zeros of section 5.1.1, in one or two blocks |
| `NetworkOrder.ReversedMemory` | core/crypto/sha1.cpp:265-270 | the bytes of a word in memory, last one first, are its big-endian bytes |
| `Sha1.Context.Pad` | core/crypto/sha1.cpp:239-271 | equals feeding 0x80, the zeros of section 5.1.1 and the length field |
| `Sha1.Context.Result` | core/crypto/sha1.cpp:298-319 | the digest bytes of the hash after padding |
| `Fips180.HashBlocksAppend` | core/crypto/sha1.cpp:283-295 | hashing may stop after any byte and go on with the bytes left over |
| `Fips180.ZeroCountIsSmallest` | core/crypto/sha1.cpp:247-259 | the number of zero bytes solves the congruence of section 5.1.1, and nothing smaller does |
| `Fips180.PadIsWholeBlocks` | core/crypto/sha1.cpp:239-271 | a padded message is whole blocks and starts with the message |
| `Bits.ChooseOrIsXor` | core/crypto/sha1.cpp:108-108 | "or" and "exclusive or" of the two halves of a choice agree at every width |
| `Bits.MajorityOrIsXor` | core/crypto/sha1.cpp:110-110 | "or" and "exclusive or" of the three conjunctions of a majority agree |
| `Sha1.RoundIs` | core/crypto/sha1.cpp:192-216 | the assignments of a round, with the sum in `tmp` and the constant `_K[t / 20]`, are the round of section 6.1.2 |
| `Bits.BitwiseBits` | core/crypto/sha1.cpp:108-111 | the bits of a bitwise operation are the operation on the bits |
| `Fips180Laws.AbcFirstRound` | core/crypto/sha1.cpp:184-193 | the registers after round 0 of the message "abc" are the published ones |
| `Fips180Laws.RegistersTravel` | core/crypto/sha1.cpp:192-193 | whatever is added: the old `a` is in `b`, and then, rotated once by 30, in `c`, `d` and, four rounds on, `e` |
| `Fips180Laws.NewRegister` | core/crypto/sha1.cpp:192-193 | the new `a` is, modulo 2^32, the sum of `a` turned by five bits, the function, `e`, the word and the constant |
| `Fips180Laws.ConstantsAreRoots` | core/crypto/sha1.cpp:105-106 | the four constants are the square roots of 2, 3, 5 and 10, times 2^30, rounded down |
| `Fips180Laws.RotationsTurn` | core/crypto/sha1.cpp:113-113 | the rotations by 1, 5 and 30 are that many turns of one bit |
| `Fips180Laws.FunctionsByRound` | core/crypto/sha1.cpp:186-217 | which of the functions is used in which rounds |
| `Fips180Laws.FunctionsBitByBit` | core/crypto/sha1.cpp:108-111 | bit by bit: one operand chooses between the others, the sum of the three modulo 2, at least two of the three |
| `Fips180Laws.ScheduleOffsets` | core/crypto/sha1.cpp:187-190 | a block with one bit set: word 16 is that bit, turned once, exactly when it is in word 0, 2, 8 or 13 |
| `Fips180Laws.ScheduleShifts` | core/crypto/sha1.cpp:187-190 | a later word of the schedule is word 16 of the block made of the sixteen words before it |
| `Fips180Laws.InitialBytes` | core/crypto/sha1.cpp:228-237 | the bytes of the first four initial words count up and down |
| `Fips180Laws.EightyRounds` | core/crypto/sha1.cpp:186-224 | the compression is eighty rounds from the chaining value, added to it |
| `Fips180Laws.RegistersAdd` | core/crypto/sha1.cpp:219-223 | each register is added to its own, modulo 2^32 |
| `Fips180Laws.DigestInOrder` | core/crypto/sha1.cpp:298-319 | byte `i` of a digest is byte `i % 4`, most significant first, of register `i / 4` |
| `Fips180Laws.AbcPadded` | core/crypto/sha1.cpp:239-271 | the padded message "abc", byte by byte |
| `JsonMachine.AcceptsExactlyDerivations` | core/gason.cpp:167-372 | the stack machine returns JSON_OK with `v` after `k` tokens if and only if those tokens derive `v` in the grammar with optional separators and at most 32 levels |
| `JsonMachine.Arrive` | core/gason.cpp:344-369 | a value that arrives leaves a stack of at most 32 levels, with `separator` true whenever it is empty |
| `JsonMachine.Step` | core/gason.cpp:296-369 | every token keeps the stack between 0 and 32 levels, and `separator` true outside containers, so that no stack access is out of bounds |
| `JsonMachine.RunValue` | core/gason.cpp:167-372 | on the tokens of any derivation the machine does what the arrival of the derived value does, and uses exactly those tokens |
| `JsonMachine.RunParts` | core/gason.cpp:312-369 | the entries of a container, with any choice of separators, become its nodes in order |
| `JsonMachine.RunPart` | core/gason.cpp:352-369 | one entry, with or without colon and comma, becomes one node |
| `JsonMachine.RunKey` | core/gason.cpp:352-358 | a key and its optional colon leave the key waiting for its value |
| `JsonMachine.StepSound` | core/gason.cpp:296-369 | one step extends the partial derivation of the open containers by the token it consumes |
| `JsonMachine.CloseSound` | core/gason.cpp:296-311 | a closing bracket turns the innermost open level into a derivation of the container |
| `JsonMachine.SeparatorSound` | core/gason.cpp:312-337 | opening brackets, colons and commas extend the partial derivation by themselves |
| `JsonMachine.ArriveSound` | core/gason.cpp:344-369 | a derived value extends the innermost open level, or ends the parse with exactly that value |
| `JsonMachine.RunSound` | core/gason.cpp:167-372 | a run that ends in JSON_OK from any open state completes a derivation of all tokens read |
| `JsonText.ParsesExactlyDerivedTexts` | core/gason.cpp:167-372 | parsing a text gives `v` and stops at `end` if and only if the text up to `end` is read as tokens that derive `v` |
| `JsonText.ParsedIsLexed` | core/gason.cpp:177-371 | a parse that returns a value has read tokens that the machine accepts, and ends where the last of them ends |
| `JsonText.LexedIsParsed` | core/gason.cpp:177-371 | tokens that the machine accepts are parsed to the accepted value |
| `JsonText.RunsPastExactly` | core/gason.cpp:177-189 | the loop leaves the buffer if and only if, while the machine still wants tokens, only white space, NULs and comments remain and their end is not taken for the end of the text |
| `JsonText.TidyStaysInside` | core/gason.cpp:177-371 | no comment, no inner NUL and no white space at the end is enough for the parse to stop inside the buffer |
| `JsonText.UntidyRunsPast` | core/gason.cpp:178-189 | a single space, and a comment without a newline, are texts that lead past the buffer |
| `JsonText.UnclosedExactly` | core/gason.cpp:214-276 | a literal that the text ends before it closes is taken as a string: JSON_OK if and only if it is outside all containers, else breaking bad |
| `JsonText.UnclosedIsAccepted` | core/gason.cpp:214-276 | a quote and a letter are accepted as a string of that letter |
| `JsonShift.WhiteSpaceIsSkipped` | core/gason.cpp:178-180 | wherever the loop stands, any white space before what is still to be read changes nothing but the place where the parse ends |
| `JsonShift.CommentIsSkipped` | core/gason.cpp:184-189 | a number sign and the rest of its line are skipped; the character after the sign is not looked at, even if it is a newline |
| `JsonShift.ParseShift` | core/gason.cpp:177-371 | a parse depends only on the characters from where it stands, not on how many came before |
| `JsonTextLaws.SmallDocument` | core/gason.cpp:167-372 | a document with an object, an array, the three words and a number, character by character, and its tree |
| `JsonTextLaws.WordEndsExactly` | core/gason.cpp:282-285 | a word is a token exactly before a comma, a colon, a closing bracket, white space or the end |
| `JsonTextLaws.StringEndsExactly` | core/gason.cpp:273-276 | the same for a closed literal |
| `JsonTextLaws.NumberEndsExactly` | core/gason.cpp:205-211 | the same for a number |
| `JsonTextLaws.BadTokens` | core/gason.cpp:193-341 | texts of the errors of single tokens |
| `JsonTextLaws.BadStarts` | core/gason.cpp:296-372 | texts of the errors outside all containers |
| `JsonTextLaws.BadContainers` | core/gason.cpp:296-369 | texts of the errors inside a container |
| `JsonTextLaws.ThirtyTwoLevels` | core/gason.cpp:312-319 | any number of opening brackets: up to 32 the text is incomplete, above it is an overflow |
| `JsonPrint.RoundTrip` | core/gason.cpp:177-371 | every tree of at most 32 levels with whole numbers, printed and parsed, comes back with keys and elements in order, and all its characters are read |
| `JsonPrint.LexValue` | core/gason.cpp:177-371 | the printed characters of a tree are read as exactly the tokens of its derivation |
| `JsonPrint.DerivationIsOf` | core/gason.cpp:296-369 | the derivation that is printed is grammatical, derives the tree and has its depth |
| `JsonPrint.ScanOfEscape` | core/gason.cpp:212-277 | an escaped byte string is read back as the same bytes, up to its quote |
| `JsonPrint.NumberOfInt` | core/gason.cpp:101-147 | a printed integer is read back as its value, up to the delimiter |
| `JsonNumber.StringToDouble` | core/gason.cpp:101-147 | the end is the first character after the number; the value is the number that is written if and only if the exponent is below 2^32 or the mantissa is zero, and otherwise the one with the exponent modulo 2^32 |
| `JsonNumber.ReadsWrittenExactly` | core/gason.cpp:101-147 | for every text, the number that is read is the number that is written if and only if the exponent fits its 32-bit counter or the mantissa is zero |
| `JsonNumber.LargeExponentIsLost` | core/gason.cpp:133-142 | the text 1e4294967296 is read as 1, and does not write 1 |
| `JsonNumber.FractionIsScaled` | core/gason.cpp:112-120 | digits after the point are worth their decimal value scaled down by ten to their number |
| `JsonNumber.ReadInteger` | core/gason.cpp:108-110 | the decimal value of the longest run of digits |
| `JsonNumber.ReadFraction` | core/gason.cpp:112-120 | adds the value of the digits after the point |
| `JsonNumber.ReadPower` | core/gason.cpp:122-143 | the power of ten of the signed exponent, taken modulo 2^32 |
| `JsonNumber.ReadExponent` | core/gason.cpp:133-135 | the digits of the exponent modulo 2^32 |
| `JsonNumber.Power` | core/gason.cpp:137-140 | square-and-multiply gives the power |
| `JsonNumber.RealPowHalf` | core/gason.cpp:137-140 | one turn of square-and-multiply keeps power times base to the exponent |
| `JsonNumberLaws.DecimalWithExponent` | core/gason.cpp:101-147 | every text of a sign, digits, fraction digits, `e` or `E`, a sign and exponent digits: the value times ten to the number of fraction digits is the whole of its digits times ten to the exponent, or, after a minus, the value times both powers is the whole; the value that is read has the exponent modulo 2^32, the value that is written the whole exponent |
| `JsonNumberLaws.PlainDecimal` | core/gason.cpp:101-120 | the same without an exponent, and where the number ends |
| `JsonNumberLaws.MantissaIsScaled` | core/gason.cpp:101-120 | times ten to the number of fraction digits, the number before the exponent is the whole of its digits |
| `JsonNumberLaws.DigitsTogether` | core/gason.cpp:108-120 | digits after digits write the first number times a power of ten, plus the second |
| `JsonNumberLaws.MinusInExponent` | core/gason.cpp:127-131 | the text 1e-2 is a hundredth |
| `JsonNumberLaws.PlusInExponent` | core/gason.cpp:126-127 | the text 1E+2 is a hundred |
| `JsonString.ReadString` | core/gason.cpp:212-272 | the bytes left in place are those of a pure unescape, closed by a NUL; the write cursor stays behind the read cursor; nothing before the literal or after it changes |
| `JsonString.ReadUnit` | core/gason.cpp:215-271 | one character or escape is written over bytes already read, or the quote or an invalid escape is found |
| `JsonString.ReadEscape` | core/gason.cpp:216-263 | an escape is written over bytes already read, or is invalid |
| `JsonString.ReadHex` | core/gason.cpp:240-248 | four hexadecimal digits and their value, or a failure exactly when they are not there |
| `JsonString.WriteUtf8` | core/gason.cpp:249-258 | the 1-, 2- or 3-byte form, and nothing else written |
| `JsonString.Utf8RoundTrip` | core/gason.cpp:249-258 | a code unit comes back from its bytes, which have the lead and continuation marks of the 1-, 2- or 3-byte form and are the shortest |
| `JsonString.Utf8IsInjective` | core/gason.cpp:249-258 | two code units never give the same bytes |
| `JsonString.InPlaceStep` | core/gason.cpp:214-272 | one turn of the loop keeps bytes written, bytes still to be read and the text outside |
| `JsonString.InPlaceCloses` | core/gason.cpp:267-271 | at the quote the bytes written are the whole unescaped literal |
| `JsonString.InPlaceEnds` | core/gason.cpp:214-214 | an unclosed literal shows what was unescaped and then the bytes it was written over |
| `JsonTextLaws.EscapesStand` | core/gason.cpp:220-238 | in any text: the eight letters after a backslash with the bytes they stand for, and no other but `u` |
| `JsonTextLaws.HexEscapeStands` | core/gason.cpp:239-258 | every 16-bit number, in four hexadecimal digits of either case after a backslash and `u`, is its UTF-8 bytes |
| `JsonTextLaws.HexLettersStand` | core/gason.cpp:90-99 | four hexadecimal digits are their number |
| `JsonTextLaws.PublishedUtf8` | core/gason.cpp:249-258 | the code units of the first example in section 7 of RFC 3629 |
| `JsonTextLaws.PlainCharacters` | core/gason.cpp:264-271 | any other character stands for itself unless it is a control character |
| `JsonParser.ReadToken` | core/gason.cpp:181-342 | the token that starts at a character; the text before it is kept, and the rest is still there to be read |
| `JsonParser.ReadWord` | core/gason.cpp:278-295 | a literal name is read exactly when all its letters and a delimiter are there |
| `JsonParser.ReadStringToken` | core/gason.cpp:212-277 | the string token, its bytes in place at the pointer that is returned |
| `JsonParser.NextToken` | core/gason.cpp:177-183 | one turn: white space skipped, then the token at the first other character; strings already returned are kept |
| `JsonParser.JsonParse` | core/gason.cpp:167-372 | for every text: unless an allocation fails, which is reported as such, a value is stored exactly when the pure parse of the original text gives one, and an error or the reading past the buffer is reported as there; the value on the heap stands for the parsed tree, node by node, each pointer of its strings and keys shows their bytes in the rewritten text, and each node lives in a block of the allocator that no other node has |
| `JsonParser.Turn` | core/gason.cpp:177-371 | one turn of the loop: a result, or a text and a heap from which the parse goes on to the same result |
| `JsonParser.TakeToken` | core/gason.cpp:183-370 | a token changes the heap as the machine does, and ends the parse when the machine does |
| `JsonParser.ParseAndShow` | core/gason.cpp:167-372 | parsing a text and walking the returned value gives, for every text and unless an allocation fails, the parsed tree with strings as C strings show them, which is the tree itself if and only if no literal that is read has the escape of 0 |
| `JsonParser.ShowValue` | core/gason.hpp:95-117 | a recursive walk with `JsonIterator` over any value on the heap ends, and reads the tree that the value stands for |
| `JsonParser.ReadCString` | core/gason.cpp:212-213 | a C string pointer shows the bytes of its literal up to the first NUL |
| `JsonClip.SeenWholeExactly` | core/gason.cpp:212-277 | for every text that parses to a value: a reader of C strings sees that value if and only if no unit of a literal that is read is the escape of the character 0 |
| `JsonClip.ParsedNul` | core/gason.cpp:167-372 | the same from any state of the loop: the tree has no NUL in it if and only if what the stack holds has none and no literal that is still read escapes one |
| `JsonClip.WithoutEscapedNul` | core/gason.cpp:212-277 | a check before the call that is enough: a text without the six characters of that escape is seen whole |
| `JsonClip.EscapedNulIsCut` | core/gason.cpp:212-277 | the text of a string with only that escape is parsed as one NUL and seen as the empty string |
| `JsonClip.EscapedNulIs` | core/gason.cpp:239-250 | a unit is the escape of 0 if and only if it is a backslash, `u` and four zeros |
| `JsonClip.LiteralNul` | core/gason.cpp:212-277 | the bytes of a literal have a NUL if and only if a unit of it is the escape of 0 |
| `JsonClip.StepNul` | core/gason.cpp:296-369 | no step of the machine loses a string: what it holds has no NUL if and only if all of it had none |
| `JsonClip.ClipExactly` | core/gason.cpp:212-213 | C strings show a whole tree if and only if no string or key of it has a NUL |
| `JsonStack.Stack.Accept` | core/gason.cpp:296-369 | each token changes `pos`, `tags`, `keys`, `tails` and `separator` on the heap as the machine does, every index in bounds, unless an allocation fails; nodes keep to blocks of their own |
| `JsonStack.Stack.Push` | core/gason.cpp:312-327 | opening a container, or an overflow at 32 levels |
| `JsonStack.Stack.Pop` | core/gason.cpp:296-311 | closing a container, with the three errors; the list becomes a value |
| `JsonStack.Stack.Store` | core/gason.cpp:344-369 | the arrival of a value: the result, a key, a node, or the error of a key that is not a string |
| `JsonStack.Stack.Separate` | core/gason.cpp:328-337 | a colon or a comma, or the error when it is not allowed |
| `JsonStack.Stack.AppendNode` | core/gason.cpp:358-369 | a new node at the end of the innermost list, with the pending key |
| `JsonStack.Stack.StoreNode` | core/gason.cpp:358-369 | memory for a node of an object or of an array, and then the node; without memory nothing changes but the report |
| `JsonStack.Stack.CloseTop` | core/gason.cpp:157-164 | the value made of the innermost list stands for the container of its nodes |
| `JsonHeap.TreeStays` | core/gason.cpp:149-164 | the tree that a value stands for does not change while lists grow elsewhere, open and close, and strings are added |
| `JsonHeap.OpenKeeps` | core/gason.cpp:312-327 | opening a list leaves all frames of the stack and adds an empty one |
| `JsonHeap.StoreKeeps` | core/gason.cpp:358-369 | appending a node adds one entry to the innermost frame and changes no other |
| `JsonHeap.PopKeeps` | core/gason.cpp:296-311 | closing a list removes the innermost frame, and its head stands for the container of its nodes |
| `JsonHeap.KeyKeeps` | core/gason.cpp:352-357 | a string becomes the pending key of the innermost frame |
| `JsonHeap.HousedSnoc` | core/gason.cpp:358-369 | a new node in a new block of its size: still no two nodes share a block |
| `JsonHeap.NodesAreApart` | core/gason.cpp:358-369 | the memory of any two nodes is aligned and apart |
| `JsonMemory.Memory.Take` | core/gason.cpp:47-69 | with any answer of `malloc`: a block apart from all others, or none and nothing changed |
| `JsonParser.TokenAtSame` | core/gason.cpp:181-342 | a token depends only on the text from its first character on |
| `JsonParser.KeepsShown` | core/gason.cpp:212-277 | rewriting the text after a position keeps the strings that end before it |
| `JsonList.InsertAfter` | core/gason.cpp:149-155 | a node alone becomes a circle; otherwise it comes after the tail and points to the first node |
| `JsonList.Lists.Open` | core/gason.cpp:312-327 | a new empty list; all others unchanged |
| `JsonList.Lists.Append` | core/gason.cpp:352-369 | the value is appended to the innermost list only, in a new node; the lists stay circular, disjoint and with the tail on the newest node |
| `JsonList.Lists.Attach` | core/gason.cpp:360-369 | a node outside all lists becomes the newest of the innermost one, and no value changes |
| `JsonList.Lists.NewestIsUnique` | core/gason.cpp:149-155 | the tail is the only node at the last place of its list, and it points to the first |
| `JsonList.Lists.Close` | core/gason.cpp:157-164 | the circle is opened at the tail; the head is returned; every list keeps its nodes and what they hold |
| `JsonList.Lists.Walk` | core/gason.hpp:95-117 | following `next` from the head to null gives the values in source order |
| `JsonAllocator.CallsKeep` | core/gason.cpp:47-69 | over every sequence of calls in which no sum wraps, the blocks are aligned, inside their zones after the header and pairwise disjoint |
| `JsonAllocator.CallsServedExactly` | core/gason.cpp:47-69 | over every sequence of calls with 64-bit sizes: each block returned is large enough and all blocks stay aligned, in their zones and disjoint if and only if no call that returns a pointer lets a sum wrap |
| `JsonAllocator.StepKeeps` | core/gason.cpp:47-69 | one call keeps this, whichever branch it takes, also for sizes that `malloc` refuses |
| `JsonAllocator.GrowKeeps` | core/gason.cpp:50-54 | carving a block from the head zone keeps it |
| `JsonAllocator.InsertKeeps` | core/gason.cpp:56-68 | inserting a new zone, at the head or behind it, keeps it |
| `JsonAllocator.ServedExactly` | core/gason.cpp:47-69 | for every 64-bit size, a call gives a block that is large enough and keeps the invariant if and only if it returns no pointer or none of its sums wraps |
| `JsonAllocator.WrapOverlaps` | core/gason.cpp:48-53 | a size of 2^64 - 8 gives back the last word of the block before it |
| `JsonAllocatorLaws.SmallCallsInARow` | core/gason.cpp:47-68 | calls of at most 4080 bytes in all, rounded up to eight each: their blocks are side by side in one zone of 4096 bytes |
| `JsonAllocatorLaws.HeadInARow` | core/gason.cpp:47-54 | calls that fit the head zone take it up side by side, and ask for no memory |
| `JsonAllocatorLaws.LargeCallKeepsHead` | core/gason.cpp:56-68 | a block above 4080 bytes gets a zone of its own behind the head, and the next small one comes from the head zone |
| `JsonAllocator.Allocator.AllocateBlock` | core/gason.cpp:47-69 | on zones linked through `next`, the call ends in the zones and the pointer of the specification, also when a zone is linked behind the head; the chain stays without repeats and ends |
| `JsonAllocator.Allocator.LinkFirst` | core/gason.cpp:61-63 | a zone in front of the chain |
| `JsonAllocator.Allocator.LinkSecond` | core/gason.cpp:64-67 | a zone behind the head, the rest of the chain after it |
| `JsonAllocator.Allocator.Deallocate` | core/gason.cpp:71-77 | the walk reads each successor before it frees a zone, ends, frees only allocated zones and every zone of the chain exactly once |
| `JsonPacking.PackRoundTrip` | core/gason.hpp:58-74 | a tag other than that of a number and a payload of 47 bits come back from the 64 bits, and are never taken for a double |
| `JsonPacking.NumberExactly` | core/gason.hpp:65-70 | the bits of a double are taken for a number if and only if they are not those of a positive NaN with a tag in it |
| `JsonPacking.TaggedNaN` | core/gason.hpp:65-70 | a NaN that is taken for a string |
| `JsonPacking.PackIsSum` | core/gason.hpp:61-64 | mark, tag and payload do not meet in the 64 bits |
| `WireTrip.OverTcp` | core/serializer_deserializer.hpp:531-553 | for all arguments: the writer stays in its pack if and only if every run of scalars fits; then the ids come back, the reader fails if and only if some container size is negative as a 32-bit number, and otherwise the arguments come back, containers cut to their size modulo 2^32, and exactly their bytes are consumed, for every split of the stream into reads |
| `WireTrip.OverWebSocket` | core/kserver_session.cpp:107-136 | the same command in one masked frame: it is refused if and only if it has 16376 bytes; otherwise `receive_cmd`, the header decoder and the buffer reader give back the ids, from bytes 4 to 7, and the arguments, and consume exactly the frame |
| `WireTrip.StreamRoundTrip` | core/kserver_session.cpp:19-47 | the stream reader makes of a command its ids and its arguments, unless a container size is negative as a 32-bit number |
| `WireTrip.BufferRoundTrip` | core/kserver_session.hpp:354-406 | the buffer reader makes of a command its ids and its arguments, whatever old bytes follow |
| `WireTrip.RunsFitExactly` | scripts/devgen.py:295-322 | the runs of scalars fit the writer's pack of 1024 bytes if and only if the packs of scalars that are computed from the types do |
| `WireTrip.TooManyScalars` | core/serializer_deserializer.hpp:415-419 | a run of doubles is written past the pack exactly from the 129th on |
| `WireTrip.LongTextIsLost` | core/serializer_deserializer.hpp:444-458 | a string of 2^32 bytes is written as an empty one, which is what the reader gets |
| `WireTrip.LongTextIsRefused` | core/kserver_session.hpp:264-281 | a string of 2^31 bytes is written whole and is wholly in the stream, and the reader fails |
| `WireOutcome.StaysInsideExactly` | core/commands.hpp:32-64 | for every payload and every list of packs: the reads stay in the payload buffer if and only if each pack, up to the first whose length is refused, ends in the buffer |
| `WireOutcome.PackStaysInside` | core/kserver_session.hpp:354-392 | the same for one pack: read, refused for its length, or read past the buffer |
| `WireOutcome.FullLengthLeadsBeyond` | core/kserver_session.hpp:378-392 | a full buffer that starts with the string length 131072 passes the length test and is read past its end |
| `WireOutcome.BufferReads` | core/kserver_session.hpp:354-406 | the buffer reader gives values exactly when the plain reading with its limit does, and the same ones |
| `WireOutcome.StreamReads` | core/kserver_session.hpp:238-298 | bytes that are there give their values unless a count is negative as a 32-bit number; bytes that are missing never do |
| `WireOutcome.GoesOnExactly` | core/kserver_session.hpp:238-298 | for every stream and every list of packs: the reader goes on with values that never came if and only if a pack, before any whose count is negative as a 32-bit number, is not wholly in the stream; it fails if and only if such a count is met before |
| `WireOutcome.PackIsWhole` | core/kserver_session.hpp:238-298 | the same for one pack: not wholly there, negative count, or values |
| `WireOutcome.TransportsAgree` | core/kserver_session.hpp:238-298 | on the same bytes, as many as the payload buffer holds, the two readers give values together, and the same ones |
| `WireOutcome.EndedStreamGoesOn` | core/kserver_session.hpp:290-298 | a stream that ends before a scalar: the reader goes on with a value that never came |
| `WireOutcome.OnwardStep` | scripts/devgen.py:240-260 | what was read and what the remaining packs will give still make the outcome of all |
| `Wire.CommandRoundTrip` | core/serializer_deserializer.hpp:531-553 | the header decodes to the ids and the packs read the arguments back, leaving what follows the command, for every argument list |
| `Wire.PacksRoundTrip` | scripts/devgen.py:240-260 | with any scalars pending, reading the packs of the types from the plain encoding of the arguments gives the arguments |
| `Wire.ContainerRoundTrip` | core/serializer_deserializer.hpp:444-502 | a vector, string or array followed by anything is read back alone |
| `Wire.DeserializeRoundTrip` | core/serializer_deserializer.hpp:228-281 | adjacent scalars are read back from any position, and `required_buffer_size` is the length of their encoding |
| `Wire.ScalarRoundTrip` | core/serializer_deserializer.hpp:29-222 | `extract` after `append` is the identity for each of the eleven scalar types |
| `Wire.RawRoundTrip` | core/serializer_deserializer.hpp:455-456 | the memory of a container, copied and read back as elements of its type |
| `Wire.HeaderRoundTrip` | core/kserver_session.cpp:36-40 | the two ids that were written are read back from the header |
| `Wire.CutAllIsGood` | core/serializer_deserializer.hpp:449-457 | containers cut to their size modulo 2^32 have the types of the whole ones, and are the whole ones if and only if every size is below 2^32 |
| `Wire.PacksAreTheTypes` | scripts/devgen.py:295-322 | the packs in order hold exactly the argument types, and no scalar pack is empty or beside another |
| `Wire.BufferSizeIsExact` | scripts/devgen.py:262-286 | without vectors and strings, `req_buff_size` is exactly what reading the packs needs and consumes |
| `Wire.EncodeArgsAppend` | core/serializer_deserializer.hpp:429-519 | the encoding of a concatenation is the concatenation of the encodings |
| `Wire.IdsAreAt` | core/kserver_session.cpp:36-40 | for every header: the device is in bytes 4 and 5, the operation in bytes 6 and 7, most significant first |
| `Wire.HeaderIsAt` | core/serializer_deserializer.hpp:538-538 | four zeros, then the class in two bytes and the function in two bytes, most significant first |
| `WireLaws.ScalarOnWire` | core/serializer_deserializer.hpp:29-222 | the size of each of the eleven types, and each byte of a value as a digit to the base 256 in two's complement, most significant first |
| `WireLaws.ElementOnWire` | core/serializer_deserializer.hpp:455-456 | byte `j` of element `i` of a container, least significant first |
| `WireLaws.ContainerOnWire` | core/serializer_deserializer.hpp:444-457 | a vector or string is the number of its bytes, in four bytes most significant first, and then its memory |
| `WireLaws.BoolOnWire` | core/serializer_deserializer.hpp:212-216 | a received byte is true exactly when it is 1 |
| `WireWriter.Append16` | core/serializer_deserializer.hpp:77-82 | two bytes, most significant first, and no other byte changed |
| `WireWriter.Append32` | core/serializer_deserializer.hpp:112-119 | four bytes, most significant first, and no other byte changed |
| `WireWriter.Append64` | core/serializer_deserializer.hpp:150-155 | two 32-bit halves make the eight bytes, most significant first, and no other byte changed |
| `WireWriter.BigEndianHalves` | core/serializer_deserializer.hpp:150-155 | the network order of 64 bits is that of the high half and then that of the low half |
| `WireWriter.DynamicSerializer.AppendScalar` | core/serializer_deserializer.hpp:415-419 | stays in the pack if and only if the scalar fits; then the batch grows by the scalar's encoding |
| `WireWriter.DynamicSerializer.DumpScalarPack` | core/serializer_deserializer.hpp:421-427 | the batch goes to the end of the buffer and is empty afterwards |
| `WireWriter.DynamicSerializer.DumpContainer` | core/serializer_deserializer.hpp:444-487 | the encoding of the container, cut to its size modulo 2^32, goes to the end of the buffer |
| `WireWriter.DynamicSerializer.Memory` | core/serializer_deserializer.hpp:455-456 | the bytes of the elements in the machine's order |
| `WireWriter.DynamicSerializer.CommandSerializer` | core/serializer_deserializer.hpp:429-519 | stays in the pack if and only if every run of scalars fits; then buffer and batch together grow by the plain encoding of the arguments |
| `WireWriter.DynamicSerializer.BuildCommand` | core/serializer_deserializer.hpp:531-553 | stays in the pack if and only if every run of scalars fits; then the buffer is four zeros, the class in bytes 4 and 5, the function in bytes 6 and 7, and the plain concatenation of the arguments' encodings, whatever buffer and batch held before |
| `WireReader.BuildArgsPacks` | scripts/devgen.py:295-322 | the loop gives the packs of the specification, and `has_vector` exactly when some type is a vector or a string |
| `WireReader.TcpSession.RcvNBytes` | core/kserver_session.cpp:50-78 | for every split into reads: the next `n` bytes and their number as a 32-bit integer, or 0 and an empty stream when it ends before them |
| `WireReader.TcpSession.GetPackLength` | core/kserver_session.hpp:152-163 | the 32-bit length in network order, or any number when the stream ends before it |
| `WireReader.TcpSession.ReadScalars` | core/kserver_session.hpp:290-298 | a scalar pack read from the stream: its values, a failure when the count is negative as a 32-bit number, or, on a stream that ended, no failure and nothing left |
| `WireReader.TcpSession.RecvArray` | core/kserver_session.hpp:238-243 | an array read from the stream: its values, a failure when the count is negative as a 32-bit number, or, on a stream that ended, no failure and nothing left |
| `WireReader.TcpSession.RecvString` | core/kserver_session.hpp:264-281 | a string read from the stream: its values, a failure when the count is negative as a 32-bit number, or, on a stream that ended, no failure and nothing left |
| `WireReader.TcpSession.RecvVector` | core/kserver_session.hpp:245-262 | a vector read from the stream: its values, a failure when the count is negative as a 32-bit number, or, on a stream that ended, no failure and nothing left |
| `WireReader.TcpSession.ReadOne` | scripts/devgen.py:240-257 | the same for the reader that the generated code calls for each family of pack |
| `WireReader.TcpSession.ReadCommand` | core/kserver_session.cpp:19-47 | for every stream: no command without a whole header; otherwise the device from bytes 4 and 5, the operation from bytes 6 and 7, and arguments, failure or unnoticed end of stream as the packs say, independent of the split |
| `WireReader.TcpSession.ReadArgs` | scripts/devgen.py:240-260 | all packs from any stream: the outcome of the specification, independent of the split; it fails if and only if a negative count is met, and goes on past the end if and only if a pack is not wholly there |
| `WireReader.CommandBuffer.DeserializePack` | core/commands.hpp:34-41 | a scalar pack at the cursor, and the cursor after it, or the reading past the buffer, exactly as the data says |
| `WireReader.CommandBuffer.ExtractArray` | core/commands.hpp:43-50 | an array at the cursor, and the cursor after it, or the reading past the buffer, exactly as the data says |
| `WireReader.CommandBuffer.RecvString` | core/kserver_session.hpp:378-392 | a string at the cursor, and the cursor after it; a length above the buffer size is refused, one that runs over the end is read past the buffer |
| `WireReader.CommandBuffer.RecvVector` | core/kserver_session.hpp:362-376 | a vector at the cursor, and the cursor after it; a length above the buffer size is refused, one that runs over the end is read past the buffer |
| `WireReader.CommandBuffer.ReadOne` | scripts/devgen.py:240-257 | the outcome of each family of pack on the buffer |
| `WireReader.CommandBuffer.ReadArgs` | scripts/devgen.py:240-260 | for every payload: the outcome of the specification, and the reads stay in the buffer if and only if every pack up to the first refused one is there |
| `NetworkOrder.BigEndianRoundTrip` | core/serializer_deserializer.hpp:67-155 | a number below 256^n is read back from its n bytes in network order |
| `NetworkOrder.LittleEndianRoundTrip` | core/serializer_deserializer.hpp:455-456 | a number is read back from its bytes in the machine's order |
| `Devices.StartUp` | core/devices_manager.cpp:18-77 | for every dependency graph and every sequence of requests: nothing is left starting, exactly the devices that a request reaches are built, each once, `exit_all` is set if and only if a request reaches a cycle, and without one construction ends in dependency order |
| `Devices.StartKeeps` | core/devices_manager.cpp:18-77 | one request, at any depth of construction, keeps the invariant of the search |
| `Devices.StartAllKeeps` | core/devices_manager.cpp:18-77 | a constructor's requests, one after the other, keep it |
| `Devices.RequestClosesCycle` | core/devices_manager.cpp:23-29 | a request for a device that is starting means that a request reaches a cycle |
| `Devices.PushKeeps` | core/devices_manager.cpp:31-32 | entering a construction keeps the invariant |
| `Devices.PopKeeps` | core/devices_manager.cpp:33-35 | leaving a construction keeps the invariant |
| `Devices.TopologicalPath` | core/devices_manager.cpp:18-36 | from a built device every path leads to devices that were built before it |
| `Devices.TopologicalHasNoCycle` | core/devices_manager.cpp:18-36 | devices built in dependency order are on no cycle |
| `Devices.RestCovers` | core/devices_manager.cpp:51-77 | after the requests the started devices are exactly those reached |
| `Devices.RestExit` | core/devices_manager.cpp:64-72 | after the requests `exit_all` says exactly whether a cycle is reached |
| `Devices.StartGives` | core/devices_manager.cpp:51-77 | after a request the device is built if and only if it was not under construction |
| `Devices.ServedInOrder` | core/devices_manager.cpp:79-103 | requests are served in their order: the first of them, and then the others from the state that they leave |
| `Devices.DoneGrows` | core/devices_manager.cpp:18-36 | a request only adds at the end of the list of built devices |
| `Devices.BuiltLast` | core/devices_manager.cpp:31-35 | a device that is built comes at the end of the list, after all that its own requests have built |
| `Devices.Manager.constructor` | core/devices_manager.cpp:42-49 | nothing started, nothing starting, no exit |
| `Devices.Manager.Get` | core/devices_manager.hpp:63-68 | starts the device on demand, as one request of the search; the reference returned is null if and only if the device was under construction |
| `Devices.Manager.AllocDevice` | core/devices_manager.cpp:51-77 | one request of the search: a failed construction sets `exit_all` and nothing else |
| `Devices.Manager.Alloc` | core/devices_manager.cpp:18-36 | fails, and changes nothing, exactly when the device is starting; otherwise it is built after its own requests |
| `Devices.Manager.Construct` | core/devices_manager.cpp:31-33 | the requests of the device's constructor, in order |
| `Devices.Manager.Run` | core/devices_manager.cpp:79-103 | a sequence of requests ends in the state of the search |
| `WebSocket.ReceivesExactlyFrames` | core/websocket.cpp:170-212 | a masked stream is received with a payload if and only if it starts with a frame of RFC 6455, text or binary, not empty and not too large, with that payload, and whose total size is not 16384 |
| `WebSocket.ReceivesFrame` | core/websocket.cpp:228-251 | such a frame followed by anything is received, and alone consumed, when its total size is not 16384, and is rejected when it is |
| `WebSocket.RefusedSize` | core/websocket.cpp:387-390 | the size that is refused is that of a payload of 16376 bytes, and no other |
| `WebSocket.FirstByteDecides` | core/websocket.cpp:253-284 | by the first byte of a masked stream: only opcodes 1 and 2 are received, 8 closes, every other is rejected |
| `WebSocket.AcceptableExactly` | core/websocket.cpp:253-284 | the frames that the code has room for, by numbers: masked, opcode 1 or 2, one to 131016 bytes |
| `WebSocket.MaskBitIsIgnored` | core/websocket.cpp:197-212 | a stream without the mask bit is received as the same stream with it |
| `WebSocket.CutFrameCloses` | core/websocket.cpp:228-251 | every proper beginning of a frame that the code has room for ends with the connection closed |
| `WebSocket.Connection.ReadNBytes` | core/websocket.cpp:356-394 | for every split into reads: the bytes are appended, or the connection is closed at the end of the stream, or -1 at a total of 16384; never past the buffer |
| `WebSocket.Connection.ReadSome` | core/websocket.cpp:362-379 | one read, between one byte and the rest, or the end of the stream |
| `WebSocket.Connection.CheckOpcode` | core/websocket.cpp:253-284 | zero exactly for the opcodes that section 5.2 of RFC 6455 gives to text and binary data, one exactly for that of the connection close |
| `WebSocket.Connection.ReadHeader` | core/websocket.cpp:286-354 | sizes and offsets are those of section 5.2 of RFC 6455; the errors and the early end of the stream |
| `WebSocket.Connection.ReadLength` | core/websocket.cpp:312-353 | the short and the two long forms of the length, and the size test |
| `WebSocket.Connection.ResetReadBuff` | core/websocket.cpp:435-439 | an empty read buffer; exactly the bytes that were read are zeroed |
| `WebSocket.Connection.ReadStream` | core/websocket.cpp:228-251 | reads exactly one frame, or reports why not |
| `WebSocket.Connection.DecodeRawStreamCmd` | core/websocket.cpp:197-212 | header and payload unmasked byte by byte, every index in bounds |
| `WebSocket.Connection.ReceiveCmd` | core/websocket.cpp:170-195 | for every split into reads: one frame consumed per call, and header and payload buffers hold the unmasked payload of section 5.3; closed and rejected otherwise |
| `WebSocket.Connection.ReceiveFrames` | core/websocket.cpp:170-195 | a stream of frames is received payload by payload, in order, and exactly consumed |
| `WebSocket.Connection.SetSendHeader` | core/websocket.cpp:131-163 | first byte and shortest length form of section 5.2 |
| `WebSocket.Connection.SendRequest` | core/websocket.cpp:402-433 | for every schedule of partial writes the wire gets the sum of the accepted chunks, a prefix of the bytes; all were written exactly when the result is positive, and then the result is the last chunk, which is the whole if and only if there was one chunk |
| `WebSocket.LastIsTotal` | core/websocket.cpp:411-432 | the last of the accepted chunks is their sum if and only if it is the only one |
| `WebSocket.Connection.Send` | core/websocket.hpp:109-123 | data that fits goes out as a prefix of one unmasked final binary frame, whole exactly when the result is positive, and then the result is the last chunk; data that does not fit sends nothing |
| `WebSocket.Connection.Exit` | core/websocket.cpp:165-168 | the close frame, or a prefix of it |
| `WebSocket.SentFrameDecodes` | core/websocket.hpp:109-123 | the bytes sent decode to that frame with the original payload, whatever follows |
| `WebSocketFrame.FrameRoundTrip` | core/websocket.cpp:286-354 | every valid frame of RFC 6455, followed by anything, parses to itself and its length |
| `WebSocketFrame.LengthRoundTrip` | core/websocket.cpp:312-346 | the three length forms decode to the length |
| `WebSocketFrame.MaskTwice` | core/websocket.cpp:202-209 | masking twice with the same key is the identity |
| `WebSocketFrame.PublishedText` | core/websocket.cpp:131-163 | the unmasked text example of section 5.7 of RFC 6455 |
| `WebSocketFrame.PublishedMaskedText` | core/websocket.cpp:197-212 | the masked text example of section 5.7 of RFC 6455 |
| `WebSocketFrame.PublishedLengths` | core/websocket.cpp:131-163 | the header bytes of the 256-byte and 64-KiB examples of section 5.7 of RFC 6455 |
| `Bits.XorInvolution` | core/websocket.cpp:205-209 | exclusive or with the same operand twice is the identity |
| `Sessions.EveryRun` | core/session_manager.cpp:76-139 | in every run of create, subscribe, delete, delete_all and emit: live and reusable ids partition 0..H-1 without repeats, H the largest number of sessions ever live at once; `num_sess` is the pool size; the next id is not in use and on no channel; channels hold live ids without repeats |
| `Sessions.RunKeeps` | core/session_manager.cpp:76-139 | every run keeps the invariant, and records the largest number of live sessions |
| `Sessions.DoKeeps` | core/session_manager.cpp:76-139 | each step keeps the invariant; delete_all ends with an empty pool and `num_sess` 0 |
| `Sessions.CreateKeeps` | core/session_manager.hpp:66-92 | the new id was not in use, and starts with no subscription |
| `Sessions.SubscribeKeeps` | core/pubsub.hpp:37-51 | the session is on the narrowed channel, once |
| `Sessions.SubscribeExactly` | core/pubsub.hpp:37-51 | after a subscription a session is on a channel exactly when it was before, or is the one subscribed to it; every list is continued at its end; nothing else changes |
| `Sessions.OnChannelExactly` | core/pubsub.hpp:37-64 | after any allowed run a live session is on a channel if and only if it subscribed to it since it was last created |
| `Sessions.LastDeletedIsNext` | core/session_manager.cpp:76-122 | the id that was deleted last is used next |
| `Sessions.LastErrorIs` | core/pubsub.tpp:11-31 | the result of an emit is that of the last failed send, or zero |
| `Sessions.ChannelIsNarrowed` | core/kserver_commands.cpp:230-232 | a subscription to channel 65536 is one to channel 0 |
| `Sessions.DeleteKeeps` | core/session_manager.cpp:76-122 | exactly the deleted id leaves every channel |
| `Sessions.DeleteAllKeeps` | core/session_manager.cpp:124-139 | deleting ids in any order removes exactly those from the pool |
| `Sessions.SwapPopRemoves` | core/pubsub.hpp:53-64 | swap-and-pop removes exactly that id and makes no repeats |
| `Sessions.Manager.constructor` | core/pubsub.hpp:66-68 | no session, no reusable id and three empty channels |
| `Sessions.Manager.CreateSession` | core/session_manager.hpp:66-92 | returns an id that was not in use, and puts it in the pool |
| `Sessions.Manager.SubscribeTo` | core/kserver_commands.cpp:221-233 | subscribes to the channel modulo 2^16, or -1 when that is not a channel; on every channel the earlier subscribers stay, in order, and only this session is added |
| `Sessions.Manager.Unsubscribe` | core/pubsub.hpp:53-64 | swap-and-pop on every channel, in place |
| `Sessions.Manager.Find` | core/pubsub.hpp:44-46 | the first place of the id, or the end |
| `Sessions.Manager.DeleteSession` | core/session_manager.cpp:76-122 | an id that is not live changes nothing; a live one leaves pool and channels and becomes reusable |
| `Sessions.Manager.DeleteAllSessions` | core/session_manager.cpp:124-139 | empties the pool whatever the order in which it is gone through |
| `Sessions.Manager.Emit` | core/pubsub.tpp:11-31 | every lookup finds a session; each subscriber gets one message in order; the result is the last error |
| `Sessions.Manager.EmitText` | core/pubsub.tpp:33-68 | the same for a formatted message; nothing is sent and -1 returned when formatting fails or does not fit |
| `Base64.RoundTrip` | core/crypto/base64.cpp:41-123 | decoding the encoding gives back every byte string |
| `Base64.EncodedShape` | core/crypto/base64.cpp:41-82 | four characters for every three bytes begun; letters of the alphabet, then as many '=' as section 4 of RFC 4648 asks for |
| `Base64.GroupRoundTrip` | core/crypto/base64.cpp:98-100 | the bytes of a group come back, the first and second also when only two or three characters are known |
| `Base64.DigitsOfBytes` | core/crypto/base64.cpp:51-54 | the four 6-bit digits of the 24-bit number are the masked and shifted bytes of the code |
| `Base64.FindLetter` | core/crypto/base64.cpp:31-39 | the alphabet has no repeats, and every letter of it is accepted |
| `Base64.AlphabetInOrder` | core/crypto/base64.cpp:31-34 | the alphabet in its order: three runs and two signs, by their codes |
| `Base64.PublishedEncodings` | core/crypto/base64.cpp:41-82 | three test vectors of section 10 of RFC 4648 |
| `Base64.DecodedBytes` | core/crypto/base64.cpp:84-123 | any letters decode to as many bytes as they have bits for, and each byte is made of the two letters that it lies in |
| `Base64.ReadableIsLongest` | core/crypto/base64.cpp:92-93 | the decoder reads the longest prefix in the alphabet |
| `Base64.CutGroup` | core/crypto/base64.cpp:51-54 | the four 6-bit digits of the 24-bit number of the group |
| `Base64.EncodeBytes` | core/crypto/base64.cpp:41-82 | the loop and its tail give the encoding of section 4 of RFC 4648 |
| `Base64.EncodeTail` | core/crypto/base64.cpp:62-78 | one or two bytes left over |
| `Base64.JoinGroup` | core/crypto/base64.cpp:95-100 | the three bytes of four letters |
| `Base64.DecodeText` | core/crypto/base64.cpp:84-123 | the loop and its tail decode the letters up to the first other character |
| `Base64.DecodeRest` | core/crypto/base64.cpp:108-120 | one, two or three letters left over |

## Left out

- JsonNumber.StringToDouble: exact real numbers, so that no rounding of doubles is modelled.
- JsonPrint.RoundTrip: whole numbers only, since a printed fraction would come back rounded.
- JsonParser.JsonParse: `endptr` is modelled only for JSON_OK.
- WireReader.TcpSession.RcvNBytes: a read error (-1) is not modelled.
- WireReader.TcpSession.GetPackLength: the number is left open when the stream ends before it, as the code reads memory that nobody wrote; the result -1 after a read error is not modelled.
- WireReader.TcpSession.ReadScalars: the values are left open when the stream ends inside the pack.
- WireReader.TcpSession.RecvArray: the values are left open when the stream ends inside the array.
- WireReader.TcpSession.RecvString: the bytes are left open when the stream ends inside the string.
- WireReader.TcpSession.RecvVector: the elements are left open when the stream ends inside the vector.
- WireReader.TcpSession.ReadOne: the values are left open when the stream ends inside the pack.
- WireReader.TcpSession.ReadArgs: the values are left open when the stream ends inside the arguments.
- WireReader.TcpSession.ReadCommand: the arguments are left open when the stream ends inside the command.
- WireReader.CommandBuffer.ReadArgs: what a read past the buffer finds is not modelled, only that it happens; the size that the code makes sure of at compile time is `Wire.BufferSizeIsExact`.
- WireWriter.DynamicSerializer.BuildCommand: what a write past the pack destroys is not modelled, only that it happens; C strings are strings, tuples are their elements, and `vector<bool>` is not modelled.
- WireTrip.OverWebSocket: the client's masked frame is taken from RFC 6455, as the server never writes one; frames above the size that `read_header` accepts are in `WebSocket.ReceivesExactlyFrames`.
- WebSocket.Connection.ReadNBytes: a negative read is retried forever by the code, so a read is between one byte and all, or the end of the stream.
- WebSocket.Connection.ReceiveCmd: the header fields start at zero, where the code leaves them undefined before the first frame; FIN and the mask bit are stored and not enforced, as in the code.
- Sha1.Context.LoadWords: the little-endian branch; the union of words and bytes is two arrays.
- Devices.Manager.Get: of the reference returned only whether it is null; device ids are in range, as the templates make them.
- Sessions.Manager.CreateSession: ids are unbounded, and `num_sess` belongs to the one manager of the run; the session object is only its socket.
- Sessions.Manager.DeleteSession: closing the socket.
- Sessions.Manager.Emit: sending is a parameter.
- Sessions.Manager.EmitText: formatting is a parameter, the number of characters that it says it has.
- `WebSocket::receive` and `decode_raw_stream`, which unmask in place: the same arithmetic as the command form.
- WebSocket handshake, HTTP parsing: string search over one read.
- The bits of `JsonValue` in the parser: values are a datatype there, and their bits are in `JsonPacking`.
- Threads: each operation under a mutex is one step.
- Sockets, signals, configuration, logging, process life cycle: calls into the system or straight-line code.
- Code generation beyond the argument packs: it rests on libraries outside the repository.
