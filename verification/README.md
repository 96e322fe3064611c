# Formal models of the SMS platform's bundled libraries

Dafny models of the algorithms behind the headers in `sudao-smsp/00_public/include`, with proofs of what
those algorithms are for. `dafny verify dfyconfig.toml` checks the whole project.

| file | models |
|---|---|
| Words.dfy, CrcSpec.dfy, CrcDivision.dfy, CrcEngines.dfy | `boost/crc.hpp`: the bit-serial engine, the table-driven engine and the augmented-message function on registers of a fixed width, against polynomial division over GF(2) |
| AmqpData.dfy, AmqpTables.dfy, AmqpProperties.dfy | `rabbitmq/amqp_table.c`, and of `rabbitmq/amqp_framing.c` the arguments of basic.publish and the Basic properties: field values, their encoding and decoding |
| AmqpFrames.dfy, AmqpDecoder.dfy, AmqpFirstFrame.dfy | `rabbitmq/amqp_connection.c`, inbound: frame format of section 4.2.3 of AMQP 0-9-1 and the incremental decoder |
| AmqpSender.dfy | the frame encoder, partial sends and `amqp_basic_publish` |
| AmqpConsumer.dfy, AmqpEndToEnd.dfy | the frame queue, waiting on a channel, `amqp_read_message`, and the way of a message from publisher to reader |
| AmqpWire.dfy | the same formats octet by octet: frames, field values, properties, one publish in full |
| AmqpPools.dfy | memory pools and the rules for releasing them |
| EscapedLists.dfy, CharSeparators.dfy | `boost/token_functions.hpp` driven by `boost/token_iterator.hpp` |
| BatchAllocation.dfy | `json/json_batchallocator.h` |
| LexicalCast.dfy | integer printing of `boost/lexical_cast.hpp` |
| HostCheck.dfy | `rabbitmq/amqp_hostcheck.c` |

Objects the libraries update in place are classes here, and their loops are loops; each is proved against a
specification function, and the theorems are about that function. Bytes are numbers below 256 in the AMQP
files and eight-bit words in the CRC files.

## Where the code falls short of what one would expect

The models follow the code. These properties do not hold in general; the exact condition is proved for each.

- A CRC catches all bursts of at most `Bits` bits only with an odd polynomial. `crc_xmodem_type` is declared
  with 0x8408, which is even (`CrcSpec.ChecksumDetectsIffOdd`, `CrcSpec.XmodemMissesBursts`).
- On a new connection eight bytes are collected but seven are copied (amqp_connection.c:318), so the first
  frame reads byte 7 as zero, which is what the new pool's memory holds. A heartbeat as first frame is
  therefore refused (`AmqpFirstFrame.FirstFrameIntactIff`, `AmqpFirstFrame.FirstHeartbeatRejected`).
- Waiting on one channel cuts off every frame queued before the one it takes, whatever its channel
  (amqp_socket.c:936-948; `AmqpConsumer.WaitKeepsOthersIff`).
- `char_separator::reset` does not lower the functor's flag (`CharSeparators.ReuseFunctor`); a character that
  is both kept and dropped is treated differently under the two policies (`CharSeparators.PoliciesAgreeIff`);
  and iterators compare by position, which different tokens may share (`CharSeparators.EqualIgnoresTokens`,
  with the exact condition in `CharSeparators.CharTokenIterator.Increment`).
- The letter n as escape, delimiter or quote character cannot be written back
  (`EscapedLists.RoundTripsIff`).
- `BatchAllocator` stays inside its pages only if `objectsPerPage` is a whole number of blocks; its
  assertions do not ask for that (`BatchAllocation.InPageIff`, `BatchAllocation.DefaultPageOverrun`).
- A table key is written whole behind a length of one byte that nothing checks (amqp_table.c:332-338), so a table,
  and a message with it as headers, survives only if no key is longer than 255 bytes. The documentation of
  `amqp_table_entry_t` names a limit of 128, which neither side enforces. Property flags survive only if the
  lowest bit of each flag word is used as the protocol means it (`AmqpTables.TableRoundTripIff`,
  `AmqpTables.LongKeyLost`, `AmqpProperties.PropertiesSurviveIff`).
- An empty table key is encoded and decoded, but the reader clones the properties first and the clone refuses it
  (amqp_table.c:581, amqp_consumer.c:243-249), so a published message can be lost to its reader. Both limits
  together, 1 to 255 bytes for every key, are exact (`AmqpEndToEnd.PublishWithLibraryCodec`,
  `AmqpConsumer.ReadExact`, `AmqpEndToEnd.EmptyKeyNotRead`).

## Model

| member | source | states |
|---|---|---|
| `CrcEngines.BothEngines` | sudao-smsp/00_public/include/boost/crc.hpp:823-995 | both engines, fed the same bytes, end with the same interim remainder and the same checksum, for every width, polynomial, initial and final value and both reflections, whatever lies above the `Bits` low bits of the registers and of the parameters; the results are clean above `Bits` |
| `CrcEngines.Reflect` | sudao-smsp/00_public/include/boost/crc.hpp:306-326 | the loop mirrors exactly the low bits and clears the others |
| `CrcEngines.RegisterStep` | sudao-smsp/00_public/include/boost/crc.hpp:727-751 | one division step on a register with arbitrary junk above `Bits` acts on the low bits as the division of the specification does |
| `CrcEngines.CrcBasic.constructor` | sudao-smsp/00_public/include/boost/crc.hpp:630-644 | the five parameters are stored and the remainder starts at the initial value |
| `CrcEngines.CrcBasic.ResetTo` | sudao-smsp/00_public/include/boost/crc.hpp:706-715 | the remainder is the given one |
| `CrcEngines.CrcBasic.Reset` | sudao-smsp/00_public/include/boost/crc.hpp:717-725 | the remainder is the configured initial one again |
| `CrcEngines.CrcBasic.GetInterimRemainder` | sudao-smsp/00_public/include/boost/crc.hpp:696-704 | the junk above `Bits` is masked off, nothing else changes |
| `CrcEngines.CrcBasic.ProcessBit` | sudao-smsp/00_public/include/boost/crc.hpp:727-751 | the low bits make one step of polynomial division |
| `CrcEngines.CrcBasic.ProcessBits` | sudao-smsp/00_public/include/boost/crc.hpp:753-770 | the low `bit_count` bits of the byte are divided, highest first |
| `CrcEngines.CrcBasic.ProcessByte` | sudao-smsp/00_public/include/boost/crc.hpp:772-782 | a byte is divided from its top bit, or from its bottom bit when input is reflected |
| `CrcEngines.CrcBasic.ProcessBlock` | sudao-smsp/00_public/include/boost/crc.hpp:784-797 | a block is divided as the concatenation of its bytes' bits |
| `CrcEngines.CrcBasic.Checksum` | sudao-smsp/00_public/include/boost/crc.hpp:814-823 | optional output reflection, final xor and masking give the checksum of the specification |
| `CrcEngines.DivideByte` | sudao-smsp/00_public/include/boost/crc.hpp:507-528 | the inner loop of the table generator is division of one byte from a zero remainder |
| `CrcEngines.TableEntry` | sudao-smsp/00_public/include/boost/crc.hpp:507-533 | index and stored value for one dividend, reflected together when the table is |
| `CrcEngines.InitTable` | sudao-smsp/00_public/include/boost/crc.hpp:491-536 | after the loop every one of the 256 entries holds the division of its own index, although the indices are visited in reflected order |
| `CrcEngines.IndexMixes` | sudao-smsp/00_public/include/boost/crc.hpp:541-611 | the table index is the input byte mixed with the remainder's top eight bits, for widths below, at and above one byte and for both storage orders |
| `CrcEngines.FoldEntry` | sudao-smsp/00_public/include/boost/crc.hpp:563-622 | shifting the stored remainder and adding an entry commutes with mirroring the register |
| `CrcEngines.CrcOptimal.constructor` | sudao-smsp/00_public/include/boost/crc.hpp:832-843 | the table is complete and the stored remainder stands for the one given, which need not be the configured initial one |
| `CrcEngines.CrcOptimal.Reset` | sudao-smsp/00_public/include/boost/crc.hpp:918-929 | the stored remainder stands for the given one, in either storage order |
| `CrcEngines.CrcOptimal.GetInterimRemainder` | sudao-smsp/00_public/include/boost/crc.hpp:905-916 | the logical, unreflected remainder, clean above `Bits` |
| `CrcEngines.CrcOptimal.ProcessByte` | sudao-smsp/00_public/include/boost/crc.hpp:931-966 | one table lookup does what eight division steps do |
| `CrcEngines.CrcOptimal.ProcessBlock` | sudao-smsp/00_public/include/boost/crc.hpp:948-966 | a block is divided as the concatenation of its bytes' bits |
| `CrcEngines.CrcOptimal.Checksum` | sudao-smsp/00_public/include/boost/crc.hpp:984-995 | reflecting only when input and output reflection differ gives the checksum of the specification |
| `CrcEngines.Crc` | sudao-smsp/00_public/include/boost/crc.hpp:1023-1040 | the one-shot function returns the checksum of the message |
| `CrcDivision.RemainderIff` | sudao-smsp/00_public/include/boost/crc.hpp:727-782 | from a zero start the remainder, and only it, makes the message moved up by `Bits` places a multiple of the polynomial; the quotient is unique too |
| `CrcDivision.MessageBitAt` | sudao-smsp/00_public/include/boost/crc.hpp:772-797 | the bit taken at each place of a message: bytes in order, each from its top bit, or from its bottom bit when input is reflected |
| `CrcDivision.OutputBits` | sudao-smsp/00_public/include/boost/crc.hpp:814-823 | every bit of the checksum: the remainder's own or its mirror image, flipped where the final xor has a one |
| `CrcDivision.OutputOptions` | sudao-smsp/00_public/include/boost/crc.hpp:1023-1040 | three runs of the one-shot function: without options it is the remainder, reflecting the output turns the result end for end, and the final xor flips exactly the bits it has set |
| `CrcSpec.Absorb` | sudao-smsp/00_public/include/boost/crc.hpp:948-966 | feeding bits equals shifting the remainder and dividing the bits mixed with its top bits from zero: why a table lookup is right |
| `CrcSpec.RunLinear` | sudao-smsp/00_public/include/boost/crc.hpp:727-751 | division is linear over GF(2) in remainder and message together |
| `CrcSpec.StepInjective` | sudao-smsp/00_public/include/boost/crc.hpp:727-751 | with an odd polynomial no two remainders are merged by a step |
| `CrcSpec.WindowIntoRemainder` | sudao-smsp/00_public/include/boost/crc.hpp:727-751 | at most `Bits` differing input bits can be traded for a difference in the remainder before them |
| `CrcSpec.BurstDetected` | sudao-smsp/00_public/include/boost/crc.hpp:727-782 | an odd polynomial separates any two bit strings that differ in one window of at most `Bits` bits |
| `CrcSpec.BurstsDetectedIffOdd` | sudao-smsp/00_public/include/boost/crc.hpp:727-782 | exactly the odd polynomials separate all such bit strings |
| `CrcSpec.ChecksumCatchesBurst` | sudao-smsp/00_public/include/boost/crc.hpp:814-823 | the same for checksums of byte messages in processing order, after reflection, final xor and output reflection |
| `CrcSpec.ChecksumDetectsIffOdd` | sudao-smsp/00_public/include/boost/crc.hpp:727-823 | a CRC catches every burst of at most `Bits` bits if and only if its polynomial is odd |
| `CrcSpec.XmodemMissesBursts` | sudao-smsp/00_public/include/boost/crc.hpp:95-95 | the declared `crc_xmodem_type` has an even polynomial; the messages 43 20 and 00 00 differ within 16 bits and share a checksum |
| `CrcSpec.OutputInjective` | sudao-smsp/00_public/include/boost/crc.hpp:814-823 | output reflection and final xor merge no two remainders |
| `CrcSpec.MessageWithOwnRemainder` | sudao-smsp/00_public/include/boost/crc.hpp:910-966 | for whole-byte widths a message followed by its own stored remainder (high byte first, or low byte first when reflected) divides to zero, from any initial value |
| `CrcEngines.OwnRemainderVanishes` | sudao-smsp/00_public/include/boost/crc.hpp:905-966 | the same on the table-driven engine itself |
| `CrcEngines.AugByte` | sudao-smsp/00_public/include/boost/crc.hpp:1060-1073 | eight augmenting steps are one lookup, one shift and one or |
| `CrcEngines.AugmentedCrc` | sudao-smsp/00_public/include/boost/crc.hpp:1045-1076 | the augmenting loop computes the division in which message bits enter at the bottom |
| `CrcSpec.AugmentedIsPlain` | sudao-smsp/00_public/include/boost/crc.hpp:1045-1076 | `Bits` zero bits after the message turn the augmented remainder into the plain one |
| `CrcSpec.AugmentedOwnCrcVanishes` | sudao-smsp/00_public/include/boost/crc.hpp:1045-1076 | the plain CRC after the message turns it into zero |
| `CrcEngines.AugmentedAgrees` | sudao-smsp/00_public/include/boost/crc.hpp:1023-1094 | on whole-byte widths `augmented_crc` over the message and zero bytes equals `crc`, and over the message and that CRC is zero |
| `AmqpData.FromBeOfBe` | sudao-smsp/00_public/include/rabbitmq/amqp_private.h:220-266 | reading a big-endian field gives back what was written |
| `AmqpFrames.EncodedFits` | sudao-smsp/00_public/include/rabbitmq/amqp_connection.c:464-536 | an encoded frame never exceeds the frame size limit |
| `AmqpFrames.FirstFrameStable` | sudao-smsp/00_public/include/rabbitmq/amqp_connection.c:296-332 | bytes that follow never change how the beginning of a stream is read |
| `AmqpFrames.ParseResumes` | sudao-smsp/00_public/include/rabbitmq/amqp_connection.c:226-332 | parsing may stop after any byte and go on with the unread rest |
| `AmqpFrames.PendingIsIncomplete` | sudao-smsp/00_public/include/rabbitmq/amqp_connection.c:264-268 | what is left over at the end is a proper prefix of one frame |
| `AmqpFrames.WholeDecodes` | sudao-smsp/00_public/include/rabbitmq/amqp_connection.c:334-404 | the decoder's cases invert the encoder's for method, header, body and heartbeat frames, up to what the codec makes of the frame's own field list |
| `AmqpFrames.FrameRoundTrip` | sudao-smsp/00_public/include/rabbitmq/amqp_connection.c:464-536 | a frame encoded within the limit is read back with its field list as it comes back, and nothing of what follows it is taken; as itself, if and only if its own field list survives |
| `AmqpFrames.StreamReadsBack` | sudao-smsp/00_public/include/rabbitmq/amqp_connection.c:464-536 | encoded frames parse to what each comes back as, up to the first whose fields cannot be read |
| `AmqpFrames.StreamRoundTrip` | sudao-smsp/00_public/include/rabbitmq/amqp_connection.c:464-536 | a list of encoded frames whose field lists survive parses to that list, then continues with what follows |
| `AmqpWire.StatusNumbers` | sudao-smsp/00_public/include/rabbitmq/amqp.h:682-720 | the status numbers |
| `AmqpWire.EnvelopeOctets` | sudao-smsp/00_public/include/rabbitmq/amqp_connection.c:464-536 | every octet around a payload: type, two of the channel, four of the size, 206 at the end |
| `AmqpWire.FrameOctets` | sudao-smsp/00_public/include/rabbitmq/amqp_connection.c:464-536 | the types are 1 for methods, 2 for headers, 3 for bodies and 8 for heartbeats, with the fixed part of each payload; a protocol header cannot be encoded (-10) |
| `AmqpWire.FirstFrameCases` | sudao-smsp/00_public/include/rabbitmq/amqp_connection.c:296-410 | when a stream has no complete frame yet, when it is bad data (a size above the limit, another octet than 206 at the end), and when a frame is passed over |
| `AmqpWire.FrameRead` | sudao-smsp/00_public/include/rabbitmq/amqp_connection.c:334-404 | what a complete frame of each type is read as, octet by octet; the weight of a header is not looked at |
| `AmqpWire.OtherTypeSkipped` | sudao-smsp/00_public/include/rabbitmq/amqp_connection.c:400-404 | a frame of any other type leaves no trace among the frames delivered |
| `AmqpWire.ProtocolHeaderRead` | sudao-smsp/00_public/include/rabbitmq/amqp_connection.c:274-294 | the octets of "AMQP" open a protocol header whose other four octets are handed out in order |
| `AmqpTables.ValueReads` | sudao-smsp/00_public/include/rabbitmq/amqp_table.c:203-291 | a value of any kind, nested to any depth, is read back from wherever it was written |
| `AmqpTables.NumberReads` | sudao-smsp/00_public/include/rabbitmq/amqp_table.c:213-248 | the eleven kinds of numbers, signed ones included, survive the conversion to unsigned and back |
| `AmqpTables.ReadKeysShort` | sudao-smsp/00_public/include/rabbitmq/amqp_table.c:127-201 | whatever is decoded has no key longer than 255 bytes |
| `AmqpTables.TableRoundTripIff` | sudao-smsp/00_public/include/rabbitmq/amqp_table.c:322-357 | an encoded table is decoded as it was if and only if no key in it, at any depth, is longer than 255 bytes |
| `AmqpTables.LongKeyLost` | sudao-smsp/00_public/include/rabbitmq/amqp_table.c:332-338 | a table with one key of 256 bytes, encoded without complaint and lost |
| `AmqpTables.CloneValueIff` | sudao-smsp/00_public/include/rabbitmq/amqp_table.c:475-575 | cloning a value gives it back if and only if no key in it, at any depth, is empty and all kinds are known |
| `AmqpTables.CloneEntriesIff` | sudao-smsp/00_public/include/rabbitmq/amqp_table.c:577-623 | the same for a table; otherwise the clone is refused with INVALID_PARAMETER |
| `AmqpTables.Cursor.PutUintAt` | sudao-smsp/00_public/include/rabbitmq/amqp_private.h:236-252 | the number is in the buffer big-endian, or there is no room for it |
| `AmqpTables.Cursor.PutBytes` | sudao-smsp/00_public/include/rabbitmq/amqp_private.h:345-362 | the bytes are appended, or there is no room for them |
| `AmqpTables.Cursor.EncodeValue` | sudao-smsp/00_public/include/rabbitmq/amqp_table.c:359-450 | succeeds if and only if all kinds are known and the encoding fits, and then has appended exactly that encoding |
| `AmqpTables.Cursor.EncodeArray` | sudao-smsp/00_public/include/rabbitmq/amqp_table.c:295-320 | the size is filled in afterwards, in front of values that stay as they were written |
| `AmqpTables.Cursor.EncodeTable` | sudao-smsp/00_public/include/rabbitmq/amqp_table.c:322-357 | the same for a table |
| `AmqpTables.Cursor.EncodeEntry` | sudao-smsp/00_public/include/rabbitmq/amqp_table.c:331-344 | the length byte keeps the low eight bits of the key's length, the key is written whole |
| `AmqpTables.Cursor.DecodeValue` | sudao-smsp/00_public/include/rabbitmq/amqp_table.c:203-291 | the recursive decoder computes the value the specification reads, and fails exactly when it does |
| `AmqpTables.Cursor.DecodeArray` | sudao-smsp/00_public/include/rabbitmq/amqp_table.c:63-125 | values are taken until the announced end is reached or passed |
| `AmqpTables.Cursor.DecodeTable` | sudao-smsp/00_public/include/rabbitmq/amqp_table.c:127-201 | the same for entries |
| `AmqpTables.WriteAndRead` | sudao-smsp/00_public/include/rabbitmq/amqp_table.c:322-357 | writing a table into a buffer and reading it from there returns it if and only if its keys are short |
| `AmqpWire.NumberLetters` | sudao-smsp/00_public/include/rabbitmq/amqp.h:523-541 | letter, width and range of every kind of number |
| `AmqpWire.ValueOctets` | sudao-smsp/00_public/include/rabbitmq/amqp_table.c:359-450 | the octets of a value of every kind, letter first, sizes big-endian |
| `AmqpWire.EntriesOctets` | sudao-smsp/00_public/include/rabbitmq/amqp_table.c:295-357 | arrays and tables are their elements in order; an entry is the low octet of the key's length, the key and the value |
| `AmqpWire.BooleanOctet` | sudao-smsp/00_public/include/rabbitmq/amqp_table.c:203-290 | every octet but zero is read as true |
| `AmqpWire.ArrayOverrun` | sudao-smsp/00_public/include/rabbitmq/amqp_table.c:84-105 | the last value of an array may run over the size the array announces |
| `AmqpWire.TableOverrun` | sudao-smsp/00_public/include/rabbitmq/amqp_table.c:150-181 | so may the last entry of a table |
| `AmqpWire.OtherLetterRefused` | sudao-smsp/00_public/include/rabbitmq/amqp_table.c:203-290 | any other letter than the eighteen is refused |
| `AmqpProperties.FlagsReadBack` | sudao-smsp/00_public/include/rabbitmq/amqp_framing.c:1038-1047 | what the flag words are decoded to |
| `AmqpProperties.PropertiesSurviveIff` | sudao-smsp/00_public/include/rabbitmq/amqp_framing.c:1834-1961 | encoded Basic properties are decoded as they were if and only if the flags leave the reserved bits alone and the header keys are short |
| `AmqpProperties.SlotsRead` | sudao-smsp/00_public/include/rabbitmq/amqp_framing.c:1086-1185 | the fourteen optional properties are read back in their places |
| `AmqpProperties.PublishSurvives` | sudao-smsp/00_public/include/rabbitmq/amqp_framing.c:1669-1685 | encoded arguments of basic.publish are always decoded as they were |
| `AmqpWire.SingleProperty` | sudao-smsp/00_public/include/rabbitmq/amqp_framing.c:1834-1961 | for each of the fourteen places: the message with only that property is the two octets with its flag and then one octet (places 3 and 4), eight octets (place 9), size and entries (place 2) or length octet and text, and is read back from them |
| `AmqpWire.TwoWordOctets` | sudao-smsp/00_public/include/rabbitmq/amqp_framing.c:1847-1857 | flags above the sixteenth take a second word, announced by the lowest bit of the first |
| `AmqpWire.LongStringRefused` | sudao-smsp/00_public/include/rabbitmq/amqp_framing.c:1876-1887 | a short string of 256 octets or more is refused at every place |
| `AmqpWire.ArgumentOctets` | sudao-smsp/00_public/include/rabbitmq/amqp_framing.c:1669-1685 | the octets of the arguments of basic.publish, mandatory as bit 0 and immediate as bit 1 of the last |
| `AmqpWire.LongArgumentRefused` | sudao-smsp/00_public/include/rabbitmq/amqp_framing.c:1672-1679 | an exchange name or routing key of 256 octets or more is refused |
| `AmqpWire.CodecErrors` | sudao-smsp/00_public/include/rabbitmq/amqp_framing.c:1031-1203 | the decoders of properties and of publish arguments, and the encoder of those arguments (1669-1685), refuse with bad data (-2) |
| `AmqpProperties.CloneFieldsIff` | sudao-smsp/00_public/include/rabbitmq/amqp_consumer.c:37-118 | cloning properties gives the same properties, or is refused because of the keys or kinds in the headers |
| `AmqpProperties.AcceptedKnown` | sudao-smsp/00_public/include/rabbitmq/amqp_table.c:359-450 | what the encoder accepts contains no unknown kind, so only keys can make the clone refuse it |
| `AmqpProperties.EmptyKeyRefused` | sudao-smsp/00_public/include/rabbitmq/amqp_table.c:577-593 | headers with one entry of empty key are encoded, decoded as they were, and refused by the clone |
| `AmqpProperties.LibraryPropertiesSurvive` | sudao-smsp/00_public/include/rabbitmq/amqp_framing.c:1834-1961 | for the frame layer: a message's properties survive the library's codec under just that condition |
| `AmqpDecoder.Decoder.constructor` | sudao-smsp/00_public/include/rabbitmq/amqp_connection.c:72-110 | a new connection expects eight bytes in its header buffer |
| `AmqpDecoder.Decoder.ReturnToIdle` | sudao-smsp/00_public/include/rabbitmq/amqp_connection.c:217-224 | the decoder is idle and holds no bytes |
| `AmqpDecoder.Decoder.ConsumeData` | sudao-smsp/00_public/include/rabbitmq/amqp_connection.c:226-242 | the buffer grows by exactly the input consumed, up to the target; input is left only when the target is reached |
| `AmqpDecoder.Decoder.AllocBytes` | sudao-smsp/00_public/include/rabbitmq/amqp_mem.c:125-178 | a fresh buffer of the size asked for, zeroed when it comes from a new pool |
| `AmqpDecoder.Decoder.StartBody` | sudao-smsp/00_public/include/rabbitmq/amqp_connection.c:296-321 | an oversized frame is refused, otherwise the frame buffer holds the header, with byte 7 zero on a new connection |
| `AmqpDecoder.Decoder.FinishFrame` | sudao-smsp/00_public/include/rabbitmq/amqp_connection.c:334-400 | a complete frame yields its decoding, nothing for an ignored type, or the error |
| `AmqpDecoder.Decoder.CompleteHeader` | sudao-smsp/00_public/include/rabbitmq/amqp_connection.c:296-332 | after the header case the bytes collected and the input left are together the stream |
| `AmqpDecoder.Decoder.CompleteBody` | sudao-smsp/00_public/include/rabbitmq/amqp_connection.c:334-404 | the body case delivers the first frame of the stream and returns to idle, or fails with its error |
| `AmqpDecoder.Decoder.Dispatch` | sudao-smsp/00_public/include/rabbitmq/amqp_connection.c:272-410 | the fall-through switch settles the first frame of everything collected, whatever phase it is entered in |
| `AmqpDecoder.Decoder.HandleInput` | sudao-smsp/00_public/include/rabbitmq/amqp_connection.c:244-410 | one call either stores all its input as an unfinished prefix, or takes the bytes up to the end of the first frame, returns that frame and is idle, or returns that frame's error |
| `AmqpDecoder.Decoder.Collect` | sudao-smsp/00_public/include/rabbitmq/amqp_connection.c:257-268 | leaving IDLE and taking input keep the stream and reach the target or use all input |
| `AmqpDecoder.Decoder.HandledView` | sudao-smsp/00_public/include/rabbitmq/amqp_connection.c:264-268 | a successful call takes its bytes off the stream and leaves the parser's remaining work |
| `AmqpDecoder.Decoder.NothingPending` | sudao-smsp/00_public/include/rabbitmq/amqp_connection.c:264-268 | between calls the decoder never holds a complete frame |
| `AmqpDecoder.Decoder.ConsumeOneFrame` | sudao-smsp/00_public/include/rabbitmq/amqp_socket.c:689-705 | every call on non-empty input takes at least one byte, and frame plus remaining work equal the work before |
| `AmqpDecoder.Decoder.Feed` | sudao-smsp/00_public/include/rabbitmq/amqp_socket.c:748-792 | feeding one received chunk terminates and delivers what the whole-stream parser finds in it |
| `AmqpDecoder.Decoder.FeedAll` | sudao-smsp/00_public/include/rabbitmq/amqp_connection.c:244-410 | however a stream is cut into chunks, the frames, the error, the bytes left in the decoder and its phase are those of the uncut stream |
| `AmqpDecoder.ParseFromStep` | sudao-smsp/00_public/include/rabbitmq/amqp_connection.c:272-296 | the stream of a new connection: a protocol header, or frames whose first has lost its eighth byte |
| `AmqpDecoder.ParseFromResumes` | sudao-smsp/00_public/include/rabbitmq/amqp_connection.c:226-332 | parsing a connection's stream may stop anywhere, also inside its first eight bytes |
| `AmqpFirstFrame.FirstFrameIntactIff` | sudao-smsp/00_public/include/rabbitmq/amqp_connection.c:274-321 | a new connection decodes its first frame as it was sent if and only if its field list survives and the byte after the frame header is zero |
| `AmqpFirstFrame.FirstHeartbeatRejected` | sudao-smsp/00_public/include/rabbitmq/amqp_connection.c:318-341 | a heartbeat as the very first frame is always refused as bad data |
| `AmqpSender.Sender.constructor` | sudao-smsp/00_public/include/rabbitmq/amqp_connection.c:72-110 | an outbound buffer of the frame size and nothing sent |
| `AmqpSender.Sender.PutMethodPayload` | sudao-smsp/00_public/include/rabbitmq/amqp_connection.c:482-498 | the method payload is in the buffer behind the frame header, or the encoder's error is returned |
| `AmqpSender.Sender.PutHeaderPayload` | sudao-smsp/00_public/include/rabbitmq/amqp_connection.c:500-519 | the same for a content header |
| `AmqpSender.Sender.CloseFrame` | sudao-smsp/00_public/include/rabbitmq/amqp_connection.c:529-536 | size and end marker complete the frame in place, leaving type, channel and payload as they were |
| `AmqpSender.Sender.FrameToBytes` | sudao-smsp/00_public/include/rabbitmq/amqp_connection.c:464-536 | the outbound buffer begins with exactly the frame's encoding, whatever it held before |
| `AmqpSender.Sender.TrySend` | sudao-smsp/00_public/include/rabbitmq/amqp_socket.c:376-402 | what was taken by the socket is a prefix of the data, of the length reported |
| `AmqpSender.Sender.SendBytes` | sudao-smsp/00_public/include/rabbitmq/amqp_connection.c:559-580 | resending what is left over, whatever portions the socket takes, puts a prefix of the data on the wire, and all of it on success; without failing calls it succeeds |
| `AmqpSender.Sender.SendFrame` | sudao-smsp/00_public/include/rabbitmq/amqp_connection.c:543-585 | over any sequence of partial sends the wire grows by a prefix of the frame, by all of it on success, and by nothing if it cannot be encoded |
| `AmqpSender.Sender.CheckHeartbeat` | sudao-smsp/00_public/include/rabbitmq/amqp_api.c:196-208 | the check before publishing sends nothing; its status, 0, -9, -14, -15 or that of the read that fails, follows from the timer and one attempt to read |
| `AmqpSender.Sender.SendNext` | sudao-smsp/00_public/include/rabbitmq/amqp_api.c:210-230 | sending the next frame of a list keeps the wire at a prefix of the list's encoding |
| `AmqpSender.Sender.SendBody` | sudao-smsp/00_public/include/rabbitmq/amqp_api.c:232-257 | the loop sends exactly the remaining fragments, in order |
| `AmqpSender.Sender.SendMessage` | sudao-smsp/00_public/include/rabbitmq/amqp_api.c:210-260 | behind the heartbeat check: the wire is left at a prefix of method, header and fragments, on OK at all of it; calm system calls and fields that can be encoded suffice for OK |
| `AmqpSender.Sender.Publish` | sudao-smsp/00_public/include/rabbitmq/amqp_api.c:173-260 | a publish, failed or not, leaves the wire at a prefix of method, header and fragments; on OK at all of it; with calm system calls left it fails only when a field encoder does |
| `AmqpSender.FragmentsCover` | sudao-smsp/00_public/include/rabbitmq/amqp_api.c:232-257 | fragments are non-empty, at most `frame_max - 8` long, and together are the body |
| `AmqpSender.FragmentCount` | sudao-smsp/00_public/include/rabbitmq/amqp_api.c:232-257 | there are body length over `frame_max - 8`, rounded up, of them |
| `AmqpSender.FragmentAt` | sudao-smsp/00_public/include/rabbitmq/amqp_api.c:232-257 | the fragment with number i is the body from i times the usable size on, that many octets or what is left |
| `AmqpSender.NextSent` | sudao-smsp/00_public/include/rabbitmq/amqp_api.c:232-257 | a partly written frame after complete ones leaves a prefix of the whole encoding |
| `AmqpConsumer.WaitDelivers` | sudao-smsp/00_public/include/rabbitmq/amqp_socket.c:928-967 | a wait returns the next element of its channel's stream and removes only that from it |
| `AmqpConsumer.ReceiveKeepsOthers` | sudao-smsp/00_public/include/rabbitmq/amqp_socket.c:950-966 | frames that arrive for other channels meanwhile are kept in order |
| `AmqpConsumer.WaitKeepsOthersIff` | sudao-smsp/00_public/include/rabbitmq/amqp_socket.c:936-948 | a wait keeps all frames of another channel if and only if none of them is queued ahead of the frame it takes |
| `AmqpConsumer.WaitLosesFrame` | sudao-smsp/00_public/include/rabbitmq/amqp_socket.c:936-948 | three arriving frames and two waits after which a frame is lost |
| `AmqpConsumer.GatherSound` | sudao-smsp/00_public/include/rabbitmq/amqp_consumer.c:268-305 | a successful reassembly takes the shortest run of body frames that carries the announced size, and is its concatenation |
| `AmqpConsumer.GatherComplete` | sudao-smsp/00_public/include/rabbitmq/amqp_consumer.c:268-305 | whenever such a run exists, reassembly succeeds |
| `AmqpConsumer.ReassemblyExact` | sudao-smsp/00_public/include/rabbitmq/amqp_consumer.c:268-305 | reassembly succeeds if and only if some run of body frames carries exactly the announced size |
| `AmqpConsumer.OvershootRefused` | sudao-smsp/00_public/include/rabbitmq/amqp_consumer.c:292-296 | body frames that jump over the announced size give bad data |
| `AmqpConsumer.ReadExact` | sudao-smsp/00_public/include/rabbitmq/amqp_consumer.c:217-305 | a message is read if and only if a content header comes first, its properties can be cloned, and some run of body frames after it carries exactly its size; the shortest run is used |
| `AmqpConsumer.ServerExceptionIff` | sudao-smsp/00_public/include/rabbitmq/amqp_consumer.c:217-285 | a read ends in a server exception exactly when channel.close (0x140028) or connection.close (0x0A0032) comes first, or behind a header that can be cloned and body frames that stay below the announced size; the frame is used up |
| `AmqpConsumer.UnexpectedStays` | sudao-smsp/00_public/include/rabbitmq/amqp_consumer.c:225-237 | any other frame in place of the header gives UNEXPECTED_STATE (-16) and stays where it is |
| `AmqpConsumer.UnexpectedInBody` | sudao-smsp/00_public/include/rabbitmq/amqp_consumer.c:277-290 | any other frame in place of a missing fragment is bad data (-2) and used up |
| `AmqpConsumer.UncloneableRefused` | sudao-smsp/00_public/include/rabbitmq/amqp_consumer.c:242-249 | a header whose properties cannot be cloned is consumed and gives INVALID_PARAMETER, whatever follows it |
| `AmqpConsumer.Inbox.QueueFrame` | sudao-smsp/00_public/include/rabbitmq/amqp_socket.c:890-907 | the frame is appended to the queue |
| `AmqpConsumer.Inbox.PutBackFrame` | sudao-smsp/00_public/include/rabbitmq/amqp_socket.c:909-926 | the frame is the next of its channel again and no other channel notices |
| `AmqpConsumer.Inbox.WaitFrameInner` | sudao-smsp/00_public/include/rabbitmq/amqp_socket.c:794-864 | the next frame that is not a heartbeat, with everything else left to come |
| `AmqpConsumer.Inbox.WaitFrameOnChannel` | sudao-smsp/00_public/include/rabbitmq/amqp_socket.c:928-967 | queue walk and receive loop compute the specified wait |
| `AmqpConsumer.Inbox.NextFrame` | sudao-smsp/00_public/include/rabbitmq/amqp_socket.c:928-967 | the wait seen from the channel's stream |
| `AmqpConsumer.Inbox.GatherFrame` | sudao-smsp/00_public/include/rabbitmq/amqp_consumer.c:269-304 | one turn of the loop copies one fragment behind the others or ends with the reply the whole reading has |
| `AmqpConsumer.Inbox.GatherBody` | sudao-smsp/00_public/include/rabbitmq/amqp_consumer.c:268-305 | the copying loop fills the message buffer with exactly the gathered body and uses exactly the frames it should |
| `AmqpConsumer.Inbox.ReadMessage` | sudao-smsp/00_public/include/rabbitmq/amqp_consumer.c:202-313 | reply, cloned properties and body follow from the channel's stream; a frame that cannot open a message is still there afterwards, a header that cannot be cloned is not |
| `AmqpConsumer.Inbox.TakeDelivery` | sudao-smsp/00_public/include/rabbitmq/amqp_consumer.c:142-167 | a frame that is no delivery is put back so that every channel sees the same frames as before |
| `AmqpEndToEnd.PublishedStreamDecodes` | sudao-smsp/00_public/include/rabbitmq/amqp_connection.c:244-410 | the wire of a publish decodes, as the stream of a new connection, to exactly the frames published with the properties as they come back, or fails with the codec's error |
| `AmqpEndToEnd.PublishedMessageReads` | sudao-smsp/00_public/include/rabbitmq/amqp_consumer.c:202-313 | reading the published frames gives the cloned properties and the body with reply NORMAL, or the clone's refusal |
| `AmqpEndToEnd.GatherFragments` | sudao-smsp/00_public/include/rabbitmq/amqp_consumer.c:268-305 | reassembly undoes fragmentation |
| `AmqpEndToEnd.FirstByteOfPublish` | sudao-smsp/00_public/include/rabbitmq/amqp_api.c:210-214 | the first frame of a publish survives the loss of byte 7 |
| `AmqpEndToEnd.PublishAndRead` | sudao-smsp/00_public/include/rabbitmq/amqp_api.c:173-260 | publish, any partial sends, any cutting of the wire, decode and read deliver body and properties as codec and clone make of them; exactly as they were if and only if the properties survive their codec and can be cloned; the publish succeeds when no system call and no encoder fails |
| `AmqpEndToEnd.DeliveredIff` | sudao-smsp/00_public/include/rabbitmq/amqp_consumer.c:242-249 | properties reach the reader unchanged if and only if they survive the codec and no header key is empty |
| `AmqpEndToEnd.EmptyKeyNotRead` | sudao-smsp/00_public/include/rabbitmq/amqp_consumer.c:242-249 | the message with an empty header key: published, decoded as it was, refused by the reader |
| `AmqpEndToEnd.ReceiveMessage` | sudao-smsp/00_public/include/rabbitmq/amqp_connection.c:244-410 | any pieces of a published message's bytes, fed to a new connection, give the reader its body and its properties as they come out of codec and clone, or the error they fail with |
| `AmqpEndToEnd.PublishWithLibraryCodec` | sudao-smsp/00_public/include/rabbitmq/amqp_api.c:173-260 | the same with the library's own codec for what a publish sends, and nothing assumed about codec or message: the reader gets exactly these properties and this body if and only if the flags leave the reserved bits alone and every header key, at any depth, has 1 to 255 bytes |
| `AmqpWire.PublishOctets` | sudao-smsp/00_public/include/rabbitmq/amqp_api.c:173-260 | one publish with a header table and a delivery mode, from its first octet to its last, as the library writes it and as it is read back |
| `AmqpEndToEnd.EncodeAndDecode` | sudao-smsp/00_public/include/rabbitmq/amqp_connection.c:464-536 | encoding a frame into the outbound buffer and handing it with more bytes to an idle decoder returns the frame, takes exactly its bytes, payload and eight more, and leaves the decoder idle |
| `AmqpPools.AllocKeepsApart` | sudao-smsp/00_public/include/rabbitmq/amqp_mem.c:125-172 | a pool never hands out memory that overlaps what it has handed out since it was recycled, across pages, reused pages and large blocks |
| `AmqpPools.FirstRegions` | sudao-smsp/00_public/include/rabbitmq/amqp_mem.c:59-172 | the first two regions of a new pool with its 4096-octet pages: sizes rounded up to eights, side by side if both fit a page, otherwise on two |
| `AmqpPools.RecycledServesSame` | sudao-smsp/00_public/include/rabbitmq/amqp_mem.c:88-172 | requests served once are served after recycling from the same places, and no page is added |
| `AmqpPools.Buffers.AllocOn` | sudao-smsp/00_public/include/rabbitmq/amqp_mem.c:212-253 | allocating on a channel keeps everything live and returns a region apart from it |
| `AmqpPools.Buffers.FinishProtocolHeader` | sudao-smsp/00_public/include/rabbitmq/amqp_connection.c:274-291 | a protocol header makes the connection idle and touches no memory |
| `AmqpPools.Buffers.StartHeader` | sudao-smsp/00_public/include/rabbitmq/amqp_connection.c:257-268 | input that ends inside a frame header leaves IDLE and touches no memory |
| `AmqpPools.Buffers.StartBody` | sudao-smsp/00_public/include/rabbitmq/amqp_connection.c:296-321 | the buffer of the frame being received is backed by its channel's pool |
| `AmqpPools.Buffers.FinishBody` | sudao-smsp/00_public/include/rabbitmq/amqp_connection.c:343-403 | the decoded frame keeps the receive buffer and the decoder's memory, and shares none with a queued frame |
| `AmqpPools.Buffers.QueueFrame` | sudao-smsp/00_public/include/rabbitmq/amqp_socket.c:890-907 | a queued frame and its link live in the frame's channel pool |
| `AmqpPools.Buffers.PutBackFrame` | sudao-smsp/00_public/include/rabbitmq/amqp_socket.c:909-926 | the same at the front of the queue |
| `AmqpPools.Buffers.TakeFrame` | sudao-smsp/00_public/include/rabbitmq/amqp_socket.c:936-948 | a frame taken from the queue is still backed |
| `AmqpPools.Buffers.MaybeReleaseOnChannel` | sudao-smsp/00_public/include/rabbitmq/amqp_connection.c:438-462 | the channel's pool is recycled if and only if the connection is idle and no queued frame uses the channel; no other pool changes |
| `AmqpPools.Buffers.ReleaseBuffers` | sudao-smsp/00_public/include/rabbitmq/amqp_connection.c:417-429 | exactly the pools without queued frames are recycled |
| `AmqpPools.Buffers.MaybeReleaseBuffers` | sudao-smsp/00_public/include/rabbitmq/amqp_connection.c:431-436 | the same when idle, nothing otherwise |
| `AmqpPools.RenewUnqueued` | sudao-smsp/00_public/include/rabbitmq/amqp_connection.c:412-462 | recycling a pool without queued frames takes no memory from any queued frame |
| `AmqpPools.RunActions` | sudao-smsp/00_public/include/rabbitmq/amqp_connection.c:412-462 | over any interleaving of input that may stop after a protocol header, inside a frame header or inside a frame, queueing, put-back of received or queued frames, waits and releases, queued frames and the frame being received own their memory, apart from everything else in use and from each other |
| `EscapedLists.EscapedListSeparator.Reset` | sudao-smsp/00_public/include/boost/token_functions.hpp:158-158 | no field is outstanding |
| `EscapedLists.EscapedListSeparator.DoEscape` | sudao-smsp/00_public/include/boost/token_functions.hpp:125-147 | the escaped character, or which of the two errors |
| `EscapedLists.EscapedListSeparator.ReadPiece` | sudao-smsp/00_public/include/boost/token_functions.hpp:173-194 | one turn of the loop is one step of the scanner |
| `EscapedLists.EscapedListSeparator.ReadField` | sudao-smsp/00_public/include/boost/token_functions.hpp:160-197 | the loop reads exactly one field, and remembers whether a delimiter ended it |
| `EscapedLists.EscapedListSeparator.Apply` | sudao-smsp/00_public/include/boost/token_functions.hpp:160-197 | each call yields the next of the list's fields, the end, or the error; only the last empty field consumes nothing |
| `EscapedLists.EscapedListIterator.constructor` | sudao-smsp/00_public/include/boost/token_iterator.hpp:67-87 | a new iterator has the whole list ahead |
| `EscapedLists.EscapedListIterator.Increment` | sudao-smsp/00_public/include/boost/token_iterator.hpp:50-53 | incrementing drops exactly the current token; the iterator compares equal to its former self only at a trailing empty field |
| `EscapedLists.Tokenize` | sudao-smsp/00_public/include/boost/token_iterator.hpp:50-72 | iterating terminates and collects exactly the list of fields, up to the error if there is one |
| `EscapedLists.ScanWritten` | sudao-smsp/00_public/include/boost/token_functions.hpp:160-197 | reading a written field returns it and goes on behind it |
| `EscapedLists.FieldsWritten` | sudao-smsp/00_public/include/boost/token_functions.hpp:160-197 | a written list is read back field by field, trailing empty fields included |
| `EscapedLists.RoundTripsIff` | sudao-smsp/00_public/include/boost/token_functions.hpp:125-147 | every list but the one of a single empty field survives writing and reading if and only if the letter n plays no role |
| `EscapedLists.QuotedFieldReads` | sudao-smsp/00_public/include/boost/token_functions.hpp:173-194 | between quotes delimiters are read literally, without escapes |
| `EscapedLists.EscapeReads` | sudao-smsp/00_public/include/boost/token_functions.hpp:125-147 | an escape before n is a line feed, character 10; before an escape, delimiter or quote it is that character, inside quotes and outside |
| `EscapedLists.FailsIff` | sudao-smsp/00_public/include/boost/token_functions.hpp:125-147 | reading a list fails exactly when some escape, each being passed together with the character it protects, ends the input or stands before a character that is neither n nor escape, delimiter or quote; and with which of the two errors |
| `EscapedLists.PartsRead` | sudao-smsp/00_public/include/boost/token_functions.hpp:160-197 | a field put together from plain and quoted parts in any order is the text of its parts |
| `EscapedLists.UnclosedReads` | sudao-smsp/00_public/include/boost/token_functions.hpp:160-197 | a quote that is never closed reaches to the end and is no error |
| `EscapedLists.WriteAndTokenize` | sudao-smsp/00_public/include/boost/token_iterator.hpp:50-72 | writing a list and iterating over the text returns the list |
| `CharSeparators.TokensOfWoven` | sudao-smsp/00_public/include/boost/token_functions.hpp:447-517 | splitting pieces joined by delimiters returns the pieces with the kept delimiters between them |
| `CharSeparators.SplittingExact` | sudao-smsp/00_public/include/boost/token_functions.hpp:447-517 | every string is pieces joined by delimiters in one way only, and its tokens are those pieces and kept delimiters |
| `CharSeparators.PoliciesAgreeIff` | sudao-smsp/00_public/include/boost/token_functions.hpp:454-513 | dropping empty tokens equals keeping and then removing them, for all strings, if and only if no character is both kept and dropped |
| `CharSeparators.TokensJoin` | sudao-smsp/00_public/include/boost/token_functions.hpp:447-517 | the tokens put together are the string without the characters that are dropped and not kept |
| `CharSeparators.CompactJoins` | sudao-smsp/00_public/include/boost/token_functions.hpp:447-517 | with empty tokens dropped, the string without all dropped characters |
| `CharSeparators.TokenShapes` | sudao-smsp/00_public/include/boost/token_functions.hpp:447-517 | a token is one kept delimiter or holds no delimiter at all |
| `CharSeparators.TokenCount` | sudao-smsp/00_public/include/boost/token_functions.hpp:481-517 | with empty tokens kept there is one piece more than delimiters, and one token more for every kept one |
| `CharSeparators.ReuseFunctor` | sudao-smsp/00_public/include/boost/token_functions.hpp:445-445 | since `reset` does nothing, a functor that has run over one string yields all tokens of another if and only if empty tokens are dropped, one of the strings is empty, or the other does not start with a delimiter |
| `CharSeparators.CharSeparator.SkipPiece` | sudao-smsp/00_public/include/boost/token_functions.hpp:506-507 | the scanning loop stops at the first delimiter |
| `CharSeparators.CharSeparator.SkipDropped` | sudao-smsp/00_public/include/boost/token_functions.hpp:456-459 | skipping dropped delimiters loses no token |
| `CharSeparators.CharSeparator.ApplyDropping` | sudao-smsp/00_public/include/boost/token_functions.hpp:454-475 | each call yields the next non-empty token and consumes input |
| `CharSeparators.CharSeparator.ApplyKeeping` | sudao-smsp/00_public/include/boost/token_functions.hpp:476-513 | each call yields the next token; it consumes nothing exactly when the flag is down at a delimiter or at the end, and then raises it |
| `CharSeparators.CharSeparator.Apply` | sudao-smsp/00_public/include/boost/token_functions.hpp:447-517 | under either policy a call takes one token off those still to come, and the token is the stretch of input before the new position |
| `CharSeparators.CharTokenIterator.constructor` | sudao-smsp/00_public/include/boost/token_iterator.hpp:67-87 | a new iterator has all tokens ahead, none for an empty input |
| `CharSeparators.CharTokenIterator.FromFunctor` | sudao-smsp/00_public/include/boost/token_iterator.hpp:76-77 | an iterator over a used functor has ahead what that functor's flag leaves of the string |
| `CharSeparators.Collect` | sudao-smsp/00_public/include/boost/token_iterator.hpp:50-53 | running an iterator to its end terminates and yields all its tokens, and leaves the flag up |
| `CharSeparators.CharTokenIterator.Increment` | sudao-smsp/00_public/include/boost/token_iterator.hpp:50-53 | incrementing drops exactly the current token; the exact condition under which the position stays |
| `CharSeparators.EqualIgnoresTokens` | sudao-smsp/00_public/include/boost/token_iterator.hpp:59-65 | two iterators on different tokens of one string that compare equal |
| `CharSeparators.Tokenize` | sudao-smsp/00_public/include/boost/token_iterator.hpp:50-72 | iterating terminates, although some calls consume nothing, and collects exactly the tokens |
| `BatchAllocation.CarveAdds` | sudao-smsp/00_public/include/json/json_batchallocator.h:62-77 | carving adds exactly one block, not carved before, and keeps every batch but the current one full |
| `BatchAllocation.BlocksApart` | sudao-smsp/00_public/include/json/json_batchallocator.h:75-77 | different blocks never overlap |
| `BatchAllocation.BlocksInPage` | sudao-smsp/00_public/include/json/json_batchallocator.h:75-77 | blocks lie inside their page when the page is a whole number of blocks |
| `BatchAllocation.InPageIff` | sudao-smsp/00_public/include/json/json_batchallocator.h:102-111 | no run of allocations leaves a page if and only if `objectsPerPage` is a whole number of blocks |
| `BatchAllocation.DefaultPageOverrun` | sudao-smsp/00_public/include/json/json_batchallocator.h:31-31 | with the default of 255 objects to a page and blocks of eight, the 256th block starts where its page ends |
| `BatchAllocation.NeverFull` | sudao-smsp/00_public/include/json/json_batchallocator.h:62-63 | otherwise the first page is never found full and is carved on forever |
| `BatchAllocation.BatchAllocator.constructor` | sudao-smsp/00_public/include/json/json_batchallocator.h:31-40 | a dummy page without room, nothing free, nothing live |
| `BatchAllocation.BatchAllocator.FindRoom` | sudao-smsp/00_public/include/json/json_batchallocator.h:62-74 | the search loop finds the first batch with room or puts a new page at the head |
| `BatchAllocation.BatchAllocator.Allocate` | sudao-smsp/00_public/include/json/json_batchallocator.h:54-78 | the block returned was not in use; it is the one released last if any is free, else a new one; the free list in memory stays intact |
| `BatchAllocation.BatchAllocator.Release` | sudao-smsp/00_public/include/json/json_batchallocator.h:82-87 | the block is the head of the free list threaded through memory |
| `BatchAllocation.BatchAllocator.Write` | sudao-smsp/00_public/include/json/json_batchallocator.h:54-87 | a client writing into its block does not disturb the free list |
| `BatchAllocation.RunActions` | sudao-smsp/00_public/include/json/json_batchallocator.h:54-87 | over any run of allocations, releases and writes, held and free blocks are distinct and apart, are together all blocks carved, and lie in their pages when these hold whole blocks |
| `LexicalCast.PutUnsigned` | sudao-smsp/00_public/include/boost/lexical_cast.hpp:508-566 | the loop writes exactly the grouped decimal text of the number, ending at `finish`, and touches nothing else |
| `LexicalCast.Insert` | sudao-smsp/00_public/include/boost/lexical_cast.hpp:842-897 | the buffer of statically fixed size ends with the printed value, sign included |
| `LexicalCast.DecimalReads` | sudao-smsp/00_public/include/boost/lexical_cast.hpp:543-562 | the digits of a number, read as decimal, give the number |
| `LexicalCast.GroupingReads` | sudao-smsp/00_public/include/boost/lexical_cast.hpp:543-557 | taking the separators out gives the digits back |
| `LexicalCast.GroupedLength` | sudao-smsp/00_public/include/boost/lexical_cast.hpp:327-339 | at most one separator between two digits, for any grouping string |
| `LexicalCast.TextSeparates` | sudao-smsp/00_public/include/boost/lexical_cast.hpp:508-566 | a separator stands exactly where a group ends and another digit precedes, for every number of at most 127 digits and every grouping |
| `LexicalCast.EndsGroupIff` | sudao-smsp/00_public/include/boost/lexical_cast.hpp:524-552 | a group ends k digits from the right exactly when the sizes of the first so many groups, the last one repeating, are all positive and add up to k |
| `LexicalCast.DecimalPlaces` | sudao-smsp/00_public/include/boost/lexical_cast.hpp:558-566 | the i-th digit from the right is the character 48 plus the decimal digit of weight 10^i, and there is no leading zero |
| `LexicalCast.PrintedExample` | sudao-smsp/00_public/include/boost/lexical_cast.hpp:508-566 | -1234 in groups of three is "-1,234"; 1234567 without groups is its digits |
| `LexicalCast.SourceLengthTight` | sudao-smsp/00_public/include/boost/lexical_cast.hpp:340-352 | the buffer is no larger than needed: the smallest signed value in groups of one digit fills it |
| `LexicalCast.ToUnsignedIsMagnitude` | sudao-smsp/00_public/include/boost/lexical_cast.hpp:491-498 | negating in the unsigned type gives the magnitude, also for the smallest value |
| `LexicalCast.PrintedReads` | sudao-smsp/00_public/include/boost/lexical_cast.hpp:508-566 | reading a printed text without its separators gives the value |
| `LexicalCast.PrintedFits` | sudao-smsp/00_public/include/boost/lexical_cast.hpp:340-352 | every value of a type prints within `lcast_src_length_integral` characters |
| `LexicalCast.ListedTypesValid` | sudao-smsp/00_public/include/boost/lexical_cast.hpp:367-379 | the listed 16-, 32- and 64-bit types have the `digits10` assumed |
| `HostCheck.RawEqual` | sudao-smsp/00_public/include/rabbitmq/amqp_hostcheck.c:104-120 | decides equality ignoring ASCII case: equal lengths, and at each place equal codes or one of 65 to 90 and the code 32 above it |
| `HostCheck.RawNEqual` | sudao-smsp/00_public/include/rabbitmq/amqp_hostcheck.c:122-137 | decides equality, ignoring case, of the first `max` characters as far as there are so many |
| `HostCheck.CompareLabels` | sudao-smsp/00_public/include/rabbitmq/amqp_hostcheck.c:168-187 | the label comparisons: tail, length, prefix and suffix |
| `HostCheck.HostMatch` | sudao-smsp/00_public/include/rabbitmq/amqp_hostcheck.c:148-188 | when the asterisk counts as a wildcard and what is compared then |
| `HostCheck.LabelsDecide` | sudao-smsp/00_public/include/rabbitmq/amqp_hostcheck.c:148-188 | those conditions and comparisons hold if and only if pattern and host split into prefix, wild part, suffix and rest as section 6.4.3 of RFC 6125 wants |
| `HostCheck.Check` | sudao-smsp/00_public/include/rabbitmq/amqp_hostcheck.c:190-201 | a match if and only if both names are non-empty and are equal ignoring case or match by the wildcard rule |
| `HostCheck.SameTextIff` | sudao-smsp/00_public/include/rabbitmq/amqp_hostcheck.c:34-62 | two texts are equal ignoring case exactly when their lengths agree and at each place the codes are equal or are one of 65 to 90 and the code 32 above it |
| `HostCheck.CaseDoesNotMatter` | sudao-smsp/00_public/include/rabbitmq/amqp_hostcheck.c:34-201 | writing any letters of pattern and host in the other case changes no answer |
| `HostCheck.WildcardNeeds` | sudao-smsp/00_public/include/rabbitmq/amqp_hostcheck.c:148-188 | a wildcard match needs an asterisk in the first label, two dots behind it and no "xn--" in front in either case; the host is no shorter and agrees from the first dots on |
| `HostCheck.WildcardSuffices` | sudao-smsp/00_public/include/rabbitmq/amqp_hostcheck.c:148-188 | a pattern with such an asterisk matches whatever non-empty, dot-free text stands in its place |

## Left out

- AmqpFrames.FrameRoundTrip: of the field codecs of amqp_framing.c only the arguments of basic.publish and the Basic properties are modelled (AmqpProperties); those of the other methods and classes are arbitrary functions that respect the room they are given. Nothing assumes that they survive: the theorems say what a frame comes back as in terms of its own fields, and when that is the frame itself.
- AmqpProperties.PropertiesSurviveIff: the generated codecs are sequences of fourteen conditional steps without a loop; they are modelled on values, as a walk over fourteen places, and not in place. Which of its errors an encoder returns is not distinguished, and a third flag word, for which the decoder shifts beyond its integer type, is refused.
- AmqpTables.Cursor.DecodeTable: failing allocations, counts beyond the range of `int` and the depth of recursion are not modelled. Floating-point values are the bits the library copies.
- AmqpTables.Cursor.EncodeTable: an encoder that fails returns one of three errors, INVALID_PARAMETER only for a value of unknown kind; which of the other two it is depends on the write that found no room and is not stated.
- AmqpDecoder.Decoder.HandleInput: nothing is said about method payloads below 4 and header payloads below 12 bytes, which the code reads past, about the decoder after a negative return, or about returned byte counts beyond the range of `int`. Failing allocations are not modelled, the frame size is taken as already tuned, and header fields wrap nowhere because `size_t` is taken to have 64 bits.
- AmqpDecoder.Decoder.AllocBytes: a pool is represented by whether it exists yet; memory of an existing pool has arbitrary contents. Where regions lie is in AmqpPools.
- AmqpSender.Sender.FrameToBytes: a body fragment has to fit the frame size, which the code does not check itself (its only caller sees to it), and the frame size has to be at least 20, below which the code's size arithmetic wraps around (the protocol's own minimum is 4096).
- AmqpSender.Sender.TrySend: sockets, TLS, clocks and polls are a finite list of outcomes given in advance; a call beyond its end fails. A socket that accepts nothing forever is therefore not represented, and the resend loop is shown correct, not live.
- AmqpSender.Sender.Publish: the arguments of the publish method are one opaque field list, `amqp_basic_publish`'s fixed default properties are a parameter, and the AMQP_SF_MORE and AMQP_SF_NONE flags, which are only hints to the socket, are left out.
- AmqpConsumer.Inbox.ReadMessage: allocation succeeds, the properties of a header frame of another class than Basic are taken as they are, where the code reads the decoded structure as Basic's whatever its class; the waits see decoded frames and errors as a finite list, after which they time out.
- AmqpConsumer.Inbox.TakeDelivery: only the first frame of `amqp_consume_message` is modelled, since cloning the delivery's fields is straight copying.
- AmqpPools.RunActions: pools work on regions instead of addresses, the hash table from channels to pools is a map, and allocations of zero bytes, which return no memory, do not occur.
- The connection object is split into Decoder, Sender, Inbox and Buffers, one per group of fields; that their fields live in one struct is not modelled.
- CrcEngines.InitTable: the static flag that makes the table initialise once is not modelled; neither are the plain getters and the function-call operators.
- CharSeparators.CharSeparator.ApplyKeeping: the default constructor that asks `ispunct` and `isspace`, and the variant for input iterators, which never stores an end position, are left out.
- The offset and the deprecated delimiter functions, and the iterator's converting constructor, would only add easy members.
- BatchAllocation.BatchAllocator.Allocate: memory is addressed by page and offset, a failing `malloc` and the 32-bit size computation of a page are not modelled, and the destructor is left out.
- LexicalCast.Insert: the locale's grouping and separator are parameters; floating-point, wide-character and stream paths are left out.
- HostCheck.Check: strings are sequences without a terminator inside; null pointers, which never match, do not occur.
- Other headers of the directory (hiredis, the JSON reader and writer, opencc, the multi-index and multi-array containers) hold declarations or code whose bodies are elsewhere.
