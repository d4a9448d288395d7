# Verified model of rustables

rustables turns nftables objects (tables, chains, rules, sets) into netlink messages, reads them back, sends
them to the kernel in batches, and compiles packet predicates into rule expressions.  This project models
four parts of it and proves what they promise.

* **The attribute codec** (`Schema`, `Encoder`, `Printer`, `Decoder`, `Stream`, `RoundTrip`, `Injective`,
  `ReadBack`, `Forward`, `Rewriting`, `Decoding`, `Unicode`, `Objects`, `Layouts`, `Rejected`).  What the
  `nfnetlink_struct` macro generates is modelled once, for any structure: an ordered list of attribute numbers and
  field types.  Values are sized, written in place into a zeroed buffer and read back by cursor loops.  Decoding is
  total: an index out of range or a subtraction below zero is the outcome `Panic`, so nothing is assumed about the
  input of the readers.
* **Messages and batches** (`Messages`, `ObjectLaws`, `Batch`).  The writer back-patches the length of the
  message it is writing; a batch numbers its objects and brackets them.
* **The reply loop** (`Reply`).  The socket is a sequence of receives.
* **The rule builder** (`Prefix`, `Packets`, `Matchers`, `RuleBuilder`, `BuiltRules`, `Kernel`, `OnWire`).  Builder
  methods push expressions; an evaluator over packets gives the expressions a meaning, in the terms of
  `examples/add-rules.rs`, and each matcher is proved to mean its predicate.  `Kernel` reads the message of a rule by
  the names and numbers of the kernel's interface, independently of the layouts the writer uses.

The main results are `RoundTripsIff`, `ReadBackIs`, `EncodeInjective`, `UnknownAttributesAreHarmless`,
`ObjectRoundTripsIff`, `BatchIsTransaction`, `BatchReadsBackIff`, `ChunkingIndependence`, `SuccessIff`,
`MatcherMeans`, `CompositionIsConjunction` and `BuiltRuleComesBack`.

Check the project with `dafny verify dfyconfig.toml`.

## Where the code departs from its evident intent

The model follows the code; these are stated as theorems.

* Reading back is not the inverse of writing.  `RoundTripsIff` gives the exact condition: it fails for strings
  that end in NUL, for the chain policy Drop (read as Accept), for attributes beyond 65531 bytes, for structures
  and lists that end in an empty attribute, and for expression data that does not match the expression's name.
  `ReadBackIs` says what comes back instead.
* Hence no rule with a masquerade expression or a default counter can be read back
  (`HollowExpressionSinksRule`, `MasqueradeRuleIsLost`).
* A remark in `src/expr/mod.rs` says that raw expressions are the only ones that cannot be written again after
  they were read, because their name is lost.  The name is kept (`UnknownExpressionKept`), and other values cannot
  be written again (`RewritesIff`, `NamelessTable`).
* A list is dropped silently if it has an element of a foreign type behind elements that decode, because its
  error is the one that means "unknown attribute" one level up; `ForeignElementDropsExpressions` says exactly when.
* `sport` builds the expressions of `dport` (`SportAsksForDestination` says when that does no harm,
  `SportMissesItsPacket` shows it does).  `syn` is documented for TCP packets but does not check the protocol
  (`SynIgnoresProtocol`, `SynMatchesUdp`).  `dnat` always announces IPv4, so of an IPv6 address only four bytes are
  used (`DnatTranslates`).
* A batch reports success when the replies stop early: an empty receive ends the run without an error, and the
  acknowledgements still missing go unnoticed (`SuccessIff`, `SuccessWithoutLastAck`).
* The reply loop prepares for messages that continue in the next datagram, but never gets there: the relocation
  is unreachable (`RecvAndProcess`), and a message cut by a datagram is an error (`CutDatagramFails`).

## Conventions

Header fields are little-endian, as on the hosts the library's own expectations are written for; integer payloads
are big-endian.  Attribute numbers, message numbers and codes are those of the kernel's `nf_tables.h`,
`nfnetlink.h` and `netlink.h`, and the message header follows section 2.3.2 of RFC 3549.  Arithmetic overflow is a
panic.  Enumerations over `i32` are held as 32-bit patterns.  The slice a payload is written into is an array that
is copied back into the writer's buffer.  In the evaluator a load fills the front of a 16-byte register and leaves
the rest; loading bytes a packet does not have, or more than a register holds, does not match.  A NAT expression
reads as many bytes as an address of its family has, which is the kernel's convention and not stated in the
repository; `DnatTranslates` rests on it.  Builder methods that only pass on another constant share a row.
Every induction is written out: all lemmas carry `{:induction false}`, so no proof rests on an induction
hypothesis the verifier supplied.

## Model

| member | source | states |
|---|---|---|
| `Bytes.PadIsBitMask` | src/nlmsg.rs:21-24 | the bit-mask form of padding on 64-bit words is rounding up to a multiple of 4 whenever the addition does not overflow |
| `Bytes.PadWithHeader` | src/parser.rs:143-156 | padding header and payload apart (the cursor) and together (the remaining size) moves by the same amount |
| `Encoder.TypeFieldIsBitOr` | src/parser.rs:114-118 | the nested flag added to an attribute number is the bitwise or of the code |
| `Decoder.TypeMaskIsBitAnd` | src/parser.rs:140-141 | the remainder the reader takes of the type field is the mask of the code |
| `Encoder.Encode` | macros/src/lib.rs:381-433 | for every value, `get_size` is exactly the number of bytes its encoding has, at any depth |
| `Encoder.FieldSizesAreAligned` | macros/src/lib.rs:382-391 | the size of every generated structure is a multiple of 4 |
| `Encoder.ListStridesAgree` | src/parser_impls.rs:169-211 | for lists of structures the writer's unpadded stride and the reader's padded stride are the same offset |
| `Encoder.WriteAttribute` | src/parser.rs:108-128 | writing an attribute in place leaves header and payload at the given offset and every other byte unchanged |
| `Encoder.WritePayload` | src/parser_impls.rs:20-119 | the in-place writer fills exactly `get_size` zeroed bytes with the encoding and changes nothing beyond |
| `Encoder.WriteField` | macros/src/lib.rs:392-410 | one write entry: the attribute followed by zero padding, the cursor behind it |
| `Encoder.WriteFields` | macros/src/lib.rs:426-430 | a structure in a zeroed buffer becomes the concatenation of its set fields as padded attributes, in order |
| `Encoder.WriteItems` | src/parser_impls.rs:176-182 | a list in a zeroed buffer becomes the concatenation of its elements at the unpadded stride |
| `Printer.PrinterAgrees` | src/tests/mod.rs:37-84 | the writer's bytes of every structure and list are those of the recursive reference printer, children in written order |
| `Printer.TreeAgrees` | src/tests/mod.rs:39-70 | the same for one attribute, padded where the printer pads and nested where the printer nests |
| `Printer.ListsAgreeIff` | src/parser_impls.rs:169-182 | for elements of any shape, the unpadded list writer and the padding printer give the same bytes if and only if every element's size is a multiple of 4 |
| `Printer.UnalignedListsDisagree` | src/parser_impls.rs:169-182 | a concrete list of two strings on which they differ |
| `Decoder.ReadAttributes` | src/parser.rs:130-164 | the cursor loop keeps `pos + remaining = len`, reports every slice out of range as a panic, and computes the recursive reader |
| `Decoder.DecodeAttribute` | macros/src/lib.rs:347-379 | the generated attribute decoder sets the one field of that type, or fails without setting any |
| `Decoder.Deserialize` | src/parser_impls.rs:20-125 | decoding a value of any shape is the recursive decoder, including short input and left-over bytes |
| `Decoder.ReadList` | src/parser_impls.rs:189-218 | the list reader's loop computes the recursive list reader, with its own error order |
| `Decoding.StringsRead` | src/parser_impls.rs:101-109 | for all bytes: a string is read without one terminating NUL and whole if it has none, and refused unless it is UTF-8 |
| `Unicode.Utf8Iff` | src/parser_impls.rs:101-109 | bytes pass as UTF-8 if and only if they are the encoding of some sequence of code points |
| `Decoding.WordsRead` | src/chain.rs:118-131 | a chain type is read with and without its NUL as the word it spells, and other words are refused |
| `Decoding.ChainTypesRead` | src/chain.rs:84-131 | the three chain types by name |
| `Decoding.NumbersRead` | src/parser_impls.rs:20-86 | a number is its bytes in network order whatever follows; too few bytes panic |
| `Decoding.CodesRead` | macros/src/lib.rs:560-583 | an enumeration takes its own codes and reports every other one |
| `Decoding.PoliciesRead` | src/chain.rs:70-82 | both policies are read as Accept, every other code is refused |
| `Decoding.CodesKnown` | src/expr/meta.rs:8-39 | the codes of each enumeration of the library |
| `Decoding.LeftOverRefused` | macros/src/lib.rs:354-363 | a field that does not use up its payload is refused |
| `Decoding.AttributesRefused` | src/expr/mod.rs:130-174 | expression data before its name is refused, an attribute of an unknown type is reported as such |
| `Objects.NamesSelect` | src/expr/mod.rs:130-196 | each of the sixteen expressions is selected by its own name and by no other's |
| `Messages.TypeOfWellFormed` | src/rule.rs:18-36 | the attribute layouts of tables, chains, rules, sets and element lists meet the conditions of the theorems |
| `Layouts.TableLayout` | src/table.rs:15-26 | whatever is set in a table is found under attribute numbers 1, 2 and 6, with its width |
| `Layouts.ChainLayout` | src/chain.rs:136-155 | the same for a chain, its hook nested |
| `Layouts.RuleLayout` | src/rule.rs:18-36 | the same for a rule, its expression list nested |
| `Layouts.SetLayout` | src/set.rs:18-36 | the same for a set |
| `Layouts.SetElementsLayout` | src/set.rs:89-98 | the same for a list of set elements |
| `Layouts.HookLayout` | src/chain.rs:31-39 | the same for a hook |
| `Layouts.DataLayout` | src/parser_impls.rs:126-133 | the same for data, its verdict nested |
| `Layouts.VerdictLayout` | src/expr/verdict.rs:23-32 | the same for a verdict |
| `Layouts.ExpressionLayout` | src/expr/mod.rs:79-103 | the same for an expression: its name is attribute 1, its data the nested attribute 2 |
| `Layouts.SetElementLayout` | src/set.rs:109-114 | the same for a set element |
| `Layouts.BitwiseLayout` | src/expr/bitwise.rs:11-29 | the layout of the expression found under that name |
| `Layouts.ByteorderLayout` | src/expr/byteorder.rs:22-40 | the layout of the expression found under that name |
| `Layouts.CmpLayout` | src/expr/cmp.rs:33-59 | the layout of the expression found under that name |
| `Layouts.CtLayout` | src/expr/ct.rs:27-43 | the layout of the expression found under that name |
| `Layouts.CounterLayout` | src/expr/counter.rs:9-21 | the layout of the expression found under that name |
| `Layouts.ExthdrLayout` | src/expr/exthdr.rs:22-44 | the layout of the expression found under that name |
| `Layouts.ImmediateLayout` | src/expr/immediate.rs:10-50 | the layout of the expression found under that name |
| `Layouts.LogLayout` | src/expr/log.rs:10-41 | the layout of the expression found under that name |
| `Layouts.LookupLayout` | src/expr/lookup.rs:9-40 | the layout of the expression found under that name |
| `Layouts.MasqLayout` | src/expr/masquerade.rs:7-20 | the layout of the expression found under that name |
| `Layouts.MetaLayout` | src/expr/meta.rs:42-62 | the layout of the expression found under that name |
| `Layouts.NatLayout` | src/expr/nat.rs:21-37 | the layout of the expression found under that name |
| `Layouts.PayloadLayout` | src/expr/payload.rs:11-29 | the layout of the expression found under that name |
| `Layouts.RejectLayout` | src/expr/reject.rs:9-21 | the layout of the expression found under that name |
| `Layouts.RtLayout` | src/expr/rt.rs:25-37 | the layout of the expression found under that name |
| `Layouts.ElementNumber` | src/parser_impls.rs:176-182 | list elements are written as nested attributes 1 |
| `Stream.ReadOne` | src/parser.rs:138-157 | one turn of the reader on a written attribute: the payload is decoded as its field or skipped, and reading goes on behind the padding |
| `Stream.DecodedFits` | src/parser.rs:130-164 | whatever the input, a decoded value is of its type and never larger than the bytes it came from |
| `Stream.ReadAttrsFits` | src/parser.rs:144-157 | no field of a decoded structure is larger than a 16-bit length allows |
| `RoundTrip.RoundTripsIff` | src/parser.rs:108-164 | for every shape, every value and every depth: reading back what was written gives the value if and only if no string ends in NUL, no policy is Drop, every attribute fits 16 bits, no structure or list ends in an empty attribute, and expression data matches its name |
| `RoundTrip.StructRoundTrip` | macros/src/lib.rs:347-454 | the same for structures, with the oversized case: a truncated length can never lead back to the value |
| `RoundTrip.ListRoundTrip` | src/parser_impls.rs:176-219 | the same for lists of any length |
| `RoundTrip.EarlierFieldKept` | src/parser.rs:137-158 | reading later attributes of a structure never disturbs a field already read |
| `RoundTrip.DropComesBackAsAccept` | src/chain.rs:70-82 | a Drop policy among surviving fields comes back as Accept and changes nothing else |
| `ReadBack.ReadBackIs` | src/parser.rs:108-164 | for every value within the 16-bit lengths whose expressions carry what their names select: reading back gives exactly the value with one trailing NUL less in each string and every policy Accept, unless something ends in an empty attribute, and then `InvalidDataSize` |
| `ReadBack.SurvivesIffRestored` | src/parser_impls.rs:98-119 | such a value is read back unchanged if and only if nothing ends in an empty attribute and there is nothing to restore |
| `Injective.EncodeInjective` | src/parser.rs:108-128 | two values within the 16-bit lengths, with expression data that matches its name, are the same value if they have the same encoding, also where the reader rejects or changes them |
| `Forward.ReadsAsFold` | src/parser.rs:130-164 | on well-formed streams the cursor loop is the plain fold over the attributes, except that a last empty attribute is never reached |
| `Forward.ExactAcceptance` | src/parser.rs:138-163 | a stream whose attributes all decode or are unknown is accepted if and only if it is empty or ends in a payload; otherwise the error is `InvalidDataSize` |
| `Forward.StructsNeverUnsupported` | src/parser.rs:145-153 | a structure's own failure is never reported as an unsupported attribute |
| `Forward.UnknownAttributesAreHarmless` | src/parser.rs:145-153 | inserting attributes of unknown types, in any position and at any depth of structures, lists and expressions, never changes a decoded value; a stream decodes before the insertion if and only if it does afterwards and no stream in it ended in an empty attribute that now has something behind or in it |
| `Forward.InsertionsDo` | src/parser.rs:138-163 | without such a repair, the insertions change no outcome at all, errors included |
| `Rewriting.DecodedFitsDeep` | src/parser.rs:130-164 | whatever the input, what was read fits its 16-bit lengths at every depth when it is written again |
| `Rewriting.RewritesIff` | src/parser.rs:108-164 | whatever the input, a value that was read is read again after being written if and only if its names select its data, nothing in it ends empty and no string in it ends in NUL |
| `Rewriting.NamelessTable` | src/parser.rs:138-163 | a table with an empty name is not read back; with any unknown attribute behind the name it is read, and then not read again once it is written |
| `Rewriting.UnknownExpressionKept` | src/expr/mod.rs:213-226 | an expression with an unknown name is read with its name and bytes and written again as it was |
| `Rejected.EmptyLastFieldRejected` | src/parser.rs:138-163 | a structure whose last set field is empty is never read back |
| `Rejected.HollowExpressionSinksRule` | src/parser_impls.rs:189-218 | one expression without data bytes, anywhere in the list, makes the whole rule unreadable |
| `Rejected.MasqueradeAndCounterAreHollow` | src/expr/masquerade.rs:5-8 | the masquerade expression and the default counter are such expressions |
| `Rejected.UnsupportedIffForeign` | src/parser_impls.rs:189-218 | a list is reported as an unsupported attribute if and only if, behind elements that decode, there is one of a foreign type that is not an empty last one |
| `Rejected.ForeignElementDropsExpressions` | src/parser_impls.rs:198-200 | a rule is read as if sent without its expression list if and only if the list has such an element; every other fault of the list is a fault of the rule, and a list without fault is set |
| `Rejected.ForeignTailDropsExpressions` | src/parser_impls.rs:198-200 | the same for any bytes behind the header of the foreign element, malformed ones included |
| `Messages.BitFields` | src/nlmsg.rs:32-38 | flag tests and the two halves of a message type are the bit operations of the code |
| `Messages.HdrReadsBack` | src/parser.rs:19-38 | a message header is read as it was written, whatever follows |
| `Messages.MessagesParse` | src/parser.rs:48-104 | for every message of its own length, by the numbers of the protocol: what it is parsed as, or the error it is refused with |
| `Messages.TruncatedMessages` | src/parser.rs:19-38 | bytes without a header, or without the message the header announces, are refused |
| `Messages.FrameParses` | src/parser.rs:48-104 | every written message is parsed as its header, family and body, whatever follows |
| `Messages.StreamParses` | src/parser.rs:48-104 | a sequence of written messages is taken apart into exactly those messages |
| `Messages.FrameParsesAsObject` | src/parser.rs:173-199 | parsing an object reads the attributes of the message body and returns the bytes behind the message |
| `Messages.ObjectNumbers` | src/nlmsg.rs:132-146 | the type and flags of every object's message, added and deleted, as numbers |
| `Messages.KindsDoNotMix` | src/parser.rs:183-185 | an object's message is refused as an object of any other kind |
| `Messages.FamilyRead` | src/parser_impls.rs:233-247 | the family is taken from the header and refused if unknown |
| `Messages.ObjectRoundTripsIff` | src/nlmsg.rs:132-151 | every table, chain, rule, set and element list, added or deleted, in front of anything: `deserialize` returns the object and the bytes behind it if and only if its attributes survive |
| `Messages.UnreadableObject` | src/parser_impls.rs:233-247 | an object whose attributes are not read is not read from its message |
| `Messages.DropChainComesBackAsAccept` | src/chain.rs:70-82 | a chain with policy Drop is read back from its message with policy Accept, otherwise unchanged |
| `ObjectLaws.MessagesTellObjectsApart` | src/nlmsg.rs:132-151 | two objects of any kinds, within the 16-bit lengths and with expression data that matches its name, that have the same message are the same object under the same request and number |
| `ObjectLaws.NewerMessagesReadAlike` | src/parser.rs:173-199 | an object read from a message is read alike from the message with unknown attributes inserted; it is read before if and only if it is read afterwards and nothing was repaired |
| `ObjectLaws.ObjectReadsBackAs` | src/nlmsg.rs:132-151 | what `deserialize` makes of the message of any object within the 16-bit lengths, with names that select its data: the restored object and the bytes behind it, or nothing if something ends in an empty attribute |
| `Batches.NfNetlinkWriter.constructor` | src/nlmsg.rs:48-50 | a new writer holds no message |
| `Batches.FullTypeIs` | src/nlmsg.rs:89-93 | for the library's message numbers the bits of the subsystem are added to the number; every result fits the 16-bit field |
| `Batches.NfNetlinkWriter.AddDataZeroed` | src/nlmsg.rs:52-66 | appends zeros to the padded size; an open message stays well framed, with that many zeros behind its body, whatever was in it before |
| `Batches.NfNetlinkWriter.Fill` | src/nlmsg.rs:65 | writing data of any size into the returned slice leaves it behind the old bytes, padded with zeros, and keeps the message well framed |
| `Batches.NfNetlinkWriter.WriteHeader` | src/nlmsg.rs:69-109 | opens a message whose length field counts both headers, finished messages keep their bytes; if a message was still open, the new headers become part of its body |
| `Batches.NfNetlinkWriter.WriteBody` | src/nlmsg.rs:147-148 | puts the attributes behind the body of the open message, whatever that is; its length field still counts all of it |
| `Batches.NfNetlinkWriter.FinalizeWritingObject` | src/nlmsg.rs:111-113 | closes the open message, if there is one, without touching a byte |
| `Batches.NfNetlinkWriter.WriteObject` | src/nlmsg.rs:132-151 | appends exactly one message with the given type, flags, number, family and attributes |
| `Batches.NfNetlinkWriter.AddOrRemove` | src/nlmsg.rs:132-151 | the same for an object and its message numbers and flags |
| `Batches.FrameGrows` | src/nlmsg.rs:57-62 | patching the length field while growing the buffer keeps the message well framed |
| `Batches.Batch.constructor` | src/batch.rs:33-54 | a new batch holds BEGIN with number 0 and numbers objects from 1 |
| `Batches.Batch.Add` | src/batch.rs:57-61 | appends one object under the next number, keeping all before it |
| `Batches.Batch.AddIter` | src/batch.rs:64-72 | appends the objects in order |
| `Batches.Batch.Finalize` | src/batch.rs:80-90 | after any calls the buffer is BEGIN, the objects in order, END |
| `Batches.Batch.MaxSeq` | src/batch.rs:103 | the number awaited is that of the last object |
| `Batches.BatchIsTransaction` | src/batch.rs:33-90 | taking the buffer apart consumes all of it and yields BEGIN, each object with its attributes, family, and type and flags as numbers, and END, numbered 0, 1 .. n, n + 1 |
| `Batches.EmptyBatchBytes` | src/batch.rs:33-90 | the bytes of a batch without objects |
| `Batches.BatchReadsBackIff` | src/tests/batch.rs:57-96 | behind BEGIN, the objects are read back in order down to END if and only if each survives |
| `Reply.ProcessReceived` | src/query.rs:33-77 | the inner loop handles the received bytes message by message and ends with all of them used |
| `Reply.RecvAndProcess` | src/query.rs:16-88 | for every sequence of receives: the buffer is used up and more than the maximal message size is free before each, unread bytes are never relocated, and the result is that of the recursive run |
| `Reply.DrainIsScan` | src/query.rs:33-77 | on whole messages the byte-level loop is the scan over the message list |
| `Reply.ChunkingIndependence` | src/query.rs:26-88 | however whole messages are distributed over datagrams, callbacks and result are those of one left-to-right scan |
| `Reply.CutMessageFails` | src/query.rs:41 | bytes that end inside a message are a parse error once the whole messages before it are handled |
| `Reply.CutDatagramFails` | src/query.rs:26-88 | whatever datagrams of whole messages came before, a run that gets to a datagram ending inside a message fails there, whatever would follow |
| `Reply.PassingDelivers` | src/query.rs:44-58 | as long as messages end nothing and the callback does not fail, it has been called on every message that carries something, in order |
| `Reply.RunEndsOn` | src/query.rs:44-72 | what any one message does to a run: Done, an error, the callback's error, a message that announces no more, the awaited number, or going on, the last four after the callback |
| `Reply.ListingCollects` | src/query.rs:139-170 | a listing in any datagrams returns what the callback collects over all its objects |
| `Reply.LastReceive` | src/query.rs:26-31 | after any datagrams of whole messages, a failed receive is an error and an empty one ends the run without |
| `Reply.ScanEndsIff` | src/query.rs:44-72 | without callback, the scan succeeds if and only if everything up to some message that is Done or reaches the awaited number is free of errors, and goes on if and only if all is free of errors and none is such a message |
| `Reply.SuccessIff` | src/query.rs:16-88 | for any datagrams of whole messages, without callback: the run returns success if and only if everything up to some final message is free of errors, or the reply stops, free of errors, before a final message |
| `Reply.AckParses` | src/parser.rs:60-71 | an acknowledgement is parsed to the absolute value of its error |
| `Reply.InOrderAcks` | src/query.rs:44-72 | in-order acknowledgements end the run on the last awaited one, with the first error or with success, and not earlier |
| `Reply.BatchAcknowledged` | src/batch.rs:103-119 | a batch of n objects of which the first ones are acknowledged in order, in any datagrams, returns the first error or success |
| `Reply.SuccessWithoutLastAck` | src/query.rs:29-31 | among error-free in-order replies, all of which succeed, the last object is acknowledged if and only if the reply is complete |
| `Prefix.MaskIsPrefix` | src/rule_methods.rs:92-107 | two addresses agree under a prefix mask if and only if their top bits are the same number |
| `Prefix.XorTwice` | src/expr/bitwise.rs:32-33 | applying the same bits twice undoes the operation |
| `Packets.RunAppend` | examples/add-rules.rs:93-108 | expressions appended are evaluated exactly on the packets that get there, with the registers left to them |
| `Packets.ComparisonsMean` | src/expr/cmp.rs:14-29 | the six comparisons by the first byte in which the keys differ |
| `Packets.CountersPass` | src/expr/counter.rs:9-21 | a counter anywhere in a rule changes no outcome |
| `Packets.LoadAndCompare` | examples/add-rules.rs:93-104 | a load and a comparison of no more than was loaded depends on the packet alone |
| `Packets.LoadMaskCompare` | src/expr/bitwise.rs:32-46 | the same with a mask in between |
| `Matchers.PortFilters` | src/rule_methods.rs:27-46 | the port program lets through exactly the packets of the protocol with that port |
| `Matchers.AddressFilters` | src/rule_methods.rs:48-77 | the address program lets through exactly the packets of the family with that address |
| `Matchers.NetworkFilters` | src/rule_methods.rs:79-109 | the network program lets through exactly the packets of the family whose address has the network's top bits, for every prefix length |
| `Matchers.NameIsExact` | src/rule_methods.rs:180-191 | comparing the name with its NUL against the padded device name is equality of names, never of prefixes |
| `Matchers.EstablishedFilters` | src/rule_methods.rs:162-171 | lets through exactly the packets whose conntrack state has the ESTABLISHED bit |
| `Matchers.SynFilters` | src/rule_methods.rs:305-316 | lets through exactly the packets with the SYN bit in byte 13 of the transport header |
| `Matchers.MatcherMeans` | src/rule_methods.rs:26-227 | every matcher, every packet, any register contents: the compiled expressions let the packet through if the matcher holds of it and do not match otherwise |
| `Matchers.CompositionIsConjunction` | src/rule_methods.rs:26-227 | any sequence of matchers is the conjunction of them |
| `Matchers.OrderDoesNotMatter` | src/rule_methods.rs:26-227 | in any order |
| `Matchers.StatementIsFinal` | examples/add-rules.rs:138-147 | a verdict, translation or masquerade after matchers takes effect on exactly their packets, and nothing appended behind it changes that |
| `Matchers.DnatTranslates` | src/rule_methods.rs:246-261 | after any matchers the NAT expression reads the given port and, if and only if the address is IPv4, the given address |
| `Matchers.OwnFamilyTranslates` | src/expr/nat.rs:21-37 | announced with its own family, an address of either family would be read whole |
| `Matchers.SportAsksForDestination` | src/rule_methods.rs:142-148 | a source port matcher is the destination port matcher; for every packet, it does what the source port demands if and only if the packet is of another protocol or its ports agree, short packets included |
| `Matchers.SportMissesItsPacket` | src/rule_methods.rs:142-144 | a packet with the source port asked for that is stopped, and one with another that is let through |
| `Matchers.SynIgnoresProtocol` | src/rule_methods.rs:304-316 | the SYN matcher does not depend on the protocol; it means a TCP packet with SYN if and only if the packet is TCP or has no bit in that place |
| `Matchers.SynMatchesUdp` | src/rule_methods.rs:305-316 | a UDP packet it lets through |
| `RuleBuilder.Rule.AddExpr` | src/rule.rs:57-66 | appends one expression, creating the list on first use |
| `RuleBuilder.Rule.MatchPort` | src/rule_methods.rs:27-46 | appends the protocol check and the port check |
| `RuleBuilder.Rule.Sport` | src/rule_methods.rs:142-148 | appends the expressions of the source port matcher, which are those of `Dport` |
| `RuleBuilder.Rule.Protocol` | src/rule_methods.rs:150-160 | appends the protocol check; `Icmp`, `Icmpv6` and `Igmp` do so with their own numbers |
| `RuleBuilder.Rule.Ip6in4` | src/rule_methods.rs:132-140 | appends the family check and the check of the IPv4 protocol field |
| `RuleBuilder.Rule.MatchIp` | src/rule_methods.rs:48-77 | appends the expressions of the address matcher, for both families; `Saddr` and `Daddr` choose the side |
| `RuleBuilder.Rule.MatchNetwork` | src/rule_methods.rs:79-109 | appends the expressions of the network matcher and never refuses; `Snetwork` and `Dnetwork` choose the side |
| `RuleBuilder.Rule.Established` | src/rule_methods.rs:162-171 | appends the expressions of that matcher and never refuses |
| `RuleBuilder.Rule.Iface` | src/rule_methods.rs:180-211 | refuses names of IFNAMSIZ bytes or more and adds nothing, else appends the expressions of that matcher; `Oface` likewise |
| `RuleBuilder.Rule.Syn` | src/rule_methods.rs:305-316 | appends the expressions of that matcher and never refuses |
| `RuleBuilder.Rule.Accept` | src/rule_methods.rs:229-237 | appends the verdict; on a rule of matchers, every packet gets it if all matchers hold and does not match otherwise, from any registers; `Drop` likewise |
| `RuleBuilder.Rule.Masquerade` | src/rule_methods.rs:240-243 | appends the masquerade expression; on a rule of matchers it takes effect on exactly their packets |
| `RuleBuilder.Rule.DnatTo` | src/rule_methods.rs:246-261 | appends the loads of address and port and the NAT expression; on a rule of matchers exactly their packets are translated, with those operands |
| `RuleBuilder.Rule.BuiltRuleFilters` | src/rule_methods.rs:26-227 | after any matcher calls, the rule lets through exactly the packets all of them ask for |
| `RuleBuilder.Rule.BuiltRuleComesBack` | src/rule.rs:18-71 | after any matcher calls and no statement, the rule is read back if and only if it has an expression or a chain name that is not empty, and then as it was |
| `RuleBuilder.Rule.ConcludedRuleComesBack` | src/rule.rs:18-71 | after any matcher calls and a statement, the rule as an object asks the kernel for a rule that treats every packet as the calls ask; it is read back if and only if the statement is not masquerading, and then asks for the same |
| `BuiltRules.WireSurvives` | src/expr/mod.rs:79-89 | every expression the builder emits, masquerade excepted, is read back as written |
| `BuiltRules.ToWireInjective` | src/expr/mod.rs:79-89 | different expressions have different attribute values |
| `BuiltRules.CarriesOnce` | src/rule.rs:57-71 | the attributes of a rule determine its expressions |
| `BuiltRules.EmittedRuleComesBack` | src/rule.rs:42-71 | a rule of emitted expressions that fits its attribute comes back from its message |
| `BuiltRules.BareRuleComesBack` | src/rule.rs:42-55 | a rule without expressions is read back if and only if its chain name is not empty |
| `BuiltRules.MasqueradeRuleIsLost` | src/rule_methods.rs:240-243 | the attributes of a rule with a masquerade expression anywhere are written and never read back |
| `BuiltRules.MasqueradeObjectIsLost` | src/rule_methods.rs:240-243 | nor is such a rule read back from its message |
| `OnWire.ExpressionOnWire` | src/expr/mod.rs:79-103 | every expression the builder pushes, written and read by the kernel's names, attribute numbers and codes, is that expression |
| `OnWire.ProgramOnWire` | src/parser_impls.rs:161-183 | so is every list of them |
| `OnWire.RuleOnWire` | src/nlmsg.rs:132-151 | the message of a rule asks the kernel for exactly its family, table, chain and expressions |
| `OnWire.BuiltRuleComesBack` | src/rule_methods.rs:26-261 | any matchers and a statement: the message asks the kernel for a rule that treats every packet as they mean; it is read back if and only if the statement is not masquerading, and then it is the rule written and asks for the same |

## Left out

- Sockets, `sysconf`, interface lookup and logging: foreign calls; receives and the maximal message size are parameters, and `send`'s own loop is not modelled.
- Macro argument parsing, optional fields detected from kernel headers, getters and setters: build-time plumbing; optional attributes are taken as supported.
- The lifetime cheat in `Batch` and pointer casts: headers are fixed byte layouts.
- `get_list_of_objects` and `list_objects_with_data`: they reuse the header writer, the payload writer and the reply loop, all modelled, and would add only easy members.
- `SetBuilder`, `Lookup::new`, `Log::new`, `PayloadType` and the inverse tables of header fields: easy members; the attribute layouts they fill are modelled.
- `iface_id`, `oface_id`, `set_mss` and `clamp_mss_to_pmtu`: they depend on kernel conventions the repository does not state.
- `Rule::new` on a chain without a name or a table, which is an error: rules are built from their parts.
- Verdicts other than Accept and Drop in the evaluator: the builder emits only those two.
- Packet counters and rewriting in the evaluator: counters pass, NAT and masquerade end the evaluation with their operands.
- Encoder.ListStridesAgree: only for elements that are structures, the only kind the library puts into lists; `ListsAgreeIff` says exactly when it holds for others.
- Batches.NfNetlinkWriter.AddDataZeroed: asks that the 32-bit length does not overflow, which would panic.
- Messages.ObjectRoundTripsIff: objects whose message would not fit a 32-bit length are outside, for the same reason.
- Rejected.HollowExpressionSinksRule: asks that the rule's attributes fit their 16-bit lengths; beyond that, `RoundTripsIff` still says the rule is not read back as written.
- ReadBack.ReadBackIs: asks for lengths within 16 bits and names that select the data; otherwise `RoundTripsIff` says that the value does not come back, not what does.
- Rewriting.RewritesIff: the condition is on the value that was read, not on the bytes it was read from.
- Reply.SuccessIff: without a callback, as batches use the loop; with one, `ChunkingIndependence` relates the loop to the scan.
