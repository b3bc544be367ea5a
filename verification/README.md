# Verified model of the PBC runtime and the Hadoop RPC client

PBC is a small Protocol Buffers runtime in C: it loads message types from descriptor files at
run time, writes and reads messages by field name (`wmessage`, `rmessage`), packs and unpacks C
structs (`pattern`), and decodes with callbacks (`decode`). Around it stands a Hadoop RPC client
that frames requests and receives responses over a socket. This project models that code in
Dafny and proves what its parts promise each other.

## How the model is built

The wire format has one definition: `Context.Record` and `Context.Tokens` read records from a byte
sequence, `Context.Rec.Bytes` and `Context.Serialise` print them. The imperative code (encoders,
tokeniser, writers, readers, tables, arenas) is modelled as methods and classes that change
buffers, slots, links and cursors in place, and each is proved against a function on values. The
theorems are then about those functions, and the last method of each chain calls the modelled entry
points one after the other: `Messages.WriteAndRead`, `PatternRoundTrip.PackAndUnpack`,
`Decode.DecodeBoth`, `Register.Registry.RegisterSet`, `Rpc.Proxy.CallAll`.

What these functions give is stated a second time without them, with the literal constants and for
any input: the wire format in `WireFormat` and `Groups`, tables in `TableRuns`, writer calls in
`Built`, the reader in `Gathered`, the callback decoder in `Called`, patterns in `PatternBytes` and
`UnpackRecords`, descriptor files in `Described`, responses in `Rpc.RecvExactly`.

| module | models |
|---|---|
| Words, Wrappers | machine words, bit operations, patched memory, options |
| Varint, Groups | `varint.c` |
| Context, WireFormat, Records | `context.c`: the tokeniser, and the wire format byte by byte |
| Chains, Index, SpMap, TableRuns, IdMaps, Duplicates | `map.c`: chained tables, the enum tables of `proto.c`, and tables with a name entered more than once |
| Proto | `proto.h`: message types, and the encoding of a tree of values |
| WTree, WMessage, Messages, Built | `wmessage.c`: messages under construction |
| Packed, RMessage, Gathered, RoundTrip | the packed unpacker of `pattern.c`, `rmessage.c`, and reading back what was written |
| Pattern, PatternPack, PatternBytes, PatternUnpack, UnpackRecords, PatternRoundTrip | `pattern.c` |
| Decode, Called | `decode.c`, what it passes to the callback, and its agreement with the reader |
| Schema, Described, Register, Compatible | `register.c`, `proto.c`, `bootstrap.c`: loading descriptor files |
| PbcArray, Alloc, StringPool | `array.c`, `alloc.c`, `stringpool.c` |
| NetUtils, Rpc | `net_utils.c`, `hadoop_rpc_utils.c` |

## Where the code falls short of its intent

The model keeps the code as it is; each of these is stated with the exact condition under which
the intended property holds.

- `varint.c:69` shifts in a 32-bit `int`: decoding is exact if and only if `Varint.Exact` holds (`Varint.SeenExact`). Words are modelled with shift counts taken modulo 32 and sign extension to 64 bits, as on x86.
- `varint.c:109` takes the upper word of a zigzag 32-bit value from the encoded word (`Varint.DeZigZag32Inverse`, `Packed.WireKeeps`, `Varint.DeZigZag32Counterexample`).
- `pattern.c:320` asks for a delimited record for a zigzag 64-bit field, which the packer writes as a varint (`PatternRoundTrip.UnpackOfPack`, `PatternRoundTrip.ZigZag64Refused`).
- `pattern.c:123` stores one byte of a 16-bit variable; `pattern.c:741` leaves out a zero of the other sign; `pattern.c:762` takes a string for the default although it asks for its terminator (`PatternRoundTrip.RestoredExactly`, `PatternRoundTrip.UpperByteLost`, `PatternRoundTrip.SignLost`, `PatternRoundTrip.TerminatorLost`).
- `pattern.c:638` takes the prefix length off twice (`PatternPack.Pack`, `PatternPack.ExactFitRefused`).
- `rmessage.c:173` names the first elements of a packed enum array instead of the last (`Decode.PackedAgrees`, `Decode.SecondPayload`).
- `decode.c:27` compares the whole tag with the wire types, so a record of an unknown field is refused unless its id is 0 (`Decode.UnknownExactly`, `Decode.UnknownRefused`, `Decode.RunExactly`).
- `context.c:66` adds the length of a length prefix and the length it declares in 32 bits: a record is sound if and only if the sum does not wrap (`Context.RecordSound`, `Context.ScanSound`, `Context.WrapAccepted`). A wrapping length is also the one case in which the uninitialised bytes of the scratch array can decide (`Context.LengthTest`, `Context.ScratchDecides`).
- `bootstrap.c:176` jumps on a negative result of `_pbcM_si_query`, which is 0 or 1 (`map.c:86-103`): an enum default that names no value keeps the lower word of a pointer as its id. A default is a value of its enum if and only if its text is empty or names one, or that word happens to be an id (`Schema.DefaultExactly`, `Schema.Env.DefaultsExactly`, `Schema.UnknownDefault`).
- `net_utils.c:149-161` reports a varint of six to ten bytes as an error and an endless one as a success: the result is 0 if and only if the varint has at most five bytes (`NetUtils.RawExactly`, `NetUtils.SixBytesRefused`, `NetUtils.EndlessAccepted`). No length the client writes is longer (`NetUtils.RawOfBytes`).
- The comment on response headers lets a null string have length -1. `read_exception` succeeds if and only if neither length is negative, and otherwise stops in the middle of the response (`Rpc.Proxy.ReadException`, `Rpc.StringExactly`, `Rpc.NullStringFails`), so the run theorem asks for two strings.
- `_pbcM_sp_insert` does not look for the key: of the values of a singular field that occurs more than once a lookup finds the first if and only if that got its home slot, and otherwise the last (`Duplicates.DupMap.Query`, `Duplicates.FirstOrLast`).

## Model

| member | source | states |
|---|---|---|
| `Varint.Encode32` | ext/pbc/src/varint.c:7-32 | the unrolled encoder writes the minimal base-128 form, at most 5 bytes, and nothing else |
| `Varint.Encode` | ext/pbc/src/varint.c:34-48 | the looping encoder writes the same form for 64 bits, at most 10 bytes, and nothing else |
| `Varint.BytesDenote` | ext/pbc/src/varint.c:7-48 | the form is well formed, denotes its number and has no redundant last group |
| `Varint.BytesUnique` | ext/pbc/src/varint.c:7-48 | it is the only such form: any well-formed form of a number is at least as long, and equal to it exactly without a zero last group |
| `Varint.Decode` | ext/pbc/src/varint.c:50-80 | the decoder, with its 32-bit int shifts, reads what the pure reading of the bytes says |
| `Varint.ReadPrefix` | ext/pbc/src/varint.c:50-80 | a read depends on the bytes it consumes only |
| `Varint.ReadEncoded` | ext/pbc/src/varint.c:34-80 | decoding an encoded number, whatever follows, consumes exactly its encoding |
| `Varint.SeenExact` | ext/pbc/src/varint.c:66-77 | the decoded value is the encoded one if and only if it is below 2^59, or at least 31*2^59 with bit 31 set: all the values the shifts leave alone |
| `Varint.SeenCounterexample` | ext/pbc/src/varint.c:69-71 | 2^59 itself comes back as a negative number |
| `Groups.ReadNumber` | ext/pbc/src/varint.c:50-80 | any varint of at most eight bytes, minimal or not and whatever follows it, is read as the number it denotes |
| `Groups.ReadNine` | ext/pbc/src/varint.c:66-77 | of nine bytes the ninth counts with its four lower bits, the highest of them as a sign |
| `Groups.ReadTen` | ext/pbc/src/varint.c:66-77 | of ten bytes the tenth is put on bits 31 to 37 of the value |
| `Groups.ReadEndless` | ext/pbc/src/varint.c:66-80 | ten bytes that all continue are read as zero, and fewer are no varint |
| `Varint.PutZigZag32` | ext/pbc/src/varint.c:82-87 | the zigzag code of an int is written as its minimal varint |
| `Varint.PutZigZag64` | ext/pbc/src/varint.c:89-94 | the zigzag code of a 64-bit int is written as its minimal varint |
| `Varint.ZigZag64Magnitude` | ext/pbc/src/varint.c:89-94 | n >= 0 gets the code 2n, n < 0 the code -2n - 1 |
| `Varint.DeZigZag64Inverse` | ext/pbc/src/varint.c:89-102 | dezigzag undoes zigzag on every 64-bit pattern |
| `Varint.DeZigZag32Inverse` | ext/pbc/src/varint.c:82-110 | the low word always comes back; the high word is the sign exactly for 0 <= n < 2^30 and n < -2^30 |
| `Varint.DeZigZag32Counterexample` | ext/pbc/src/varint.c:104-110 | 2^30 comes back with the upper word of a negative number |
| `Varint.ZigZag64Through` | ext/pbc/src/varint.c:34-102 | zigzag, encoding, decoding and dezigzag give a value back if and only if its code survives the decoder |
| `Context.ReadTail` | ext/pbc/src/context.c:16-38 | reading through the ten-byte scratch copy gives what reading the buffer gives, whatever its uninitialised bytes hold |
| `Context.SamePrefix` | ext/pbc/src/context.c:19-27 | a padded copy reads the same, unless the varint ends beyond the buffer |
| `Context.WiretypeDecode` | ext/pbc/src/context.c:13-83 | one record: the tag, its wire type and the payload, with the end of a delimited payload summed in 32 bits, or an error |
| `Context.RecordSound` | ext/pbc/src/context.c:55-70 | an accepted record has a slice inside it and moves to the next record if and only if prefix length plus declared length is below 2^32; otherwise its slice ends before it starts |
| `Context.WrapAccepted` | ext/pbc/src/context.c:66 | six bytes that declare 0xFFFFFFFF are accepted as a record of five with a slice from 6 to 5 |
| `Context.LengthTest` | ext/pbc/src/context.c:57-67 | a length that ends inside the buffer is treated alike whatever the scratch array holds; any other is refused, unless the scratch array completes a length that wraps |
| `Context.ScratchDecides` | ext/pbc/src/context.c:57-67 | five bytes behind which the uninitialised scratch byte decides whether the record is accepted |
| `Context.Ctx.Open` | ext/pbc/src/context.c:215-268 | inline array, first heap block and regrown blocks together hold exactly the records of the buffer; on an error the result is minus the records read |
| `Context.Ctx.OpenHeap` | ext/pbc/src/context.c:238-268 | the heap tier continues the inline tier, regrows by 64 cells and copies the inline cells back |
| `Context.ScanSound` | ext/pbc/src/context.c:13-83 | on any bytes the records lie end to end, take at least two bytes each, and are sound if and only if their lengths do not wrap; only the last can wrap, and then the scan fails; on success the records are sound and cover the buffer |
| `Context.ScanStops` | ext/pbc/src/context.c:215-268 | a scan that fails stops with a record whose lengths wrap, or where no record begins |
| `Context.SliceSound` | ext/pbc/src/context.c:215-268 | in a scan that succeeds every slice lies in the buffer |
| `Context.TokensOfRecords` | ext/pbc/src/context.c:215-268 | scanning the serialisation of any list of records gives exactly that list |
| `Context.AtomShows` | ext/pbc/src/context.c:215-268 | each cell shows its record: tag, number, or the very bytes of its payload |
| `WireFormat.RecordExactly` | ext/pbc/src/context.c:11-83 | every sequence of bytes is read as a record, or refused, as the wire format says, by the literal wire types |
| `WireFormat.NumberRecord` | ext/pbc/src/wmessage.c:148-222 | a number is written as the tag 8 * id + wire type and its body, type by type |
| `WireFormat.TextRecord` | ext/pbc/src/wmessage.c:283-290 | a text is written as the tag 8 * id + 2, its length and its bytes |
| `WireFormat.ChildRecord` | ext/pbc/src/wmessage.c:470-476 | so is a sub-message |
| `WireFormat.ZigZag32Is` | ext/pbc/src/varint.c:82-87 | the zigzag code of 0, -1, 1, -2 is 0, 1, 2, 3 |
| `WireFormat.UnZigZag32Is` | ext/pbc/src/varint.c:104-110 | what undoing a 32-bit zigzag code gives, word by word |
| `WireFormat.FixedExactly` | ext/pbc/src/pattern.c:142-195 | a packed payload of fixed width is all of its numbers, least significant byte first, or an error if its size does not fit |
| `WireFormat.VarintsExactly` | ext/pbc/src/pattern.c:196-278 | a packed payload of varints is its varints one behind the other, or those before one that does not end |
| `WireFormat.SliceExactly` | ext/pbc/src/rmessage.c:164-165 | which bytes a record gives to the unpacker |
| `Chains.WalkAcyclic` | ext/pbc/src/map.c:275-302 | following the links of a chained table never meets a slot twice |
| `Chains.SpliceKeeps` | ext/pbc/src/map.c:291-300 | splicing a free slot in behind a taken one keeps every chain finite, loses no slot and reaches the new one |
| `Chains.FreeSlot` | ext/pbc/src/map.c:60-62 | a table that is not full has a free slot |
| `Index.PutLinked` | ext/pbc/src/map.c:275-361 | spliced in behind any slot on the walk from its home slot, the new key and every old one stay on the walk from their home slots, and the count of taken slots grows by one |
| `Index.FromHome` | ext/pbc/src/map.c:376-394 | every key in the table is met by the walk from its home slot |
| `SpMap.CalcHash` | ext/pbc/src/map.c:32-42 | the loop computes the hash of the whole name |
| `TableRuns.HashExactly` | ext/pbc/src/map.c:32-42 | the hash begins with the length and mixes in every (length / 32 + 1)-th character from the last on |
| `TableRuns.HashOfA` | ext/pbc/src/map.c:32-42 | the hash of a is 128 |
| `SpMap.SpMap.constructor` | ext/pbc/src/map.c:247-261 | an empty table with a power of two of zeroed slots |
| `SpMap.SpMap.Probe` | ext/pbc/src/map.c:285-288 | linear probing from behind the home slot ends at the first slot that is free |
| `SpMap.SpMap.Find` | ext/pbc/src/map.c:334-342 | the walk ends at the slot of the key, or, if there is none, at the last slot of the chain |
| `SpMap.SpMap.PlaceBehind` | ext/pbc/src/map.c:343-357 | a free slot spliced in behind a taken one on the walk adds exactly the new binding |
| `SpMap.SpMap.InsertHash` | ext/pbc/src/map.c:274-301 | a new key is added to the finite map the table stands for, at its home slot or behind it; a full table is rehashed first |
| `SpMap.SpMap.Rehash` | ext/pbc/src/map.c:303-319 | runs on a full table only, doubles it, and changes no binding |
| `SpMap.SpMap.Insert` | ext/pbc/src/map.c:364-368 | the map gains exactly the new binding and the size grows by one |
| `SpMap.SpMap.Query` | ext/pbc/src/map.c:376-394 | the answer is that of the finite map |
| `SpMap.SpMap.QueryInsert` | ext/pbc/src/map.c:321-374 | an old key keeps the map as it is; a new key is bound to the null pointer, in a slot at the end of its chain; the table doubles exactly if it was full |
| `SpMap.SpMap.Store` | ext/pbc/src/map.c:370-374 | writing through the pointer handed out rebinds that key and no other |
| `SpMap.SpMap.RunOps` | ext/pbc/src/map.c:274-394 | any run of insertions of new keys, query-insertions with a store, and queries answers as the same run on a finite map |
| `TableRuns.BoundExactly` | ext/pbc/src/map.c:274-394 | after any run a key is bound to what was stored last under it |
| `TableRuns.AnswersExactly` | ext/pbc/src/map.c:321-394 | a query answers with what was stored last, or nothing |
| `SpMap.SpMap.ForeachUd` | ext/pbc/src/map.c:407-416 | the callback sees the non-null pointers in slot order |
| `SpMap.SpMap.Next` | ext/pbc/src/map.c:418-474 | each step continues the slot-order listing behind the key it is given |
| `SpMap.SpMap.Iterate` | ext/pbc/src/map.c:418-474 | from no key on, iteration visits every key bound to a non-null pointer exactly once, agrees with ForeachUd, and stops |
| `SpMap.LiveComplete` | ext/pbc/src/map.c:407-474 | the slot-order listing has every live binding once |
| `SpMap.LiveSorted` | ext/pbc/src/map.c:407-474 | it follows the slots |
| `TableRuns.SlotExactly` | ext/pbc/src/map.c:280-290 | an entry gets its home slot if that is free, and otherwise the first free slot behind it |
| `Duplicates.DupMap.Insert` | ext/pbc/src/map.c:274-301 | an entry is made whether the name is there or not, and the table goes on answering as the log of its entries says |
| `Duplicates.DupMap.QueryInsert` | ext/pbc/src/map.c:321-374 | among such entries, one entry per name |
| `Duplicates.DupMap.Query` | ext/pbc/src/map.c:376-394 | of several entries of a name the first is found if its home slot was free when it was made, and otherwise the last |
| `Duplicates.FillAndFind` | ext/pbc/src/rmessage.c:258-305 | the same for any sequence of entries in a table made large enough for it, as the reader fills it; the slots taken follow from the names alone |
| `Duplicates.FirstOrLast` | ext/pbc/src/map.c:280-300 | two values under one name: the first is found, or the second if another name took the home slot before |
| `IdMaps.CursorStops` | ext/pbc/src/map.c:120-124 | the cursor that only moves forward always finds a free slot before the table is full |
| `IdMaps.IpNewHash` | ext/pbc/src/map.c:105-134 | the hash form stands for the table of ids and has no empty slot |
| `IdMaps.IpNew` | ext/pbc/src/map.c:136-163 | dense or hashed, the result stands for the table of ids; it is hashed exactly if an id is negative or above twice the size |
| `IdMaps.IpMap.Query` | ext/pbc/src/map.c:210-231 | both forms answer every int, negative ones included, as the finite map does |
| `IdMaps.Inject` | ext/pbc/src/map.c:175-195 | listing a map back gives a table of exactly its bindings |
| `IdMaps.IpCombine` | ext/pbc/src/map.c:197-208 | the combination of two id-disjoint maps is their union, in all form combinations |
| `IdMaps.SiMap.constructor` | ext/pbc/src/map.c:44-78 | the exactly full name table stands for the list of names |
| `IdMaps.SiMap.Query` | ext/pbc/src/map.c:86-103 | it answers as the finite map does and rejects every other name |
| `IdMaps.Enum.constructor` | ext/pbc/src/proto.c:76-90 | the two tables of an enum are inverse to each other and its default is the first value |
| `IdMaps.Enum.NameThere` | ext/pbc/src/proto.c:76-90 | name to id and back gives the name; any other name is rejected |
| `IdMaps.TablesInverse` | ext/pbc/src/proto.c:76-90 | name->id->name and id->name->id for every list of distinct ids and names |
| `Proto.TagRoundTrip` | ext/pbc/src/rmessage.c:269 | the tag keeps the wire type, and the signed shift gives the field id back if and only if it lies in [-2^28, 2^28) |
| `Proto.ChildShorter` | ext/pbc/src/wmessage.c:463-477 | the bytes of a sub-message are fewer than those of its parent, so reading terminates |
| `Packed.UnpackPacked` | ext/pbc/src/pattern.c:139-280 | the unpacker appends the values of a payload, all of them or those before the fault, and counts them |
| `Packed.UnpackSlice` | ext/pbc/src/rmessage.c:164-165 | a record that is not delimited has its number read as a slice; a size that is not positive reads nothing |
| `Packed.CountIsPushed` | ext/pbc/src/pattern.c:139-280 | a successful count is the number of values pushed |
| `Packed.WireKeeps` | ext/pbc/src/pattern.c:290-324 | for each type, exactly the numbers that come back from the wire unchanged |
| `WMessage.WMessage.Expand` | ext/pbc/src/wmessage.c:61-76 | doubling until there is room keeps the bytes written so far |
| `WMessage.WMessage.Integer` | ext/pbc/src/wmessage.c:132-190 | one record of an integer field appended, an unknown field refused, a field of another type, reals included, left alone |
| `WMessage.WMessage.Real` | ext/pbc/src/wmessage.c:192-222 | one record of a double or float field appended, an unknown field refused, a field of another type left alone |
| `WMessage.WMessage.String` | ext/pbc/src/wmessage.c:226-296 | text by length or terminator, or an enum value by name, appended as one record; -1 exactly for an unknown field or name |
| `WMessage.WMessage.Message` | ext/pbc/src/wmessage.c:298-311 | a new empty sub-message joins the tree, and nothing else changes |
| `WMessage.WMessage.Buffer` | ext/pbc/src/wmessage.c:456-482 | the bytes are the encoding of the whole tree of messages, though every buffer may have moved while growing |
| `WMessage.WMessage.AppendSub` | ext/pbc/src/wmessage.c:463-477 | a finished sub-message is appended behind its tag and length |
| `WTree.Disjoint` | ext/pbc/src/wmessage.c:298-311 | the subtrees of two sub-messages share no message, so finishing one does not touch the other |
| `WTree.TreeSame` | ext/pbc/src/wmessage.c:456-482 | the tree of a message depends on the messages below it only |
| `Messages.StepKeeps` | ext/pbc/src/wmessage.c:132-311 | every writer call, on any message of the tree in any order, keeps the tree well formed |
| `Messages.Write` | ext/pbc/src/wmessage.c:45-482 | creating a message, any legal sequence of calls, and the final buffer: the encoding of the values given |
| `Built.StepExactly` | ext/pbc/src/wmessage.c:132-311 | each call changes its message only: the values it gives, per kind of call and type of field, come behind those there, or a new message joins as the last one |
| `Built.RunExactly` | ext/pbc/src/wmessage.c:132-311 | over any run every message holds exactly the values given to it, in order, and its sub-messages in the order they were made |
| `Built.TreeExactly` | ext/pbc/src/wmessage.c:456-482 | the tree of a message is its values and then the trees of its sub-messages |
| `Messages.WriteAndRead` | ext/pbc/src/wmessage.c:45-482 | writing with any legal sequence of calls and reading the bytes gives per field, at every depth, the values written, in order |
| `Messages.IntegersBuilt` | ext/pbc/src/wmessage.c:132-190 | a message made of integer calls is the list of its calls |
| `RMessage.ReadValue` | ext/pbc/src/rmessage.c:84-243 | one record as a value, recursing into strictly shorter sub-messages |
| `RMessage.PushPacked` | ext/pbc/src/rmessage.c:162-180 | a packed payload appended to the array, with the names of an enum put on its first elements, whatever the wire type of its record |
| `RMessage.AddAtom` | ext/pbc/src/rmessage.c:268-305 | one round of the loop adds to the index what the record means |
| `RMessage.New` | ext/pbc/src/rmessage.c:245-328 | the reader builds what the buffer means as a message of the type, or nothing if the tokeniser rejects it |
| `Gathered.OwnRecords` | ext/pbc/src/rmessage.c:268-305 | what is stored under the name of a field is what its own records give, whatever records of other fields, known or not, stand between them |
| `Gathered.NamesOfFields` | ext/pbc/src/rmessage.c:268-305 | nothing is stored under any other name |
| `Gathered.OneRecord` | ext/pbc/src/rmessage.c:42-243 | the value one record adds, type by type |
| `Gathered.PackedRecord` | ext/pbc/src/rmessage.c:162-180 | the values one packed record adds, element by element |
| `Gathered.ReadAny` | ext/pbc/src/rmessage.c:245-328 | the reader on any buffer: nothing if the scan fails, and otherwise for each field the values of its records in order |
| `Gathered.IntegerExactly` | ext/pbc/src/rmessage.c:370-397 | the integer accessor: the lower word or the id, or the default |
| `RoundTrip.ReadEncoded` | ext/pbc/src/rmessage.c:245-308 | reading the encoding of any tree of values gives the tree back |
| `RoundTrip.GroupedIs` | ext/pbc/src/rmessage.c:268-305 | under a field name are exactly the values of the entries of that name, in order; a name without entries is absent |
| `RoundTrip.Faithful` | ext/pbc/src/rmessage.c:84-160 | a number reads as written if and only if its type keeps it on the wire; an enum value as its id and name |
| `RoundTrip.TextFaithful` | ext/pbc/src/rmessage.c:42-80 | text reads as written, with a terminator behind it |
| `Decode.CallArray` | ext/pbc/src/decode.c:129-299 | one call per element of the payload; a malformed payload is reported after the elements before the fault; the arguments are stated by ArrayExactly of Called |
| `Decode.PbcDecode` | ext/pbc/src/decode.c:301-348 | the calls made for all records in order, and the result: their number, or the position of the first one refused |
| `Decode.UnknownExactly` | ext/pbc/src/decode.c:24-52 | a record of an unknown field is accepted if and only if its field id is 0 |
| `Decode.UnknownRefused` | ext/pbc/src/decode.c:27 | one well-formed record of an unknown field 1 is refused without a call |
| `Decode.RunExactly` | ext/pbc/src/decode.c:321-347 | the decoder succeeds if and only if every record is of a known field and suits it, or of field id 0 |
| `Called.RecordExactly` | ext/pbc/src/decode.c:24-127 | the calls of one accepted record, argument by argument: kind, repetition, type name, id, key and value, type by type, and those of an unknown record of id 0 |
| `Called.ArrayExactly` | ext/pbc/src/decode.c:129-299 | the calls of a packed payload, argument by argument |
| `Called.RunExactly` | ext/pbc/src/decode.c:321-347 | the calls of a run are those of its records in order, up to the first record that is not accepted |
| `Called.DecodeAny` | ext/pbc/src/decode.c:301-348 | the decoder on any buffer |
| `Decode.PackedAgrees` | ext/pbc/src/decode.c:129-299 | a packed payload gives both decoders the same values, if and only if it is not a further non-empty payload of an enum field |
| `Decode.SecondPayload` | ext/pbc/src/rmessage.c:162-180 | a second payload of one enum value stays a number without its name |
| `Decode.RecordsAgree` | ext/pbc/src/decode.c:321-344 | when the callback decoder accepts the records, its values for a field are those the message reader stores under the name |
| `Decode.DecodeBoth` | ext/pbc/src/decode.c:301-348 | both entry points on one buffer: the calls grouped by field equal the stored values, 32-bit types by their lower word |
| `PatternPack.Slice.PackWiretype` | ext/pbc/src/pattern.c:362-377 | a varint written through a scratch copy or in place, if and only if it fits |
| `PatternPack.Slice.PackNumber` | ext/pbc/src/pattern.c:444-528 | one number of any type written if and only if it fits |
| `PatternPack.PackPackedVarint` | ext/pbc/src/pattern.c:648-684 | the guessed and back-patched prefix: on success exactly the canonical bytes, failing if and only if they do not fit, the slice then unmoved; nothing outside it is written |
| `PatternPack.FixPrefix` | ext/pbc/src/pattern.c:665-683 | overwriting the prefix, or moving the payload right, yields the canonical form |
| `PatternPack.PackPackedFixed` | ext/pbc/src/pattern.c:630-646 | on success exactly the canonical bytes; the prefix length is required twice |
| `PatternPack.ExactFitRefused` | ext/pbc/src/pattern.c:638-639 | a last packed field of fixed width that ends where the slice does is refused |
| `PatternPack.PackField` | ext/pbc/src/pattern.c:530-612 | tag and number, or tag, length and bytes, if and only if they fit |
| `PatternPack.PackRepeated` | ext/pbc/src/pattern.c:614-628 | one record per element |
| `PatternPack.PackPacked` | ext/pbc/src/pattern.c:686-731 | no bytes for an empty array, otherwise one record |
| `PatternPack.Pack` | ext/pbc/src/pattern.c:771-803 | the records of all fields that are not left out as defaults, the bytes left over and the length used; success if and only if each field in turn finds its room |
| `PatternPack.RoomIs` | ext/pbc/src/pattern.c:771-803 | the room asked for is the bytes written, and at most five more when a packed field has fixed width |
| `PatternBytes.LeftOutExactly` | ext/pbc/src/pattern.c:733-799 | an optional variable has no record if and only if it equals its default, stated per C type; an empty array has none; otherwise one record, or one per element |
| `PatternBytes.ValueRecord` | ext/pbc/src/pattern.c:444-612 | the bytes of one value: tag and number, or tag, length and text |
| `PatternBytes.PackedRecord` | ext/pbc/src/pattern.c:686-731 | the bytes of a packed field |
| `PatternBytes.PayloadWritten` | ext/pbc/src/pattern.c:648-684 | its payload is the numbers one behind the other |
| `PatternBytes.NeedExactly` | ext/pbc/src/pattern.c:630-646 | the room asked for is the bytes, and for packed fields of fixed width the length of the prefix once more |
| `PatternBytes.RoomExactly` | ext/pbc/src/pattern.c:771-803 | a struct finds room if and only if every field does, behind the bytes of those before it |
| `PatternUnpack.Search` | ext/pbc/src/pattern.c:71-89 | the binary search finds the field with the id, or that there is none |
| `PatternUnpack.SetDefault` | ext/pbc/src/pattern.c:47-59 | the default of a variable, an array opened empty |
| `PatternUnpack.UnpackInto` | ext/pbc/src/pattern.c:282-349 | one record stored in its variable; what it stores is stated by VarUnpacks and FieldUnpacks of PatternRoundTrip |
| `PatternUnpack.Unpack` | ext/pbc/src/pattern.c:805-862 | all records in order, then defaults for the fields not seen; the position of the first record refused otherwise |
| `UnpackRecords.RecordExactly` | ext/pbc/src/pattern.c:282-349 | which records suit a field, and what one leaves in its variable, per type and C type |
| `UnpackRecords.UnpackExactly` | ext/pbc/src/pattern.c:826-852 | for any records unpacking succeeds if and only if each record of a listed field suits it; the last one counts for a single variable, all of them in order for an array |
| `UnpackRecords.OthersSkipped` | ext/pbc/src/pattern.c:826-830 | records of fields the pattern does not list change neither the outcome nor a variable |
| `UnpackRecords.FailedAt` | ext/pbc/src/pattern.c:841-851 | the position reported is that of the first record that does not suit its field |
| `UnpackRecords.DefaultIs` | ext/pbc/src/pattern.c:17-59 | the default of a variable, per C type |
| `UnpackRecords.UnpackAny` | ext/pbc/src/pattern.c:805-862 | the decoder on any bytes: the result and every variable |
| `PatternRoundTrip.PayloadUnpacks` | ext/pbc/src/pattern.c:139-280 | a packed payload unpacks to its numbers |
| `PatternRoundTrip.VarUnpacks` | ext/pbc/src/pattern.c:282-334 | the record of a value gives the value back through the wire; a zigzag 64-bit number is refused, since its record is not delimited |
| `PatternRoundTrip.FieldUnpacks` | ext/pbc/src/pattern.c:826-852 | all records of one field bring its variable back |
| `PatternRoundTrip.UnpackOfPack` | ext/pbc/src/pattern.c:805-862 | unpacking a packed struct succeeds if and only if no zigzag 64-bit number was sent outside a packed field, and then every variable comes back |
| `PatternRoundTrip.ZigZag64Refused` | ext/pbc/src/pattern.c:319-320 | an optional zigzag 64-bit field set to 1 is refused |
| `PatternRoundTrip.PackAndUnpack` | ext/pbc/src/pattern.c:771-862 | the same for the two entry points called one after the other, whatever the output held |
| `PatternRoundTrip.RestoredExactly` | ext/pbc/src/pattern.c:107-130 | what comes back is what was packed if and only if: a default left out is not a zero of the other sign nor a string of another length than the default, a 64-bit number survives the wire, a 16-bit variable held the upper byte already |
| `PatternRoundTrip.UpperByteLost` | ext/pbc/src/pattern.c:122-124 | a 16-bit variable of 0x0100 comes back as 0 where 0 was |
| `PatternRoundTrip.SignLost` | ext/pbc/src/pattern.c:740-741 | a negative zero comes back as the positive default |
| `PatternRoundTrip.TerminatorLost` | ext/pbc/src/pattern.c:756-764 | a default string asked for with its terminator comes back without it |
| `PatternRoundTrip.DefaultPacks` | ext/pbc/src/pattern.c:47-59 | what the decoder leaves in the variable of a field that was not sent can be packed again |
| `PatternRoundTrip.AbsentMessage` | ext/pbc/src/register.c:54-60 | a sub-message field has a null pointer as its default, and is allowed in a pattern |
| `Schema.AppliedHas` | ext/pbc/src/proto.c:92-113 | loading a file adds exactly its fields and loses none |
| `Schema.MessageV.Reindexed` | ext/pbc/src/proto.c:134-163 | the id index rebuilt from the name index, in whatever order that is walked, is in step with it |
| `Schema.Env.PushEnum` | ext/pbc/src/proto.c:76-90 | a new enum enters, an old one stays |
| `Schema.Env.PushMessage` | ext/pbc/src/proto.c:92-113 | the field enters its message, created if need be, and waits in the queue if it names a type |
| `Schema.Env.InitMessage` | ext/pbc/src/proto.c:134-163 | the message is in step again, created if need be |
| `Schema.Env.RegisterExtensions` | ext/pbc/src/register.c:141-171 | extensions of several messages in any order leave every message in step |
| `Schema.Env.RegisterMessage` | ext/pbc/src/register.c:173-213 | fields, extensions, enums and nested messages enter under their dotted names, all in step |
| `Schema.Env.SetFieldOne` | ext/pbc/src/bootstrap.c:166-188 | the reference points to the message or enum named, or is a null pointer if there is no such message; an enum default becomes the value its text names, the first value if there is no text, and otherwise the id left in the shared union |
| `Schema.DefaultExactly` | ext/pbc/src/bootstrap.c:173-184 | a resolved default is a value of the enum if and only if its text is empty or names a value, or the address of the text happens to be an id of the enum |
| `Schema.UnknownDefault` | ext/pbc/src/bootstrap.c:175-177 | an enum and a default text after which the default is no value of the enum |
| `Schema.Env.DefaultsExactly` | ext/pbc/src/bootstrap.c:166-200 | the same for every enum field of an environment all of whose files are loaded |
| `Schema.Env.RegisterFields` | ext/pbc/src/bootstrap.c:190-200 | after the queue is worked off every field has its reference, null exactly where the message is not there, and every enum default is what its text and enum determine |
| `Schema.Env.Register` | ext/pbc/src/register.c:215-242 | a file leaves everything in step and resolved, forward and nested references included; only fields whose message is not there when all of it has entered get a null pointer, and none does if every type is there |
| `Described.FieldsExactly` | ext/pbc/src/register.c:173-242 | after loading there are the fields from before and those the file gives, under dotted names, and no others |
| `Described.MessagesExactly` | ext/pbc/src/register.c:173-242 | the same for messages |
| `Described.EnumsExactly` | ext/pbc/src/register.c:31-48 | the same for enums, each with its two tables and its default |
| `Described.TopDefined` | ext/pbc/src/register.c:13-29 | message m of package p is defined as p.m |
| `Described.NestedDefined` | ext/pbc/src/register.c:207-212 | a message nested in k is defined as k.m, at every depth |
| `Described.FieldStands` | ext/pbc/src/register.c:180-192 | each field of a defined message stands under its key and name with its id, type, label and type name |
| `Described.ExtensionStands` | ext/pbc/src/register.c:141-171 | an extension stands in the message it names, under its scope and name |
| `Described.EnumStands` | ext/pbc/src/register.c:31-48 | an enum stands under its scope and name |
| `Described.RegisterFile` | ext/pbc/src/register.c:215-242 | after registration a field whose type is written as a dot and the key of a message or enum points to it |
| `Schema.Env.DanglingIs` | ext/pbc/src/bootstrap.c:169-170 | the null references are known, and a message that is not there always leaves one |
| `Schema.Env.ViewClosed` | ext/pbc/src/register.c:215-242 | without null references what registration keeps is what writers, readers and decoders ask of a schema |
| `Register.Registry.CheckFileName` | ext/pbc/src/register.c:248-267 | there already, ready, or waiting for a dependency |
| `Register.Registry.Pass` | ext/pbc/src/register.c:270-295 | a pass that registers nothing leaves the set closed; any other leaves strictly fewer files waiting |
| `Register.Registry.RegisterSet` | ext/pbc/src/register.c:298-335 | for any files, success if and only if every listed name lies in the least set that holds the registered names and every file whose dependencies it holds; that set is registered even on failure, dependencies first; if each file could be loaded the tables hold what they describe, and if every type was at hand the schema is closed |
| `Register.LogExactly` | ext/pbc/src/register.c:248-295 | a possible order read position by position: each file entered is listed and new, and each of its dependencies was there from the start or was entered before it |
| `Register.LogIsLeast` | ext/pbc/src/register.c:320-331 | whatever the passes reach lies in every closed set that holds the base |
| `Register.ReachedIsLeast` | ext/pbc/src/register.c:320-331 | so the set reached is the least one |
| `Compatible.WellformedConsistent` | ext/pbc/src/register.c:298-335 | files with distinct names whose fields do not clash and whose types come from themselves or their dependencies load in any order the passes choose, with every type at hand |
| `PbcArray.XorTrick` | ext/pbc/src/array.c:59 | (n+1) xor n exceeds n if and only if n+1 is a power of two |
| `PbcArray.PowersApart` | ext/pbc/src/array.c:59-67 | there is no power of two between one and its double |
| `PbcArray.PbcArray.Push` | ext/pbc/src/array.c:41-71 | the contents gain the element, every write is in bounds, and past the inline cells the capacity is the least power of two above the count |
| `PbcArray.PbcArray.PushAll` | ext/pbc/src/array.c:41-78 | any run of pushes holds exactly the values pushed |
| `Alloc.PageSize` | ext/pbc/src/alloc.c:37-41 | the page size is the least power of two that suffices, at least 1024 |
| `Alloc.Heap.Allocate` | ext/pbc/src/alloc.c:64-84 | every block is aligned, at least as large as asked, inside its page and apart from all others, oversized pages included |
| `Alloc.AllocateAll` | ext/pbc/src/alloc.c:64-84 | the same over any run of requests |
| `StringPool.Pool.Build` | ext/pbc/src/stringpool.c:32-60 | strings handed out never change and share no byte, although the head page changes places with a new one; the chain releases exactly the memory in use |
| `StringPool.ChainGrows` | ext/pbc/src/stringpool.c:41-59 | each way the chain grows keeps the memory owned and the memory used the same |
| `NetUtils.SwapOrder` | src/net_utils.c:8-17 | a swapped int goes out most significant byte first, and swapping what comes in restores it |
| `NetUtils.Socket.ReadAll` | src/net_utils.c:42-72 | the next bytes of the stream, however it is cut into pieces; -1 if a read fails, and then fewer bytes are gone |
| `NetUtils.Socket.WriteAll` | src/net_utils.c:74-103 | all bytes sent, however many each write takes; -1 if a write fails, and then a proper part was sent |
| `NetUtils.WriteRawVarint32` | src/net_utils.c:25-40 | a non-negative int is written as its minimal varint, the form the encoder of varint.c writes |
| `NetUtils.ReadRawVarint32` | src/net_utils.c:105-166 | result, bytes read and value, its two results behind the fifth byte included |
| `NetUtils.RawExactly` | src/net_utils.c:105-166 | a varint of at most ten bytes is read to its end, whatever follows; the result is 0 if and only if it has at most five; the value is the number as an int |
| `NetUtils.SixBytesRefused` | src/net_utils.c:149-159 | six bytes that denote zero are refused |
| `NetUtils.EndlessAccepted` | src/net_utils.c:149-161 | ten bytes that all continue are a success without a value |
| `NetUtils.RawOfBytes` | src/net_utils.c:25-166 | reading undoes writing on every non-negative int |
| `Rpc.GenerateRequestHeader` | src/hadoop_rpc_utils.c:223-244 | the header is the encoding of the call: kind, operation and call id |
| `Rpc.HeaderRead` | src/hadoop_rpc_utils.c:223-244 | a server that reads the header finds the call id |
| `Rpc.HeaderBytes` | src/hadoop_rpc_utils.c:223-244 | the header byte by byte |
| `Rpc.WriteRequest` | src/hadoop_rpc_utils.c:150-202 | the bytes sent are one frame; -1 if a write fails, and then a proper part of it |
| `Rpc.FrameParses` | src/hadoop_rpc_utils.c:143-149 | the length field counts the bytes behind it, and a frame is taken apart uniquely into header and request |
| `Rpc.FrameBytes` | src/hadoop_rpc_utils.c:150-202 | a frame byte by byte |
| `Rpc.Proxy.SendRequest` | src/hadoop_rpc_utils.c:382-409 | a frame with the current call id, which then grows by one; the id stays if a write fails |
| `Rpc.Proxy.RecvResponse` | src/hadoop_rpc_utils.c:296-379 | header, call id and status checked, a payload read; the stream stands behind what was read; of a field the header repeats a lookup may find the first or the last value; every case is the one RecvExactly states |
| `Rpc.RecvExactly` | src/hadoop_rpc_utils.c:302-379 | a payload, an error or a fatal status only for a header that reads with the id of the call that waits; any other header gives OtherError, with the stream right behind it; the status table |
| `Rpc.Proxy.ReadException` | src/hadoop_rpc_utils.c:412-460 | two counted strings, or -1 when a read fails; where none fails 0 if and only if the first byte of both lengths is below 0x80, that is, neither is negative |
| `Rpc.StringExactly` | src/hadoop_rpc_utils.c:417-432 | a string is read if and only if the upper bit of its length is clear |
| `Rpc.NullStringFails` | src/hadoop_rpc_utils.c:417-432 | a length of -1 is a failure |
| `Rpc.WireReceived` | src/hadoop_rpc_utils.c:296-379 | an answer, whatever follows it, is received as what it says, whichever of repeated values is found |
| `Rpc.ResponseRead` | src/hadoop_rpc_utils.c:322-338 | a response header encoded in the message format says the id and status written to it |
| `Rpc.Proxy.Call` | src/hadoop_rpc_utils.c:296-409 | one call gets its own answer and leaves the stream at the next |
| `Rpc.Proxy.CallAll` | src/hadoop_rpc_utils.c:296-478 | over any run of calls answered in order every answer reaches its call, payloads and exceptions come back exactly, and the stream ends up behind the last one |

## Left out

- Packed fields of `wmessage.c` (`_pack_packed_64`, `_pack_packed_32`, `_pack_packed_varint`): the fixed 32-bit path steps by eight bytes and the varint path does not move the write position when the prefix grows; packed fields are proved for the pattern encoder.
- `_open_packed_varint` and `_pbcC_open_packed` of `context.c`, which nothing uses.
- Context.Ctx.Open: behind a record whose length wraps the pointer lies outside the buffer; what is read there is not part of the input, and the scan stops as at a malformed record.
- Context.ScanSound: a scan fails behind a wrapping record by that rule, where the source would read on outside the buffer.
- Context.SliceSound: likewise, a scan that succeeds there is not considered.
- Context.WiretypeDecode: a length prefix that ends only in the scratch array is refused, where the source accepts it if the bytes there complete a length that wraps (`Context.LengthTest`).
- WMessage.WMessage.Integer: for fields that are not packed.
- WMessage.WMessage.Real: for fields that are not packed; the conversion of a double to a float is the caller's.
- WMessage.WMessage.String: for fields that are not packed.
- Packed.UnpackPacked: reads through a bounded copy of the buffer, where the last varint of a payload of fewer than ten bytes is read from the buffer itself, past its end if need be; the outcome is the same.
- Packed.UnpackSlice: a record that is not delimited may point outside the buffer; what is read there is not part of the input, and the record counts as malformed.
- RMessage.PushPacked: a packed record outside the buffer, as there; likewise in the callback and the pattern decoder.
- PatternUnpack.UnpackInto: a packed record outside the buffer, as there.
- RMessage.AddAtom: a singular field that occurs again keeps all its values in order; Duplicates proves which of them the name table finds, and `Rpc.Proxy.RecvResponse` allows both.
- RMessage.New: likewise.
- RMessage.Read: a repeated sub-message is stored as a message, not as its two pointers; values are not shared with the input buffer.
- Floating-point meaning: doubles are their 64 bits, floats their 32 bits, and a float field lives in a float; `==` on them is modelled on the bits. Conversion between the two widths and `strtod` are not modelled.
- PatternUnpack.Unpack: after a failure the arrays of the struct are unspecified, since the source closes them.
- `pbc_pattern_new`: format strings, offsets and `qsort`; a pattern is a list of fields sorted by distinct ids, with the combinations `_check_ctype` allows. Pattern fields of the group type.
- PatternPack.PackPackedVarint: fewer than 2^27 elements, so that its ints do not overflow.
- SpMap.SpMap.Insert: for a key that is not in the table, as its callers have it. A name whose hash is 0 may not be looked up while its home slot is empty, since the null key there would be compared.
- Duplicates.DupMap.Insert: in a table that is not full; the reader makes it as large as the number of its records.
- Schema.Env.SetFieldOne: `e.id` shares its storage with the lower half of the pointer to the default text; that half is an arbitrary int.
- Schema.Env.Register: descriptors are decoded values, not read through the message accessors; message and enum tables are finite maps, which SpMap and IdMaps prove; a message reference is the key of its message; field defaults other than those of enums are not modelled. Names and ids must be new and every enum named must be there (`Schema.Loadable`), where the source would enter duplicates or follow a null pointer.
- Schema.Env.PushMessage: for a field name and id the message does not have; the source would enter a second one.
- Register.Registry.RegisterSet: behind a file that is not `Schema.Loadable` the tables are not described, only what is registered; no listed file has the name of one entered with a null pointer (the built-in descriptor), which would be entered twice.
- Decode.PbcDecode: message types without group fields, for which the source asserts; a packed record outside the buffer counts as malformed.
- The built-in descriptor and its patterns (`register_internal`, `descriptor.pbc.h`), `pbc_new`, `pbc_delete` and all freeing of memory, running out of memory, `lasterror`.
- PbcArray.PbcArray.Push: arena and `malloc` growth differ only in where the block comes from; `pbc_array_slice`, which also hands out the cell behind the last element, is not modelled.
- Alloc.Heap.Allocate: blocks are positions, not memory.
- NetUtils.Socket.ReadAll: a read that does not fail yields at least one byte; a stream that has ended fails, where the source would go on reading nothing for ever.
- NetUtils.Socket.WriteAll: a write that does not fail takes at least one byte.
- NetUtils.ReadRawVarint32: on a connection where no read fails; the source does not look at the result of these reads and goes on with an unset byte. Responses are modelled on such a connection, and the 4-byte `read` of the payload length is taken to be complete.
- Rpc.Proxy.RecvResponse: after an endless length varint the source goes on with an unset `slice.len`; the model answers with OtherError.
- `connect_to_server`, `write_connection_header`, `generate_hadoop_request`, `main.c`, `pbc_utils.c`: sockets, names, files and printing.
- Message accessors other than `pbc_rmessage_integer`, which are lookups in the index.
