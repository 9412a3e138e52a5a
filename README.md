# A verified model of the patched MongoDB tree's core

This project models, in Dafny, the parts of a patched MongoDB source tree that do real work on bytes, documents and shared state, and proves what those parts promise:

- **The wire-level latency benchmark** (`buildscripts/benchmarks/stability_benchmark_v7.py`). It covers:
  - the hand-written BSON codec (`BsonCodec`, with round trips in `BsonRoundTrip`, over the byte helpers in `Bytes`);
  - the ObjectId generator;
  - the 16-byte message header;
  - the buffered receive loop;
  - the OP_QUERY, OP_INSERT, OP_UPDATE and OP_DELETE bodies;
  - reply parsing (`WireProtocol`);
  - the latency summary (`LatencyStats`).
- **An abstract BSON element tree and its serializer** (`BsonTree`). The C++ and Java parts below share it.
- **Dotted-path support** (`src/mongo/db/bson/dotted_path_support.cpp`, module `DottedPath`). It covers:
  - the walk along a dotted path;
  - the per-thread field-extraction cache;
  - the fan-out through arrays;
  - template extraction;
  - sort-order comparison.
- **The unified field extractor** (`src/mongo/db/index/unified_field_extractor.h`, module `FieldExtractor`): the slot registry, the one-pass scan and the slot reads.
- **Document integrity checks**:
  - `src/mongo/db/catalog/document_integrity.cpp`, module `DocumentIntegrity`;
  - the Java `VerifiedDocument` and `VerifiedUpdate` (modules `VerifiedDocumentModel` and `VerifiedUpdateModel`).
- **The in-place decimal counter** of `src/mongo/util/itoa.h` (module `DecimalCounterModel`, with its digit text in `DecimalText`).
- **The router's chunk query coalescer**:
  - `src/mongo/s/catalog/config_query_coalescer.cpp`, modules `CatalogCoalescer` and `ChunkVersion`;
  - its two test simulations, `large_scale_coalescer_test.cpp` and `cpu_scaling_test.cpp` (module `CoalescerSimulations`).
- **The config server's coalescer and its server parameters** (`src/mongo/db/s/config/config_query_coalescer.cpp`, modules `ConfigCoalescer` and `CoalescerParameters`).
- **The per-shard-key lock table** (`src/mongo/db/s/shard_key_lock.cpp`, module `ShardKeyLocks`).
- **The `repairIndexEntry` command** (`src/mongo/db/commands/repair_index_entry_cmd.cpp`, module `RepairIndexEntry`).
- **The RocksDB index write path** (`rocks_index_optimization_patch.cpp` and `rocks_index_optimized.h`, modules `RocksIndex` and `RocksBuffers`).

Error codes shared by the server-side modules live in `ErrorCodes`; `Option` and `Result` live in `Wrappers`.

Code that computes values is modelled as functions on datatypes. Objects whose fields the source updates in place are modelled as classes, and loops are modelled as methods with invariants. Each such method is proved against a specification function, and the lemmas state the properties of that function.

Hashes (XXH64 and friends) are passed in as a function parameter `H`. Nothing in the model assumes anything about `H` beyond determinism.

## Model

| member | source | states |
|---|---|---|
| BsonCodec.Size | buildscripts/benchmarks/stability_benchmark_v7.py:96-105 | every value has a positive size, the measure that bounds the recursion into embedded dicts and lists |
| BsonCodec.IndexKey | buildscripts/benchmarks/stability_benchmark_v7.py:102-103 | the key `str(i)` given to the i-th list element holds no NUL byte |
| BsonCodec.ArrayFields | buildscripts/benchmarks/stability_benchmark_v7.py:100-104 | the dict built for a list has one field per list element |
| BsonCodec.Put | buildscripts/benchmarks/stability_benchmark_v7.py:171 | assigning a new key appends the field; assigning an existing key keeps the length and the key order |
| BsonCodec.Frame | buildscripts/benchmarks/stability_benchmark_v7.py:111-112 | a framed document is its elements plus the four length bytes and the trailing NUL |
| BsonCodec.PySlice | buildscripts/benchmarks/stability_benchmark_v7.py:139 | a slice with in-range bounds is the plain subsequence |
| BsonCodec.FindNul | buildscripts/benchmarks/stability_benchmark_v7.py:129 | the result is the first NUL at or after the start; none is found exactly when no NUL follows |
| BsonCodec.DecodeValue | buildscripts/benchmarks/stability_benchmark_v7.py:133-169 | a successful value read never moves the cursor backwards |
| BsonCodec.BsonEncode | buildscripts/benchmarks/stability_benchmark_v7.py:71-112 | `None` encodes as the five-byte empty document; a dict whose ints fit 64 bits and lengths fit 32 bits encodes as its framed elements; any other dict fails with the `struct` packing error |
| BsonCodec.EncodeItem | buildscripts/benchmarks/stability_benchmark_v7.py:79-107 | one loop pass yields the element bytes for the field, or the packing error exactly when the value cannot be packed |
| BsonCodec.ListAsDict | buildscripts/benchmarks/stability_benchmark_v7.py:100-104 | the loop over a list builds exactly the dict keyed "0", "1", ... |
| BsonCodec.BsonDecode | buildscripts/benchmarks/stability_benchmark_v7.py:114-173 | the imperative decoding loop returns exactly the document the recursive decoder defines |
| BsonCodec.ReadValue | buildscripts/benchmarks/stability_benchmark_v7.py:133-169 | each tag's branch in the loop agrees with the value decoder |
| BsonCodec.ArrayFieldsSize | buildscripts/benchmarks/stability_benchmark_v7.py:100-104 | the dict built for a list is exactly as large as the list |
| BsonCodec.EncodeFieldsSnoc | buildscripts/benchmarks/stability_benchmark_v7.py:77-111 | appending a field to the dict appends its element to the encoding |
| BsonRoundTrip.FrameHeader | buildscripts/benchmarks/stability_benchmark_v7.py:111-112 | the leading int32 of an encoded document is its total length and its last byte is NUL |
| BsonRoundTrip.EncodeSmallDict | buildscripts/benchmarks/stability_benchmark_v7.py:84-87 | `{"a": 1}` encodes to the twelve bytes of a one-int32 document |
| BsonRoundTrip.DocumentRoundTrip | buildscripts/benchmarks/stability_benchmark_v7.py:114-173 | an encoded dict anywhere in a buffer decodes to the same dict and the offset just past it |
| BsonRoundTrip.DocumentFromElements | buildscripts/benchmarks/stability_benchmark_v7.py:119-124 | a header holding the length followed by readable elements decodes to those elements and the declared end |
| BsonRoundTrip.DocumentStep | buildscripts/benchmarks/stability_benchmark_v7.py:119-173 | the document decoder returns what its element loop returns, with the end taken from the header |
| BsonRoundTrip.ElementsRoundTrip | buildscripts/benchmarks/stability_benchmark_v7.py:124-171 | the element loop reads back an encoded element list, appended to the fields already read |
| BsonRoundTrip.FirstElement | buildscripts/benchmarks/stability_benchmark_v7.py:124-171 | the first pass of the loop over an encoded element reads back exactly that field |
| BsonRoundTrip.ReadElement | buildscripts/benchmarks/stability_benchmark_v7.py:125-171 | a pass reads the tag, the NUL-terminated key and the payload, then appends the field |
| BsonCodec.ElementsStep | buildscripts/benchmarks/stability_benchmark_v7.py:124-171 | one pass of the decoding loop, unfolded: the field is stored and the loop continues at the new cursor |
| BsonRoundTrip.ElementWindow | buildscripts/benchmarks/stability_benchmark_v7.py:79-107 | an encoded element is its tag, its key, a NUL and its payload, and the key is found by the NUL search |
| BsonRoundTrip.ValueRoundTrip | buildscripts/benchmarks/stability_benchmark_v7.py:133-169 | for every encodable value, the decoder branch for its tag reads back the value and ends just past its payload |
| BsonRoundTrip.ScalarRoundTrip | buildscripts/benchmarks/stability_benchmark_v7.py:151-161 | null, bool, double and ObjectId payloads read back as written |
| BsonRoundTrip.DocValueRoundTrip | buildscripts/benchmarks/stability_benchmark_v7.py:141-142 | an embedded dict reads back through the recursive document decoder |
| BsonRoundTrip.ArrValueRoundTrip | buildscripts/benchmarks/stability_benchmark_v7.py:143-145 | an embedded list reads back as the same list once its index keys are dropped |
| BsonRoundTrip.ContainerStep | buildscripts/benchmarks/stability_benchmark_v7.py:141-145 | the dict branch returns the decoded dict; the list branch returns its values in order |
| BsonRoundTrip.IntRoundTrip | buildscripts/benchmarks/stability_benchmark_v7.py:162-167 | int32 and int64 payloads read back as the same integer |
| BsonRoundTrip.StrRoundTrip | buildscripts/benchmarks/stability_benchmark_v7.py:136-140 | a string payload (length counting the NUL, bytes, NUL) reads back as the same bytes |
| BsonRoundTrip.StrStep | buildscripts/benchmarks/stability_benchmark_v7.py:136-140 | the string branch returns the bytes before the NUL and advances past length plus four |
| BsonRoundTrip.BinaryRoundTrip | buildscripts/benchmarks/stability_benchmark_v7.py:146-150 | a binary payload (length, subtype, bytes) reads back as the same bytes |
| BsonRoundTrip.BinaryStep | buildscripts/benchmarks/stability_benchmark_v7.py:146-150 | the binary branch skips the subtype byte and returns exactly the declared number of bytes |
| BsonRoundTrip.IndexKeyInjective | buildscripts/benchmarks/stability_benchmark_v7.py:102-103 | distinct list positions get distinct keys, so no list element is overwritten |
| BsonRoundTrip.ArrayFieldsDecodable | buildscripts/benchmarks/stability_benchmark_v7.py:100-104 | the dict built for a decodable list is itself decodable |
| BsonRoundTrip.RoundTrip | buildscripts/benchmarks/stability_benchmark_v7.py:71-173 | `bson_decode(bson_encode(d), 0)` returns d and the encoding's length, for every dict whose keys hold no NUL and whose ObjectIds are 12 bytes |
| BsonRoundTrip.UnknownTagRejected | buildscripts/benchmarks/stability_benchmark_v7.py:168-169 | an unsupported tag byte makes the decoder fail with that tag after reading any NUL-free key up to its terminator |
| BsonRoundTrip.ShortInputIsEmpty | buildscripts/benchmarks/stability_benchmark_v7.py:116-117 | fewer than four bytes after the offset decode to the empty dict and the offset unchanged |
| BsonTree.GetField | src/mongo/db/bson/dotted_path_support.cpp:85 | the result is absent exactly when no element has the name, and otherwise is the first element carrying it |
| BsonTree.GetObjectField | src/mongo/db/bson/dotted_path_support.cpp:165 | a non-empty result is the contents of the named element, which is an object or array; a named object or array yields its contents |
| BsonTree.Put | src/driver/java/bson/src/main/org/bson/VerifiedDocument.java:154-156 | an existing key keeps its position and the key order is unchanged; a new key is appended at the end |
| BsonTree.GetAfterPut | src/driver/java/bson/src/main/org/bson/VerifiedDocument.java:154-156 | after a put, looking the key up yields the new value |
| BsonTree.GetOtherAfterPut | src/driver/java/bson/src/main/org/bson/VerifiedDocument.java:154-156 | a put leaves the lookup of every other key unchanged |
| BsonTree.PutKeepsDistinct | src/driver/java/bson/src/main/org/bson/VerifiedDocument.java:154-156 | a put keeps the field names of a document distinct |
| BsonTree.DocBytesLayout | src/driver/java/bson/src/main/org/bson/VerifiedDocument.java:131-136 | a serialized document is a 4-byte length holding its own size, the element bytes, and a NUL terminator |
| BsonTree.ElemsBytesAppend | src/mongo/db/catalog/document_integrity.cpp:37-39 | the bytes of two element lists placed one after the other are the concatenation of their bytes |
| Bytes.LE | buildscripts/benchmarks/stability_benchmark_v7.py:205 | `struct.pack('<…')` of n writes exactly k bytes |
| Bytes.FromLE | buildscripts/benchmarks/stability_benchmark_v7.py:218 | an unsigned little-endian read is below 256 to the number of bytes |
| Bytes.BE | buildscripts/benchmarks/stability_benchmark_v7.py:184-187 | `struct.pack('>I')` and `('>H')` write exactly k bytes |
| Bytes.WrapInt32 | src/mongo/db/s/config/config_query_coalescer.cpp:80-90 | a narrowing cast to int32 yields an int32 congruent to n modulo 2^32, and leaves an int32 unchanged |
| Bytes.WrapUint64 | src/mongo/db/catalog/document_integrity.cpp:73 | a cast to uint64 yields a value in range congruent to n modulo 2^64 |
| Bytes.FromLEOfLE | buildscripts/benchmarks/stability_benchmark_v7.py:205 | writing k little-endian bytes and reading them back gives n modulo 256^k |
| Bytes.FromBEOfBE | buildscripts/benchmarks/stability_benchmark_v7.py:184-187 | writing k big-endian bytes and reading them back gives n modulo 256^k |
| Bytes.UnsignedBERoundTrip | buildscripts/benchmarks/stability_benchmark_v7.py:184-187 | a value that fits k bytes survives the big-endian layout unchanged |
| Bytes.BEIsReversedLE | buildscripts/benchmarks/stability_benchmark_v7.py:184-187 | the big-endian bytes are the little-endian bytes in reverse order |
| Bytes.Int32RoundTrip | buildscripts/benchmarks/stability_benchmark_v7.py:86 | a signed 32-bit value survives `pack('<i')` followed by `unpack('<i')` |
| Bytes.Int64RoundTrip | buildscripts/benchmarks/stability_benchmark_v7.py:88 | a signed 64-bit value survives `pack('<q')` followed by `unpack('<q')` |
| Bytes.Uint32RoundTrip | buildscripts/benchmarks/stability_benchmark_v7.py:184 | a value below 2^32 survives an unsigned 4-byte pack and unpack |
| WireProtocol.HeaderRoundTrip | buildscripts/benchmarks/stability_benchmark_v7.py:203-205 | a header of four int32 fields packs to 16 bytes that unpack to the same four fields |
| WireProtocol.MessageFrameLayout | buildscripts/benchmarks/stability_benchmark_v7.py:207-211 | every frame sent has messageLength = 16 + len(body), responseTo = 0, the given id and opcode, and carries the body |
| WireProtocol.MessageFrameFails | buildscripts/benchmarks/stability_benchmark_v7.py:210 | packing the header fails exactly when the length or the id does not fit an int32 |
| WireProtocol.ReplyRoundTrip | buildscripts/benchmarks/stability_benchmark_v7.py:231-247 | the documents of a well-formed OP_REPLY body come back in order with the flags, cursor id, starting offset and count |
| WireProtocol.ReplyFromParts | buildscripts/benchmarks/stability_benchmark_v7.py:231-247 | parse_op_reply assembles its result from the four preamble fields and the documents decoded after byte 20 |
| WireProtocol.DocsRoundTrip | buildscripts/benchmarks/stability_benchmark_v7.py:236-239 | encoded documents placed back to back decode, in order, to the same documents |
| WireProtocol.DocsHead | buildscripts/benchmarks/stability_benchmark_v7.py:237-239 | the first document decodes in place and the loop continues right after it |
| WireProtocol.DocsFirst | buildscripts/benchmarks/stability_benchmark_v7.py:237-239 | one pass of the reply loop decodes one document and moves the offset to its end |
| WireProtocol.ShortReplyRejected | buildscripts/benchmarks/stability_benchmark_v7.py:233 | a reply body shorter than the 20-byte preamble makes unpack_from fail |
| WireProtocol.Recv | buildscripts/benchmarks/stability_benchmark_v7.py:224 | a recv returns the next bytes of the peer's stream: no more than asked for, no more than delivered, nothing past the end |
| WireProtocol.ReadFromExact | buildscripts/benchmarks/stability_benchmark_v7.py:221-227 | when the receive loop completes it holds exactly the first resp_len - 16 bytes of the stream |
| WireProtocol.ReadBodyExact | buildscripts/benchmarks/stability_benchmark_v7.py:221-227 | whatever the sizes recv delivers, a completed body read is the stream's prefix of the needed length |
| WireProtocol.ReadFromShort | buildscripts/benchmarks/stability_benchmark_v7.py:225-226 | if the peer closes before the body is complete, the loop raises IOError |
| WireProtocol.ReadFromCompletes | buildscripts/benchmarks/stability_benchmark_v7.py:223-227 | when every recv delivers at least one byte, enough recvs complete the read |
| WireProtocol.ShortHeaderRejected | buildscripts/benchmarks/stability_benchmark_v7.py:214-216 | a header read shorter than 16 bytes raises IOError |
| WireProtocol.ReceiveBody | buildscripts/benchmarks/stability_benchmark_v7.py:221-227 | the imperative receive loop returns what the body-reading function defines |
| WireProtocol.ReceiveReply | buildscripts/benchmarks/stability_benchmark_v7.py:213-229 | the receive half of send_message returns what the receive function defines: the reply opcode and body, or IOError |
| WireProtocol.ParseOpReply | buildscripts/benchmarks/stability_benchmark_v7.py:231-247 | the imperative parse loop returns what the reply parser defines |
| WireProtocol.Client.constructor | buildscripts/benchmarks/stability_benchmark_v7.py:60 | a new client has sent nothing and its request counter is 0 |
| WireProtocol.Client.NextRequestId | buildscripts/benchmarks/stability_benchmark_v7.py:62-65 | get_request_id returns the previous id plus one and sends nothing |
| WireProtocol.Client.SendFrame | buildscripts/benchmarks/stability_benchmark_v7.py:207-211 | a fresh id is spent; a packable frame is appended to what was sent, otherwise nothing is sent and the packing error is returned |
| WireProtocol.Client.SendMessage | buildscripts/benchmarks/stability_benchmark_v7.py:207-229 | one frame is sent with a fresh id, then the reply is read back |
| WireProtocol.Client.SendOpQuery | buildscripts/benchmarks/stability_benchmark_v7.py:249-263 | nothing is sent when the body cannot be packed; otherwise the OP_QUERY frame is sent and a non-OP_REPLY answer is an error |
| WireProtocol.Client.SendOpInsert | buildscripts/benchmarks/stability_benchmark_v7.py:265-278 | the documents' encodings are concatenated in order into one OP_INSERT frame; no reply is read |
| WireProtocol.Client.SendOpUpdate | buildscripts/benchmarks/stability_benchmark_v7.py:280-290 | one OP_UPDATE frame with zero, name, flags, selector and update is sent; no reply is read |
| WireProtocol.Client.SendOpDelete | buildscripts/benchmarks/stability_benchmark_v7.py:292-301 | one OP_DELETE frame with zero, name, flags and selector is sent; no reply is read |
| WireProtocol.EncodeDocuments | buildscripts/benchmarks/stability_benchmark_v7.py:269-271 | the insert loop yields the concatenated encodings when every document packs, and the packing error otherwise |
| WireProtocol.LogAppend | buildscripts/benchmarks/stability_benchmark_v7.py:207-211 | sending a well-framed frame with the id just taken keeps the sent log consistent |
| WireProtocol.FreshIdsAreConsecutive | buildscripts/benchmarks/stability_benchmark_v7.py:62-65 | from a fresh client the k-th frame sent carries request id k + 1 |
| WireProtocol.QueryBodyLayout | buildscripts/benchmarks/stability_benchmark_v7.py:251-255 | the OP_QUERY body reads back as flags, collection name, skip, limit, then the query document |
| WireProtocol.QueryDocumentAt | buildscripts/benchmarks/stability_benchmark_v7.py:255 | the query document decodes right after the three int32s and the name, whatever follows it |
| WireProtocol.InsertBodyLayout | buildscripts/benchmarks/stability_benchmark_v7.py:267-273 | the OP_INSERT body reads back as flags, name, then every document in order |
| WireProtocol.UpdateBodyLayout | buildscripts/benchmarks/stability_benchmark_v7.py:282-286 | the OP_UPDATE body reads back as zero, name, flags, selector, update |
| WireProtocol.DeleteBodyLayout | buildscripts/benchmarks/stability_benchmark_v7.py:294-297 | the OP_DELETE body reads back as zero, name, flags and a selector that ends the body |
| WireProtocol.EmptyProjectionOmitted | buildscripts/benchmarks/stability_benchmark_v7.py:253 | an empty or absent projection adds no bytes: the body ends with the query document |
| WireProtocol.ObjectIdLayout | buildscripts/benchmarks/stability_benchmark_v7.py:184-187 | a generated id decomposes back into its timestamp, machine bytes, process id and counter |
| WireProtocol.ObjectIdGenerator.constructor | buildscripts/benchmarks/stability_benchmark_v7.py:177-179 | the class counter, machine bytes and pid start at the given random values |
| WireProtocol.ObjectIdGenerator.Generate | buildscripts/benchmarks/stability_benchmark_v7.py:181-187 | the counter is bumped modulo 2^24 and the 12 bytes are the big-endian timestamp, machine, pid and counter |
| WireProtocol.CounterWraps | buildscripts/benchmarks/stability_benchmark_v7.py:185-186 | after 0xFFFFFF the next id ends in three zero bytes |
| LatencyStats.InsertPermutes | buildscripts/benchmarks/stability_benchmark_v7.py:625 | inserting adds exactly the new element to the multiset of samples |
| LatencyStats.InsertSorted | buildscripts/benchmarks/stability_benchmark_v7.py:625 | inserting into a sorted list keeps it sorted |
| LatencyStats.SortCorrect | buildscripts/benchmarks/stability_benchmark_v7.py:625 | sorted(times) is an ordered permutation of times |
| LatencyStats.TrimNonEmpty | buildscripts/benchmarks/stability_benchmark_v7.py:629-636 | trimming never empties a non-empty list, so the fall-back at line 635 is never taken |
| LatencyStats.PercentileInRange | buildscripts/benchmarks/stability_benchmark_v7.py:640-641 | int(len * p) is a valid index for p below 1 |
| LatencyStats.SeqMinIsLeast | buildscripts/benchmarks/stability_benchmark_v7.py:642 | min is a member no larger than any other, and the head of a sorted list |
| LatencyStats.SeqMaxIsGreatest | buildscripts/benchmarks/stability_benchmark_v7.py:643 | max is a member no smaller than any other, and the last element of a sorted list |
| LatencyStats.EmptyHasNoStats | buildscripts/benchmarks/stability_benchmark_v7.py:621-622 | an empty sample list has no statistics |
| LatencyStats.SummaryOfSorted | buildscripts/benchmarks/stability_benchmark_v7.py:626-654 | the count is passed through, the trimmed list drops n/20 samples at each end, and min, max, p95 and p99 are read off the trimmed list at the stated indices |
| LatencyStats.StatsOfTrimmed | buildscripts/benchmarks/stability_benchmark_v7.py:619-655 | a non-empty list has statistics, computed from its sorted permutation, counting every sample |
| LatencyStats.CalcStats | buildscripts/benchmarks/stability_benchmark_v7.py:619-655 | calc_stats; EmptyHasNoStats, StatsOfTrimmed, SummaryOfSorted and ReportedValuesAreSamples state that there are no statistics exactly for no samples and that every reported value is a sample read off the sorted, trimmed list |
| LatencyStats.TrimDropsExtremes | buildscripts/benchmarks/stability_benchmark_v7.py:629-631 | trimming drops exactly the k smallest and the k largest samples, each no larger (no smaller) than every kept one |
| LatencyStats.ReportedValuesAreSamples | buildscripts/benchmarks/stability_benchmark_v7.py:640-643 | every reported value is one of the samples, and min <= p95 <= p99 <= max |
| LatencyStats.TrimmedMembers | buildscripts/benchmarks/stability_benchmark_v7.py:629-636 | the trimmed list is sorted and holds only samples |
| LatencyStats.ReportedFromTrimmed | buildscripts/benchmarks/stability_benchmark_v7.py:640-643 | values read off a sorted list of samples are samples, in order |
| WireProtocol.PreambleFields | buildscripts/benchmarks/stability_benchmark_v7.py:255 | the flags, skip and limit int32s around the collection name read back in place, followed by the rest of the body |
| WireProtocol.UpdateBytesLayout | buildscripts/benchmarks/stability_benchmark_v7.py:273 | zero, name and flags followed by documents placed back to back read back as those fields and those documents (see also line 286) |
| WireProtocol.SelectorAt | buildscripts/benchmarks/stability_benchmark_v7.py:297 | the delete selector decodes right after the two int32s and the name |
| ChunkVersion.ToLongSplit | src/mongo/s/catalog/config_query_coalescer.h:67-69 | the high word of toLong is the major version and the low word the minor |
| ChunkVersion.ToLong | src/mongo/s/catalog/config_query_coalescer.h:67-69 | toLong; ToLongSplit, ToLongInjective and ToLongOrder state that it packs major over minor, is injective and preserves their order |
| ChunkVersion.ToLongInjective | src/mongo/s/catalog/config_query_coalescer.h:67-69 | two versions pack to the same 64 bits exactly when major and minor agree; the epoch is ignored |
| ChunkVersion.ToLongOrder | src/mongo/s/catalog/config_query_coalescer.h:67-69 | packing preserves the lexicographic order on (major, minor), in both directions |
| ChunkVersion.LessWithinEpoch | src/mongo/s/catalog/config_query_coalescer.h:46-55 | within one epoch, operator< is lexicographic on (major, minor), equivalently the order of the packed values |
| ChunkVersion.LessAcrossEpochs | src/mongo/s/catalog/config_query_coalescer.h:46-50 | across epochs each version is older than the other, so neither is >= the other |
| ChunkVersion.AtLeastMeaning | src/mongo/s/catalog/config_query_coalescer.h:57-59 | >= holds exactly when the epochs agree and (major, minor) is not lexicographically smaller |
| ChunkVersion.SameIsEquality | src/mongo/s/catalog/config_query_coalescer.h:61-65 | operator== is equality of all three components |
| ChunkVersion.AtLeastPreorder | src/mongo/s/catalog/config_query_coalescer.h:57-59 | >= is reflexive and transitive, and total within one epoch |
| ChunkVersion.BsonRoundTrip | src/mongo/s/catalog/config_query_coalescer.cpp:24-49 | fromBSON(toBSON(v)) gives back major, minor and epoch |
| ChunkVersion.FromBsonDefaults | src/mongo/s/catalog/config_query_coalescer.cpp:24-37 | a missing or non-Timestamp field reads as 0|0, a missing or non-OID epoch as the default epoch, and a Timestamp field as its seconds and increment |
| CatalogCoalescer.Kept | src/mongo/s/catalog/config_query_coalescer.cpp:384-399 | the chunks kept never outnumber the input |
| CatalogCoalescer.KeptStep | src/mongo/s/catalog/config_query_coalescer.cpp:391-396 | one more input chunk is appended to the output exactly when its version is >= the requested one |
| CatalogCoalescer.FilterResults | src/mongo/s/catalog/config_query_coalescer.cpp:384-399 | the imperative filtering loop returns exactly the kept chunks, in input order |
| CatalogCoalescer.KeptAppend | src/mongo/s/catalog/config_query_coalescer.cpp:391-396 | filtering distributes over concatenation, so input order is kept |
| CatalogCoalescer.KeptMembers | src/mongo/s/catalog/config_query_coalescer.cpp:391-396 | a chunk is in the output exactly when it is in the input and its version is >= the requested one |
| CatalogCoalescer.KeptSameEpoch | src/mongo/s/catalog/config_query_coalescer.cpp:392-394 | a waiter never receives a chunk of another epoch or of a lower (major, minor) |
| CatalogCoalescer.CoalescedFilterExact | src/mongo/s/catalog/config_query_coalescer.cpp:384-399 | filtering a result fetched from a lower version gives what fetching from the waiter's own version would give |
| CatalogCoalescer.AdaptiveWindowMonotone | src/mongo/s/catalog/config_query_coalescer.cpp:401-422 | with ordered bounds, the window stays within [minWindow, maxWindow] and never shrinks as the load grows; without adaptation it is the fixed coalescing window |
| CatalogCoalescer.DefaultWindows | src/mongo/s/catalog/config_query_coalescer.h:123-130 | under the default configuration the window is 2, 5, 10 or 20 ms: 2 exactly below 10 waiters and 20 exactly from 100 waiters on |
| CatalogCoalescer.AdaptiveWindow | src/mongo/s/catalog/config_query_coalescer.cpp:401-421 | getAdaptiveWindow; AdaptiveWindowMonotone and DefaultWindows state that it stays within its bounds, never shrinks as the load grows, and takes 2, 5, 10 or 20 ms by default |
| CatalogCoalescer.GapZero | src/mongo/s/catalog/config_query_coalescer.cpp:204-207 | the version gap is symmetric and is zero exactly for equal (major, minor) |
| CatalogCoalescer.VersionGap | src/mongo/s/catalog/config_query_coalescer.cpp:204-207 | the distance between packed versions; GapZero, GapSameMajor, GapAcrossMajors and GapAdjacentMajors state its meaning in (major, minor) |
| CatalogCoalescer.GapSameMajor | src/mongo/s/catalog/config_query_coalescer.cpp:204-207 | within one major version the gap is the distance between the minors |
| CatalogCoalescer.GapAcrossMajors | src/mongo/s/catalog/config_query_coalescer.cpp:204-209 | a request of a higher major version exceeds the gap limit unless the lower minor is within the limit of the top of its 32-bit range |
| CatalogCoalescer.GapAdjacentMajors | src/mongo/s/catalog/config_query_coalescer.cpp:204-207 | 1|4294967295 and 2|0 are only 1 apart once packed |
| CatalogCoalescer.DecideOrder | src/mongo/s/catalog/config_query_coalescer.cpp:185-231 | a full group sends every request to run on its own whatever its version, overflow being checked first; a request joins exactly when the group has room and the gap is within bounds |
| CatalogCoalescer.JoinWithinCap | src/mongo/s/catalog/config_query_coalescer.cpp:225-231 | joining keeps the group within its waiter cap, and the new minVersion is either the request or the old minimum |
| CatalogCoalescer.JoinKeepsCover | src/mongo/s/catalog/config_query_coalescer.cpp:225-231 | a request of the group's epoch keeps every waiter at or above the group's minVersion |
| CatalogCoalescer.JoinAcrossEpochs | src/mongo/s/catalog/config_query_coalescer.cpp:204-228 | a request of another epoch still joins, because the gap ignores epochs, and after it an earlier waiter is no longer covered by minVersion |
| CatalogCoalescer.CoalescedAnswerExact | src/mongo/s/catalog/config_query_coalescer.cpp:307-311 | when the executor returns the chunks from the requested version on, every covered waiter receives exactly what its own query would have returned |
| CatalogCoalescer.WakeLosesChunks | src/mongo/s/catalog/config_query_coalescer.cpp:144-178 | the wake-up as written answers a successful query with an empty list, losing every fetched chunk, while an error reaches every waiter either way |
| CatalogCoalescer.WakeReturn | src/mongo/s/catalog/config_query_coalescer.cpp:144-178 | what a woken waiter returns: the error, its filtered share of the shared result when it found one, else its empty vector; WakeLosesChunks and CoalescedAnswerExact state both outcomes |
| CatalogCoalescer.AnswerAsWritten | src/mongo/s/catalog/config_query_coalescer.cpp:339-371 | the wake-up as written, with the group already erased; WakeLosesChunks and SingleRequestAsWritten state that a successful query reaches no waiter |
| CatalogCoalescer.SingleRequestAsWritten | src/mongo/s/catalog/config_query_coalescer_test.cpp:89-92 | with ten stored chunks from version 0|0 and one request from 0|0, the intended answer holds all ten chunks and the answer as written is empty |
| CatalogCoalescer.Distribute | src/mongo/s/catalog/config_query_coalescer.cpp:350-368 | every waiter, in order, gets the query's error or its own filtered share of the result |
| CatalogCoalescer.Enqueued | src/mongo/s/catalog/config_query_coalescer.cpp:118-125 | one more waiting request raises the waiting count by one and keeps the peak at or above it |
| CatalogCoalescer.NewGroupKeepsTable | src/mongo/s/catalog/config_query_coalescer.cpp:107-125 | starting a group for a new namespace keeps the accounting invariant: waiters counted, one group per namespace |
| CatalogCoalescer.IndependentKeepsTable | src/mongo/s/catalog/config_query_coalescer.cpp:185-223 | a request that runs its own query leaves the group table alone and keeps the accounting invariant |
| CatalogCoalescer.JoinKeepsTable | src/mongo/s/catalog/config_query_coalescer.cpp:225-241 | a request that joins a group with room keeps the accounting invariant |
| CatalogCoalescer.IdleAccounting | src/mongo/s/catalog/config_query_coalescer.cpp:161-165 | with no group left, every request was either a query or coalesced, and nobody waits |
| CatalogCoalescer.Coalescer.constructor | src/mongo/s/catalog/config_query_coalescer.cpp:71-73 | a new coalescer has no groups, zero statistics, no executor and is not shut down |
| CatalogCoalescer.Coalescer.SetQueryExecutor | src/mongo/s/catalog/config_query_coalescer.cpp:78-81 | the executor is installed and nothing else changes |
| CatalogCoalescer.Coalescer.Arrive | src/mongo/s/catalog/config_query_coalescer.cpp:83-241 | after shutdown the request is refused and nothing is counted; otherwise it is counted and either starts the namespace's group, runs on its own (overflow first, then version gap, each with its counter and a query), or joins and lowers minVersion |
| CatalogCoalescer.Coalescer.Complete | src/mongo/s/catalog/config_query_coalescer.cpp:294-382 | one query from the group's minVersion, every waiter answered in order, the group retired, the woken waiters no longer counted as waiting and the leader's query counted |
| CatalogCoalescer.Coalescer.Shutdown | src/mongo/s/catalog/config_query_coalescer.cpp:434-449 | every later request is refused, every waiter of every group is returned to be told ShutdownInProgress, the table is emptied and the counters follow the woken waiters |
| ConfigCoalescer.DecideOrder | src/mongo/db/s/config/config_query_coalescer.cpp:316-346 | a request that would stretch the group past maxVersionGap runs on its own even when the group is full; overflow needs the span within the gap and a full group; a request joins exactly when the span fits and the group has room |
| ConfigCoalescer.JoinNearLeader | src/mongo/db/s/config/config_query_coalescer.cpp:316-346 | since joining leaves min and max at the leader's version, every follower that joins is within maxVersionGap of the version the leader queries |
| ConfigCoalescer.FollowerBelowLeaderMissesChunks | src/mongo/db/s/config/config_query_coalescer.cpp:280-284 | a follower that joined below the leader's version never receives a stored chunk between its own version and the leader's, although its own query returns it: the leader's unfiltered result starts at the leader's version |
| ConfigCoalescer.FollowerBelowLeaderExample | src/mongo/db/s/config/config_query_coalescer.cpp:316-346 | with a gap of 500, a follower at version 5 joins a leader at 10; the chunk stored at 5 is in the follower's own answer but not in the leader's |
| ConfigCoalescer.JoinKeepsGroup | src/mongo/db/s/config/config_query_coalescer.cpp:346 | a joining follower keeps its group well formed: query in progress, min = max, waiters within the cap and the gap |
| ConfigCoalescer.TableAdd | src/mongo/db/s/config/config_query_coalescer.cpp:233-241 | a new group takes the next generation, which no existing group holds, and the table stays valid |
| ConfigCoalescer.TableJoin | src/mongo/db/s/config/config_query_coalescer.cpp:346 | appending a joining follower keeps the table valid |
| ConfigCoalescer.TableRemove | src/mongo/db/s/config/config_query_coalescer.cpp:288 | retiring a group keeps the table valid |
| ConfigCoalescer.Try | src/mongo/db/s/config/config_query_coalescer.cpp:213-351 | the request is counted; a namespace without a group gets one with the next generation and the request as leader; otherwise the gap is checked before overflow, each with its counter and a query, or the request joins without touching min and max |
| ConfigCoalescer.TryKeepsTable | src/mongo/db/s/config/config_query_coalescer.cpp:213-351 | tryCoalesce keeps the table valid, hands a new group a generation no other group has, and keeps activeGroups equal to the number of groups |
| ConfigCoalescer.Coalescer.constructor | src/mongo/db/s/config/config_query_coalescer.cpp:195-196 | a new coalescer has no groups, zero statistics, generation 0 and is not shut down |
| ConfigCoalescer.Coalescer.Arrive | src/mongo/db/s/config/config_query_coalescer.cpp:202-351 | after shutdown the request is refused and not counted; otherwise the state moves exactly as the decision function says, and a new group's generation is unique |
| ConfigCoalescer.Coalescer.LeaderFinish | src/mongo/db/s/config/config_query_coalescer.cpp:255-308 | after shutdown the leader gets ShutdownInProgress; if its own generation's group is still there, every waiter, the leader first, receives the unfiltered result and the group is retired with its query counted; otherwise the leader returns an empty list |
| ConfigCoalescer.Coalescer.Shutdown | src/mongo/db/s/config/config_query_coalescer.cpp:487-503 | later requests are refused, every waiter of every group is returned to be told ShutdownInProgress and the table is emptied; the counters are left as they were |
| ConfigCoalescer.NoPromotion | src/mongo/db/s/config/config_query_coalescer.cpp:392-400 | every group in the table has its query in progress from creation, so the promotion of a timed-out follower never applies |
| CoalescerParameters.NumberInt | src/mongo/db/s/config/config_query_coalescer.cpp:83 | numberInt() always yields a 32-bit integer: a NumberLong is narrowed by the cast, an out-of-range double or decimal becomes INT_MIN |
| CoalescerParameters.SpacePrefix | src/mongo/db/s/config/config_query_coalescer.cpp:95 | the white space std::stoi skips is exactly the leading run of white-space characters |
| CoalescerParameters.DigitPrefix | src/mongo/db/s/config/config_query_coalescer.cpp:95 | the digits std::stoi reads are exactly the leading run of digits |
| CoalescerParameters.LeadingIntegerOfText | src/mongo/db/s/config/config_query_coalescer.cpp:93-98 | a decimal number followed by anything that does not start with a digit reads as that number ("12abc" is 12) |
| CoalescerParameters.LeadingIntegerNeedsDigit | src/mongo/db/s/config/config_query_coalescer.cpp:93-98 | text without a digit after the optional spaces and sign is rejected by std::stoi and std::stoll with BadValue |
| CoalescerParameters.BoolFromStringExact | src/mongo/db/s/config/config_query_coalescer.cpp:56-65 | "true" and "1" set true, "false" and "0" set false, and every other string is BadValue |
| CoalescerParameters.IntParameterTruncates | src/mongo/db/s/config/config_query_coalescer.cpp:80-90 | as written, NumberLong(4294967301) is accepted as window 5, its low 32 bits, while its full value is out of range |
| CoalescerParameters.CheckIntAsWritten | src/mongo/db/s/config/config_query_coalescer.cpp:79-90 | the set check as written, on numberInt(); IntParameterTruncates shows it accepting an out-of-range NumberLong |
| CoalescerParameters.CheckIntMeaning | src/mongo/db/s/config/config_query_coalescer.cpp:79-90 | corrected: a non-number is TypeMismatch, and a number is accepted and stored exactly when its own value lies in [min, max]; on values that fit an int this agrees with the code as written |
| CoalescerParameters.IntFromStringMeaning | src/mongo/db/s/config/config_query_coalescer.cpp:92-105 | a string is accepted exactly when its leading integer lies in [min, max], which is stored; every failure is BadValue |
| CoalescerParameters.IntFromStringPrefix | src/mongo/db/s/config/config_query_coalescer.cpp:92-105 | "12abc" sets a 12 ms window and "abc" is refused |
| CoalescerParameters.VersionGapRange | src/mongo/db/s/config/config_query_coalescer.cpp:120-146 | through set and setFromString alike the version gap only ever takes a value in 1..100000, and a 64-bit integer is judged on its full value |
| CoalescerParameters.EnabledParameter.constructor | src/mongo/db/s/config/config_query_coalescer.cpp:24 | the switch starts off |
| CoalescerParameters.EnabledParameter.Set | src/mongo/db/s/config/config_query_coalescer.cpp:48-54 | a Bool element is stored and succeeds; anything else is TypeMismatch and the value is unchanged |
| CoalescerParameters.EnabledParameter.SetFromString | src/mongo/db/s/config/config_query_coalescer.cpp:56-65 | success exactly for the four accepted spellings, which store their value; otherwise BadValue with the value unchanged |
| CoalescerParameters.IntParameter.constructor | src/mongo/db/s/config/config_query_coalescer.cpp:150-157 | an instance holds its range (window 1..1000, maxWait 10..60000, maxWaiters 1..100000) and an initial value inside it |
| CoalescerParameters.IntParameter.Set | src/mongo/db/s/config/config_query_coalescer.cpp:79-90 | success exactly when the corrected check accepts, storing the element's value; on failure the error is the check's and the value is unchanged |
| CoalescerParameters.IntParameter.SetFromString | src/mongo/db/s/config/config_query_coalescer.cpp:92-105 | success exactly when the leading integer lies in range, storing it; otherwise BadValue with the value unchanged |
| CoalescerParameters.VersionGapParameter.constructor | src/mongo/db/s/config/config_query_coalescer.cpp:28 | the version gap starts at 500 |
| CoalescerParameters.VersionGapParameter.Set | src/mongo/db/s/config/config_query_coalescer.cpp:120-131 | success exactly when the element is a number whose numberLong() lies in 1..100000, which is stored; otherwise the error, with the value unchanged |
| CoalescerParameters.VersionGapParameter.SetFromString | src/mongo/db/s/config/config_query_coalescer.cpp:133-146 | success exactly when the leading integer lies in 1..100000, storing it; otherwise BadValue with the value unchanged |
| CoalescerSimulations.BuildChunks | src/mongo/s/catalog/large_scale_coalescer_test.cpp:62-73 | the constructor's loop stores exactly the chunk list the version-assignment function defines |
| CoalescerSimulations.AssignedVersionsOrdered | src/mongo/s/catalog/large_scale_coalescer_test.cpp:67-73 | every chunk's version lies in [1, latestVersion] and versions never decrease along the storage order (the same loop is at src/mongo/s/catalog/cpu_scaling_test.cpp:54-59) |
| CoalescerSimulations.AssignedCoversVersions | src/mongo/s/catalog/large_scale_coalescer_test.cpp:67-73 | with at least as many chunks as versions, every version from 1 to latestVersion is held by some chunk |
| CoalescerSimulations.AssignedFewChunks | src/mongo/s/catalog/cpu_scaling_test.cpp:54-59 | with fewer chunks than versions, chunk i simply gets version i + 1 |
| CoalescerSimulations.Since | src/mongo/s/catalog/large_scale_coalescer_test.cpp:88-92 | the result holds exactly the chunks with version >= the major version asked for, and no more chunks than stored |
| CoalescerSimulations.SinceSnoc | src/mongo/s/catalog/large_scale_coalescer_test.cpp:88-92 | one more stored chunk is appended to the result exactly when its version qualifies, so storage order is kept |
| CoalescerSimulations.FilterSince | src/mongo/s/catalog/cpu_scaling_test.cpp:70-76 | the filtering loop returns exactly the qualifying chunks in storage order |
| CoalescerSimulations.SinceTwice | src/mongo/s/catalog/large_scale_coalescer_test.cpp:228-235 | filtering from a lower version and then from a higher one equals filtering from the higher one alone |
| CoalescerSimulations.ConfigServer.constructor | src/mongo/s/catalog/large_scale_coalescer_test.cpp:62-77 | the server stores the assigned chunks and has answered no query |
| CoalescerSimulations.ConfigServer.GetChunksSince | src/mongo/s/catalog/large_scale_coalescer_test.cpp:79-104 | a query is counted and returns the stored chunks at or above the requested major version; the chunks are unchanged |
| CoalescerSimulations.FirstJoinable | src/mongo/s/catalog/large_scale_coalescer_test.cpp:311-335 | the result is the first group the request may join, and none is returned only when no group is joinable |
| CoalescerSimulations.FindOrCreateGroup | src/mongo/s/catalog/large_scale_coalescer_test.cpp:306-345 | the first joinable group is widened to include the request and returned; otherwise a group with the next id and min = max = request is appended and returned (the cap-free rule of src/mongo/s/catalog/cpu_scaling_test.cpp:231-254 is the same method under the other rule) |
| CoalescerSimulations.Place | src/mongo/s/catalog/large_scale_coalescer_test.cpp:182-189 | findOrCreateGroup followed by the push of the request as a waiter; the request leads exactly when it created its group |
| CoalescerSimulations.SpanExact | src/mongo/s/catalog/large_scale_coalescer_test.cpp:319-326 | in a valid group the unsigned span never wraps: it is the widened range's true width |
| CoalescerSimulations.JoinKeepsGroup | src/mongo/s/catalog/large_scale_coalescer_test.cpp:326-333 | a joining request keeps its group valid: span within the gap, min and max bounding every waiter |
| CoalescerSimulations.PlacedKeepsVector | src/mongo/s/catalog/large_scale_coalescer_test.cpp:306-345 | placing a request keeps a namespace's groups valid, with ids strictly increasing and the id counter bumped only when a group is created |
| CoalescerSimulations.PlacedKeepsTable | src/mongo/s/catalog/large_scale_coalescer_test.cpp:306-345 | placing a request into one namespace keeps the whole table valid |
| CoalescerSimulations.StartedGroupFrozen | src/mongo/s/catalog/large_scale_coalescer_test.cpp:311-314 | a group whose query has started accepts no more requests: placing a request leaves it as it is |
| CoalescerSimulations.RulesCompared | src/mongo/s/catalog/cpu_scaling_test.cpp:235-245 | the large-scale rule is stricter than the CPU-scaling one, and the two agree on a group below the cap and not completed |
| CoalescerSimulations.Locate | src/mongo/s/catalog/large_scale_coalescer_test.cpp:198-207 | the result is the first group with the id (and, when asked, whose query has not started), or none when there is none |
| CoalescerSimulations.LocateUnique | src/mongo/s/catalog/large_scale_coalescer_test.cpp:222-226 | in valid groups the group with a given id is the only one with it |
| CoalescerSimulations.LocateGroup | src/mongo/s/catalog/large_scale_coalescer_test.cpp:198-207 | the lookup loops of getChunks return exactly what the locate function defines |
| CoalescerSimulations.DeliverToWaiters | src/mongo/s/catalog/large_scale_coalescer_test.cpp:228-238 | each waiter receives exactly the query result's chunks at or above its own major version, in result order, and the chunks handed out are counted |
| CoalescerSimulations.GroupQueryServesEveryWaiter | src/mongo/s/catalog/large_scale_coalescer_test.cpp:211-238 | the leader queries from the group's minimum version, so after the per-waiter filter each waiter holds exactly what its own query would have returned |
| CoalescerSimulations.ErasedKeepsTable | src/mongo/s/catalog/large_scale_coalescer_test.cpp:241-244 | erasing a group, and its namespace when it was the last, keeps the table valid |
| CoalescerSimulations.StartKeepsTable | src/mongo/s/catalog/large_scale_coalescer_test.cpp:209-210 | marking a group's query as started keeps the table valid |
| CoalescerSimulations.SimCoalescer.constructor | src/mongo/s/catalog/large_scale_coalescer_test.cpp:157-158 | a new coalescer has no groups, zero statistics, group id counter 0 and is not shut down |
| CoalescerSimulations.SimCoalescer.Arrive | src/mongo/s/catalog/large_scale_coalescer_test.cpp:167-191 | after shutdown nothing happens; otherwise the request is counted, placed by findOrCreateGroup, counted as coalesced unless it leads, and it leads exactly when it created its group |
| CoalescerSimulations.SimCoalescer.StartQuery | src/mongo/s/catalog/large_scale_coalescer_test.cpp:193-212 | if the leader's group is still there and its query has not started, it is marked started and the query runs from the group's minimum version; otherwise nothing changes |
| CoalescerSimulations.SimCoalescer.Deliver | src/mongo/s/catalog/large_scale_coalescer_test.cpp:214-248 | the query is counted; if the group is still there every waiter receives its filtered share, the chunks handed out are counted, and the group is erased, with its namespace when it was the last |
| CoalescerSimulations.SimCoalescer.Shutdown | src/mongo/s/catalog/large_scale_coalescer_test.cpp:276-281 | later requests get nothing and every group is dropped; counters are unchanged |
| DecimalCounterModel.NextDigit | src/mongo/util/itoa.h:118-119 | a digit below '9' goes up to the next digit, whose value is one more |
| DecimalCounterModel.Succ | src/mongo/util/itoa.h:113-131 | the successor of a digit string is a digit string |
| DecimalCounterModel.LastNonNine | src/mongo/util/itoa.h:117-123 | the carry stops at a digit that is not a nine, followed only by nines |
| DecimalCounterModel.LastNonNineUnique | src/mongo/util/itoa.h:117-123 | the carry stops at the only non-nine followed by nines alone |
| DecimalCounterModel.SuccCarry | src/mongo/util/itoa.h:114-123 | where the carry stops, the successor raises that digit, turns the nines after it into zeros and leaves every digit before it untouched |
| DecimalCounterModel.SuccRollover | src/mongo/util/itoa.h:126-130 | an all-nines string rolls over to '1' followed by as many zeros |
| DecimalCounterModel.SuccLength | src/mongo/util/itoa.h:116-130 | the successor grows by one digit exactly on a rollover and otherwise keeps its size |
| DecimalCounterModel.SuccValue | src/mongo/util/itoa.h:113-131 | the successor denotes one more than the string |
| DecimalCounterModel.SuccText | src/mongo/util/itoa.h:113-131 | the successor of the decimal text of n is the decimal text of n + 1 |
| DecimalCounterModel.GrowthOnlyOnRollover | src/mongo/util/itoa.h:126-130 | the text grows by one digit exactly when the old value was all nines |
| DecimalCounterModel.WriteStep | src/mongo/util/itoa.h:84-88 | one pass of the constructor's digit loop moves the lowest remaining digit to the written part |
| DecimalCounterModel.Uint32Digits | src/mongo/util/itoa.h:140-141 | the widest uint32 text fits the buffer with one character to spare |
| DecimalCounterModel.FullBufferRolloverOverflows | src/mongo/util/itoa.h:126-129 | eleven nines roll over to twelve characters, one more than the 11-character buffer holds |
| DecimalCounterModel.DecimalCounter.constructor | src/mongo/util/itoa.h:72-75 | the default counter is "0" with size 1 |
| DecimalCounterModel.DecimalCounter.FromUint32 | src/mongo/util/itoa.h:77-95 | the counter holds the decimal text of start, "0" for zero, in at most ten characters |
| DecimalCounterModel.DecimalCounter.Size | src/mongo/util/itoa.h:105-107 | size() is the length of the decimal text, between 1 and the buffer size |
| DecimalCounterModel.DecimalCounter.Data | src/mongo/util/itoa.h:97-103 | the characters read from data() up to size() are the decimal text of the counter |
| DecimalCounterModel.DecimalCounter.Increment | src/mongo/util/itoa.h:113-131 | prefix ++ turns the text into the successor in place and the counter denotes one more |
| DecimalCounterModel.IncrementDigits | src/mongo/util/itoa.h:113-131 | on the buffer, the carry loop and the rollover shift leave the successor of the digits, one longer exactly when they were all nines |
| DecimalCounterModel.WriteDigits | src/mongo/util/itoa.h:83-88 | the digit loop writes the text of start right to left, ending just before the buffer's last slot |
| DecimalCounterModel.MoveToFront | src/mongo/util/itoa.h:89-93 | the memmove places the written digits at the front of the buffer |
| DecimalCounterModel.CarryNines | src/mongo/util/itoa.h:117-124 | the carry loop turns the trailing nines into zeros and stops at the first non-nine from the right, or before the first digit when all were nines |
| DecimalCounterModel.ShiftInOne | src/mongo/util/itoa.h:127-129 | the rollover moves the zeros one place right under a leading '1' |
| DecimalCounterModel.CountPastUint32 | src/mongo/util/itoa_test.cpp:134-141 | counting up from 4294967295 gives "4294967296", ten digits |
| DecimalText.Text | src/mongo/util/itoa.h:77-95 | the decimal text of n is canonical (no leading zero) and has one digit exactly when n < 10 |
| DecimalText.ValueOfText | src/mongo/util/itoa.h:77-95 | reading the text of n gives n back |
| DecimalText.TextOfValue | src/mongo/util/itoa.h:77-95 | every canonical digit string is the text of the number it denotes |
| DecimalText.TextLength | src/mongo/util/itoa.h:140-141 | the text of n has at most k digits exactly when n < 10^k |
| DecimalText.TextInjective | src/mongo/util/itoa.h:77-95 | distinct numbers have distinct texts |
| DocumentIntegrity.Without | src/mongo/db/catalog/document_integrity.cpp:105-111 | filtering an element list never lengthens it |
| DocumentIntegrity.WithoutAppend | src/mongo/db/catalog/document_integrity.cpp:106-110 | the filter distributes over concatenation, so the kept elements keep their order |
| DocumentIntegrity.WithoutMembers | src/mongo/db/catalog/document_integrity.cpp:106-110 | an element survives exactly when it is in the document under another name |
| DocumentIntegrity.WithoutRemovesName | src/mongo/db/catalog/document_integrity.cpp:106-110 | no element of the filtered name is left |
| DocumentIntegrity.WithoutAbsent | src/mongo/db/catalog/document_integrity.cpp:101-103 | a document without the name passes through unchanged |
| DocumentIntegrity.StripIsFilter | src/mongo/db/catalog/document_integrity.cpp:100-112 | the copy shortcut of stripHashField agrees with the filtering loop |
| DocumentIntegrity.StripHashFieldSpec | src/mongo/db/catalog/document_integrity.cpp:100-112 | stripHashField removes every hash element, keeps every other element, and stripping twice is stripping once |
| DocumentIntegrity.FirstElementLayout | src/mongo/db/catalog/document_integrity.cpp:37-39 | a document's bytes are the header, the first element, the other elements and the terminator |
| DocumentIntegrity.HashFirstHashesOtherElements | src/mongo/db/catalog/document_integrity.cpp:30-46 | with the hash field first, exactly the other elements' bytes are hashed, without header or terminator |
| DocumentIntegrity.HashOnlyHashesEmpty | src/mongo/db/catalog/document_integrity.cpp:41-45 | a document that is only its hash field hashes the empty input |
| DocumentIntegrity.HashLaterEqualsStripped | src/mongo/db/catalog/document_integrity.cpp:49-59 | with the hash field present but not first, the hash is that of the stripped document's full bytes |
| DocumentIntegrity.HashFirstVersusContent | src/mongo/db/catalog/document_integrity.cpp:24-46 | with the hash field in front, the element bytes of the content are hashed, while the content alone hashes its whole encoding; the two inputs always differ, so the two hashes agree only on an H collision |
| DocumentIntegrity.ExtractAfterPut | src/mongo/db/catalog/document_integrity.cpp:62-74 | a stored NumberLong reads back as its two's-complement uint64 value |
| DocumentIntegrity.ExtractRejectsOtherTypes | src/mongo/db/catalog/document_integrity.cpp:64-71 | any non-NumberLong value under the hash field reads as absent although the field is present |
| DocumentIntegrity.SignedLongRoundTrip | src/mongo/db/catalog/document_integrity.cpp:73 | a uint64 stored as the long with the same bits comes back unchanged |
| DocumentIntegrity.VerifyOutcomes | src/mongo/db/catalog/document_integrity.cpp:76-98 | OK exactly when there is no hash field or the stored hash equals the computed one; BadValue exactly when the field is present but not a NumberLong; DocumentIntegrityError exactly on a mismatch |
| DocumentIntegrity.StripHashField | src/mongo/db/catalog/document_integrity.cpp:100-112 | stripHashField as written; its properties (every hash element gone, every other element kept in order, idempotent, a copy when absent) are StripHashFieldSpec and StripIsFilter |
| DocumentIntegrity.ComputeDocumentHash | src/mongo/db/catalog/document_integrity.cpp:24-60 | computeDocumentHash as written, with its three paths; what each path hashes is HashFirstHashesOtherElements, HashOnlyHashesEmpty, HashLaterEqualsStripped and HashFirstVersusContent |
| DocumentIntegrity.ExtractDocumentHash | src/mongo/db/catalog/document_integrity.cpp:62-74 | extractDocumentHash; ExtractAfterPut, ExtractRejectsOtherTypes and SignedLongRoundTrip state that a NumberLong reads back as its uint64 bits and anything else as absent |
| DocumentIntegrity.VerifyDocumentIntegrity | src/mongo/db/catalog/document_integrity.cpp:76-98 | verifyDocumentIntegrity as written; VerifyOutcomes gives each of its three outcomes with both directions of its condition |
| DocumentIntegrity.ComputeContentHash | src/mongo/db/catalog/document_integrity.cpp:24-60 | the corrected hash the header at document_integrity.h:21-22 and the tests promise: on every path the hash of the document without its hash field, which equals the as-written hash of the stripped document |
| DocumentIntegrity.VerifyContentIntegrity | src/mongo/db/catalog/document_integrity.cpp:76-98 | verification over the content hash: a document without the hash field is OK, and OK holds exactly when the stored hash equals the content hash |
| DocumentIntegrity.ContentHashVersusAsWritten | src/mongo/db/catalog/document_integrity.cpp:30-46 | the content hash equals the as-written hash unless the hash field comes first; then the content hash takes the content's whole encoding and the as-written hash its element bytes, two byte strings that always differ |
| DocumentIntegrity.ContentSealVerifies | src/mongo/db/catalog/document_integrity_test.cpp:160-170 | the tests' scenario: the hash of the content stored first as a NumberLong verifies under the content hash, and the same seal on content that hashes differently is rejected with both hashes |
| DocumentIntegrity.ContentSealParts | src/mongo/db/catalog/document_integrity_test.cpp:59-73 | in a document of a hash field followed by content, the hash field is found and the content hash is the hash of the content's own encoding |
| DocumentIntegrity.SealedDocumentVerifies | src/mongo/db/catalog/document_integrity.cpp:30-46 | a document sealed as a driver seals it, the hash of the content's element bytes stored first, verifies; the same seal on content whose element bytes hash differently is rejected |
| DocumentIntegrity.SealedParts | src/mongo/db/catalog/document_integrity.cpp:30-46 | verification of a sealed document sees the seal's value and the hash of the content's element bytes |
| VerifiedDocumentModel.LockInputIsElements | src/driver/java/bson/src/main/org/bson/VerifiedDocument.java:131-140 | the hashed range, offset 4 and length total - 5, is exactly the element bytes: no size header, no terminator |
| VerifiedDocumentModel.EmptyDocumentHashesNothing | src/driver/java/bson/src/main/org/bson/VerifiedDocument.java:138-140 | an empty document hashes the empty input |
| VerifiedDocumentModel.VerifiedDocument.constructor | src/driver/java/bson/src/main/org/bson/VerifiedDocument.java:79-81 | a new document is empty and unlocked, with no hash |
| VerifiedDocumentModel.VerifiedDocument.FromEntry | src/driver/java/bson/src/main/org/bson/VerifiedDocument.java:89-91 | a document built from one pair holds that pair and is unlocked |
| VerifiedDocumentModel.VerifiedDocument.FromMap | src/driver/java/bson/src/main/org/bson/VerifiedDocument.java:98-100 | a document built from a map holds its entries in iteration order and is unlocked |
| VerifiedDocumentModel.VerifiedDocument.Put | src/driver/java/bson/src/main/org/bson/VerifiedDocument.java:154-156 | the inherited put changes the map as a LinkedHashMap does and never the stored hash |
| VerifiedDocumentModel.VerifiedDocument.Remove | src/driver/java/bson/src/main/org/bson/VerifiedDocument.java:154-156 | the inherited remove drops the key and never changes the stored hash |
| VerifiedDocumentModel.VerifiedDocument.Lock | src/driver/java/bson/src/main/org/bson/VerifiedDocument.java:117-142 | the first call stores the hash of the element bytes; a later call throws IllegalStateException and leaves the hash unchanged; the map is never changed |
| VerifiedDocumentModel.LockedDocumentVerifies | src/driver/java/bson/src/main/org/bson/VerifiedDocument.java:133-136 | a document locked on the client and sent with its hash first verifies on the server, whose hash-first path hashes the same element bytes |
| VerifiedDocumentModel.LockedDocumentOnContentServer | src/driver/java/bson/src/main/org/bson/VerifiedDocument.java:133-136 | against the corrected content hash, the element-bytes seal of lock() verifies exactly when H agrees on the elements' bytes and the whole encoding |
| VerifiedDocumentModel.LockTwice | src/driver/java/bson/src/main/org/bson/VerifiedDocument.java:117-122 | locking twice: the second call fails and the first hash stays, so lock is not idempotent here |
| VerifiedDocumentModel.MutateAfterLock | src/driver/java/bson/src/main/org/bson/VerifiedDocument.java:154-156 | changing the map after locking leaves the stored hash as it was |
| VerifiedUpdateModel.PutTwice | src/driver/java/bson/src/main/org/bson/VerifiedUpdate.java:336-344 | putting a field twice leaves the second value in the first put's position |
| VerifiedUpdateModel.ModifiedWellFormed | src/driver/java/bson/src/main/org/bson/VerifiedUpdate.java:336-344 | a modifier call keeps the update specification a list of distinct operators, each with a sub-document |
| VerifiedUpdateModel.ModifierAfterModified | src/driver/java/bson/src/main/org/bson/VerifiedUpdate.java:336-344 | the next call on an operator finds the sub-document the previous call left |
| VerifiedUpdateModel.SameOperatorShares | src/driver/java/bson/src/main/org/bson/VerifiedUpdate.java:336-344 | calls on the same operator share one sub-document, and a later value for the same field overwrites the earlier one |
| VerifiedUpdateModel.OtherOperatorsUntouched | src/driver/java/bson/src/main/org/bson/VerifiedUpdate.java:336-344 | a modifier call leaves every other operator's sub-document unchanged |
| VerifiedUpdateModel.OperatorOrder | src/driver/java/bson/src/main/org/bson/VerifiedUpdate.java:336-344 | a first call on an operator appends it after the existing ones; a repeated one keeps the order |
| VerifiedUpdateModel.VerifiedUpdate.constructor | src/driver/java/bson/src/main/org/bson/VerifiedUpdate.java:52-59 | a new update has an empty specification, is unlocked and has no hash |
| VerifiedUpdateModel.VerifiedUpdate.Modify | src/driver/java/bson/src/main/org/bson/VerifiedUpdate.java:329-344 | when locked, IllegalStateException and the specification unchanged; otherwise the field is put into the operator's sub-document |
| VerifiedUpdateModel.VerifiedUpdate.Set | src/driver/java/bson/src/main/org/bson/VerifiedUpdate.java:69-73 | set puts the value under $set, or fails when locked with nothing changed |
| VerifiedUpdateModel.VerifiedUpdate.Inc | src/driver/java/bson/src/main/org/bson/VerifiedUpdate.java:82-86 | inc puts the number (an Integer, Long or Double) under $inc, or fails when locked with nothing changed |
| VerifiedUpdateModel.VerifiedUpdate.Unset | src/driver/java/bson/src/main/org/bson/VerifiedUpdate.java:94-98 | unset puts the empty string under $unset, or fails when locked with nothing changed |
| VerifiedUpdateModel.VerifiedUpdate.Push | src/driver/java/bson/src/main/org/bson/VerifiedUpdate.java:107-111 | push puts the value under $push, or fails when locked with nothing changed |
| VerifiedUpdateModel.VerifiedUpdate.PushAll | src/driver/java/bson/src/main/org/bson/VerifiedUpdate.java:120-124 | pushAll puts {$each: values} under $push, or fails when locked with nothing changed |
| VerifiedUpdateModel.VerifiedUpdate.Pull | src/driver/java/bson/src/main/org/bson/VerifiedUpdate.java:133-137 | pull puts the value under $pull, or fails when locked with nothing changed |
| VerifiedUpdateModel.VerifiedUpdate.AddToSet | src/driver/java/bson/src/main/org/bson/VerifiedUpdate.java:146-150 | addToSet puts the value under $addToSet, or fails when locked with nothing changed |
| VerifiedUpdateModel.VerifiedUpdate.Pop | src/driver/java/bson/src/main/org/bson/VerifiedUpdate.java:159-163 | pop puts -1 (first) or 1 (last) under $pop, or fails when locked with nothing changed |
| VerifiedUpdateModel.VerifiedUpdate.Rename | src/driver/java/bson/src/main/org/bson/VerifiedUpdate.java:172-176 | rename puts the new name under the old one in $rename, or fails when locked with nothing changed |
| VerifiedUpdateModel.VerifiedUpdate.Min | src/driver/java/bson/src/main/org/bson/VerifiedUpdate.java:185-189 | min puts the value under $min, or fails when locked with nothing changed |
| VerifiedUpdateModel.VerifiedUpdate.Max | src/driver/java/bson/src/main/org/bson/VerifiedUpdate.java:198-202 | max puts the value under $max, or fails when locked with nothing changed |
| VerifiedUpdateModel.VerifiedUpdate.Mul | src/driver/java/bson/src/main/org/bson/VerifiedUpdate.java:211-215 | mul puts the number (an Integer, Long or Double) under $mul, or fails when locked with nothing changed |
| VerifiedUpdateModel.VerifiedUpdate.CurrentDate | src/driver/java/bson/src/main/org/bson/VerifiedUpdate.java:223-227 | currentDate puts true under $currentDate, or fails when locked with nothing changed |
| VerifiedUpdateModel.VerifiedUpdate.CurrentTimestamp | src/driver/java/bson/src/main/org/bson/VerifiedUpdate.java:235-239 | currentTimestamp puts {$type: "timestamp"} under $currentDate, or fails when locked with nothing changed |
| VerifiedUpdateModel.VerifiedUpdate.Lock | src/driver/java/bson/src/main/org/bson/VerifiedUpdate.java:242-257 | the first call locks and stores the hash of the whole encoded specification; later calls return at once with the hash unchanged |
| VerifiedUpdateModel.VerifiedUpdate.ToBsonDocument | src/driver/java/bson/src/main/org/bson/VerifiedUpdate.java:271-296 | the hash field comes first exactly when locked, followed by the operators in insertion order; unlocked, the operators alone |
| VerifiedUpdateModel.SpecHasNoHashField | src/driver/java/bson/src/main/org/bson/VerifiedUpdate.java:336-344 | a specification built from operators never holds the hash field |
| VerifiedUpdateModel.LockedUpdateOnServer | src/driver/java/bson/src/main/org/bson/VerifiedUpdate.java:248-256 | the server hashes the element bytes after the leading hash field while the client hashed the whole encoded specification, so a locked update verifies exactly when H agrees on those two different byte strings |
| VerifiedUpdateModel.LockedUpdateOnContentServer | src/driver/java/bson/src/main/org/bson/VerifiedUpdate.java:248-256 | against the corrected content hash, which is the hash lock() computes, every locked update verifies |
| DottedPath.FirstDot | src/mongo/db/bson/dotted_path_support.cpp:161 | a found index holds a dot with no dot before it; no index means the path has no dot at all |
| DottedPath.SplitAtFirstDot | src/mongo/db/bson/dotted_path_support.cpp:161-164 | the remainder after the first dot has exactly one dot fewer and is shorter, so the descent terminates |
| DottedPath.JoinSplit | src/mongo/db/bson/dotted_path_support.cpp:161-164 | cutting a path of dot-free components at its first dot yields the first component and the path of the rest |
| DottedPath.JoinHasDot | src/mongo/db/bson/dotted_path_support.cpp:159-162 | a path of two or more components contains a dot, so it is never a plain component name |
| DottedPath.ExtractElementAtPath | src/mongo/db/bson/dotted_path_support.cpp:158-171 | any element found is named by a suffix of the path (the last component or a literal dotted name) |
| DottedPath.LiteralNameWins | src/mongo/db/bson/dotted_path_support.cpp:159 | when the document has a field literally named by the whole path, that field is the answer, before any descent (see also line 170) |
| DottedPath.MissingPrefixIsEoo | src/mongo/db/bson/dotted_path_support.cpp:165-166 | when the first component does not name a non-empty object or array, the answer is EOO |
| DottedPath.ExtractFollowsComponents | src/mongo/db/bson/dotted_path_support.cpp:158-171 | in a document without dotted field names, the answer is component-by-component lookup through nested documents |
| DottedPath.ExtractIntoObject | src/mongo/db/bson/dotted_path_support.cpp:163-166 | with no literal match and an object at the first component, the answer is the rest of the path resolved inside it, or EOO for an empty object |
| DottedPath.AlongPath | src/mongo/db/bson/dotted_path_support.cpp:174-195 | the consumed count never exceeds the path; a found element is an array or the path is used up |
| DottedPath.AlongPathDotFree | src/mongo/db/bson/dotted_path_support.cpp:182-185 | a dot-free path is a plain field lookup with the whole path consumed (see also lines 201-207) |
| DottedPath.ScalarIntermediateIsEoo | src/mongo/db/bson/dotted_path_support.cpp:187-194 | a scalar found in the middle of the path ends the walk with EOO |
| DottedPath.AlongPathFollowsComponents | src/mongo/db/bson/dotted_path_support.cpp:174-195 | in a document without arrays the walk is component-by-component lookup |
| DottedPath.Served | src/mongo/db/bson/dotted_path_support.cpp:197-228 | a dotted path already cached under the same document address is answered from the cache; every other request is looked up in the current document |
| DottedPath.ServedFresh | src/mongo/db/bson/dotted_path_support.cpp:210-227 | while every cached entry was computed from the document now at the cached address, the cache answers exactly what an uncached lookup answers |
| DottedPath.StaleCacheAnswer | src/mongo/db/bson/dotted_path_support.cpp:210-221 | a second document at the address of the first is answered with the first document's element for a cached path (the stale-cache finding) |
| DottedPath.Remember | src/mongo/db/bson/dotted_path_support.cpp:225 | the new entry is stored under its path and every other entry is kept unchanged |
| DottedPath.FieldExtractionCache.constructor | src/mongo/db/bson/dotted_path_support.cpp:56-63 | a fresh cache has no entries and no document address |
| DottedPath.FieldExtractionCache.CheckDocument | src/mongo/db/bson/dotted_path_support.cpp:65-70 | a new document address drops every entry; the same address keeps them |
| DottedPath.FieldExtractionCache.ExtractElementAtPathOrArrayAlongPath | src/mongo/db/bson/dotted_path_support.cpp:197-228 | the answer is the uncached answer for the document each entry came from; it equals the lookup in the current document whenever the entries were computed from it; dot-free paths leave the cache untouched and dotted paths end up cached |
| DottedPath.DigitRun | src/mongo/db/bson/dotted_path_support.cpp:105-107 | the scan stops at the end of the path or at the first non-digit |
| DottedPath.ScanLeadingIndex | src/mongo/db/bson/dotted_path_support.cpp:103-109 | the digit scan answers whether the rest of the path begins with a whole numeric component |
| DottedPath.DigitsAreIndex | src/mongo/db/bson/dotted_path_support.cpp:104-108 | a component made only of digits is scanned to its end |
| DottedPath.ExtractAllElementsAlongPath | src/mongo/db/bson/dotted_path_support.cpp:78-154 | the elements and array depths appended are exactly those of the recursive description of the walk |
| DottedPath.ExtractThroughArray | src/mongo/db/bson/dotted_path_support.cpp:102-134 | an array in the middle of the path is descended positionally for a numeric component, and otherwise fanned out with its depth recorded when it has more than one element |
| DottedPath.ExtractFanOut | src/mongo/db/bson/dotted_path_support.cpp:118-130 | the loop over an array's elements appends what searching each element finds, in order |
| DottedPath.FanOutStep | src/mongo/db/bson/dotted_path_support.cpp:120-130 | one more loop iteration appends exactly what the next array element contributes |
| DottedPath.ExtractFromElement | src/mongo/db/bson/dotted_path_support.cpp:121-128 | objects and arrays inside a fanned-out array are searched, other values contribute nothing |
| DottedPath.InsertAll | src/mongo/db/bson/dotted_path_support.cpp:140-146 | a trailing array contributes every one of its elements, in order |
| DottedPath.TrailingArray | src/mongo/db/bson/dotted_path_support.cpp:139-152 | a trailing array is expanded into its elements when asked, with its depth recorded if it has more than one, and otherwise kept whole |
| DottedPath.RecordedDepthsBounded | src/mongo/db/bson/dotted_path_support.cpp:131-133 | every recorded array depth lies between the starting depth and the depth of the last path component (see also lines 147-149) |
| DottedPath.ThroughArrayDepthsBounded | src/mongo/db/bson/dotted_path_support.cpp:102-134 | depths recorded below an array in the middle of the path stay within the remaining components |
| DottedPath.FanOutDepthsBounded | src/mongo/db/bson/dotted_path_support.cpp:118-130 | depths recorded while fanning out stay within the remaining components |
| DottedPath.FromElementDepthsBounded | src/mongo/db/bson/dotted_path_support.cpp:121-128 | depths recorded below one array element stay within the remaining components |
| DottedPath.ArrayPositionAddressed | src/mongo/db/bson/dotted_path_support.cpp:102-116 | a numeric component after an array addresses the array element at that position, and records no depth |
| DottedPath.AllAlongPathWithoutArrays | src/mongo/db/bson/dotted_path_support.cpp:78-154 | without arrays, collecting along a path finds exactly what the single-element extraction finds, and records no depth (see also lines 158-171) |
| DottedPath.DescendWithoutArrays | src/mongo/db/bson/dotted_path_support.cpp:93-101 | in an array-free object below the first component, collecting and single-element extraction agree (see also lines 163-166) |
| DottedPath.AllAlongIntoObject | src/mongo/db/bson/dotted_path_support.cpp:93-101 | with no literal match and an object at the first component, collection continues inside it one level deeper |
| DottedPath.ExtractElementsBasedOnTemplate | src/mongo/db/bson/dotted_path_support.cpp:250-267 | with nulls for missing values the output has exactly the pattern's names in order; the output is never longer than the pattern |
| DottedPath.TemplateWithNulls | src/mongo/db/bson/dotted_path_support.cpp:256-265 | with nulls, the i-th output field carries the i-th pattern name and the value at that path, or null when it is missing |
| DottedPath.TemplateWithoutNulls | src/mongo/db/bson/dotted_path_support.cpp:256-265 | without nulls, a name is in the output exactly when a pattern field has it and its path resolves, and its value is the resolved one |
| DottedPath.CompareObjectsAccordingToSort | src/mongo/db/bson/dotted_path_support.cpp:269-302 | the loop returns the empty-object ordering, the uassert 10060 for an empty sort key, or the first non-zero key comparison |
| DottedPath.FirstDifferingKeyDecides | src/mongo/db/bson/dotted_path_support.cpp:280-299 | the result is the comparison, reversed for a negative direction, at the first sort key that tells the objects apart |
| DottedPath.NoDifferingKeyIsEqual | src/mongo/db/bson/dotted_path_support.cpp:282-284 | when no sort key tells the objects apart, they compare equal |
| DottedPath.CompareAntisymmetric | src/mongo/db/bson/dotted_path_support.cpp:280-300 | an antisymmetric element comparison gives an antisymmetric comparison over the sort key |
| DottedPath.SortOrderAntisymmetric | src/mongo/db/bson/dotted_path_support.cpp:269-302 | with a non-empty sort key the comparator never fails and is antisymmetric, including its empty-object cases |
| DottedPath.CompareReflexive | src/mongo/db/bson/dotted_path_support.cpp:280-300 | an object compares equal to itself when its values do |
| FieldExtractor.Hash8 | src/mongo/db/index/unified_field_extractor.h:431-434 | the one-byte rolling hash stays below 256 |
| FieldExtractor.Hash8Snoc | src/mongo/db/index/unified_field_extractor.h:432-434 | one more byte advances the hash by exactly one step of multiply-by-31-and-add, modulo 256 |
| FieldExtractor.MakeSignature | src/mongo/db/index/unified_field_extractor.h:428-440 | the hashing loop computes the name's signature (0 for an empty name) |
| FieldExtractor.Signature | src/mongo/db/index/unified_field_extractor.h:428-440 | makeSignature's value, 0 for an empty name; SignatureIsPacked, SignatureParts and EqualSignatures state its four parts, and SignaturesCollide that two different names share one |
| FieldExtractor.SignatureLoopHash | src/mongo/db/index/unified_field_extractor.h:432-434 | the loop ends with the hash of all the name's bytes |
| FieldExtractor.SignatureIsPacked | src/mongo/db/index/unified_field_extractor.h:436-439 | a non-empty name's signature packs its length modulo 256, first byte, last byte and hash |
| FieldExtractor.SignatureParts | src/mongo/db/index/unified_field_extractor.h:436-439 | the first byte and the length modulo 256 can be read back out of the signature |
| FieldExtractor.EqualSignatures | src/mongo/db/index/unified_field_extractor.h:425-439 | names with equal signatures agree in length modulo 256, first and last byte, and hash |
| FieldExtractor.SignaturesCollide | src/mongo/db/index/unified_field_extractor.h:425-439 | the different names "abcd" and "acDd" have the same signature, so the signature alone does not identify a name |
| FieldExtractor.CollidingBytes | src/mongo/db/index/unified_field_extractor.h:432-434 | the bytes of "abcd" and of "acDd" both hash to 66 |
| FieldExtractor.IndexOf | src/mongo/db/index/unified_field_extractor.h:86-94 | the slot of a registered path holds that path and no earlier slot does |
| FieldExtractor.DistinctIndexOf | src/mongo/db/index/unified_field_extractor.h:73 | without repeated paths, a path's first slot is the only slot holding it (see also lines 112-113) |
| FieldExtractor.DistinctSlots | src/mongo/db/index/unified_field_extractor.h:73 | without repeated paths, every slot holding a path is its first slot (see also lines 112-113) |
| FieldExtractor.NestedFlags | src/mongo/db/index/unified_field_extractor.h:122-132 | one nested-flag per registered path |
| FieldExtractor.NestedFlagsClassified | src/mongo/db/index/unified_field_extractor.h:122-132 | each flag says exactly whether its path holds a dot |
| FieldExtractor.Prefixes | src/mongo/db/index/unified_field_extractor.h:130-131 | one prefix per nested slot, in parallel with the nested slot list |
| FieldExtractor.TopLevelPlusNested | src/mongo/db/index/unified_field_extractor.h:122-132 | every registered path is listed once, as top-level or as nested |
| FieldExtractor.TopLevelSound | src/mongo/db/index/unified_field_extractor.h:124-126 | every listed top-level slot holds a dot-free path |
| FieldExtractor.TopLevelComplete | src/mongo/db/index/unified_field_extractor.h:124-126 | every dot-free path's slot is listed as top-level |
| FieldExtractor.TopLevelSlots | src/mongo/db/index/unified_field_extractor.h:124-126 | the top-level list holds exactly the dot-free slots |
| FieldExtractor.NestedSound | src/mongo/db/index/unified_field_extractor.h:127-131 | every listed nested slot holds a dotted path, and the parallel prefix is the part before its first dot |
| FieldExtractor.NestedComplete | src/mongo/db/index/unified_field_extractor.h:127-129 | every dotted path's slot is listed as nested |
| FieldExtractor.NestedSlots | src/mongo/db/index/unified_field_extractor.h:127-131 | the nested list holds exactly the dotted slots, with their prefixes |
| FieldExtractor.IndexOfStable | src/mongo/db/index/unified_field_extractor.h:112-113 | registering more paths never moves an earlier path's slot |
| FieldExtractor.SlotsOfStable | src/mongo/db/index/unified_field_extractor.h:112-113 | slots already handed out for registered paths stay the same when one more path is registered (see also lines 149-154) |
| FieldExtractor.AppendDistinct | src/mongo/db/index/unified_field_extractor.h:107-113 | appending a path keeps the paths free of repeats exactly when it is new |
| FieldExtractor.AppendLayout | src/mongo/db/index/unified_field_extractor.h:112-132 | registering a new path adds it at the next slot and classifies only that slot |
| FieldExtractor.AppendSignatures | src/mongo/db/index/unified_field_extractor.h:115-120 | a new path's signature is mapped to its slot when no path had it, and otherwise its slot joins that signature's collision list |
| FieldExtractor.AppendValues | src/mongo/db/index/unified_field_extractor.h:112-132 | the new-path half of registration leaves the registry's tables exactly those derived from the longer path list |
| FieldExtractor.AppendRegistry | src/mongo/db/index/unified_field_extractor.h:107-132 | registering a new path while there is room keeps the registry tables derived from the paths |
| FieldExtractor.SigToSlotSound | src/mongo/db/index/unified_field_extractor.h:115-120 | the signature table points each signature at a registered path with that signature (see also line 444) |
| FieldExtractor.CollisionsSound | src/mongo/db/index/unified_field_extractor.h:115-117 | a collision list belongs to a mapped signature and holds other paths with that signature (see also line 445) |
| FieldExtractor.PathFound | src/mongo/db/index/unified_field_extractor.h:83-105 | every registered path is reachable from its signature: the table points at it or its collision list holds it |
| FieldExtractor.CollisionTotal | src/mongo/db/index/unified_field_extractor.h:413-419 | the collision lists hold exactly the paths the signature table does not point at |
| FieldExtractor.SumOverRemove | src/mongo/db/index/unified_field_extractor.h:413-419 | the total over collision lists may take any list out first |
| FieldExtractor.SumOverAgree | src/mongo/db/index/unified_field_extractor.h:413-419 | collision lists of equal lengths give equal totals |
| FieldExtractor.SumLensUpdate | src/mongo/db/index/unified_field_extractor.h:115-117 | replacing one collision list changes the total by the difference of its lengths (see also lines 413-419) |
| FieldExtractor.LookupFacts | src/mongo/db/index/unified_field_extractor.h:83-105 | the signature table and collision lists a registry derives satisfy what the lookup needs to find any registered name |
| FieldExtractor.ScanCollisions | src/mongo/db/index/unified_field_extractor.h:98-105 | the collision-list scan returns a listed slot holding the path, or reports that none does |
| FieldExtractor.FindRegistered | src/mongo/db/index/unified_field_extractor.h:82-105 | the lookup finds a slot exactly when the path is registered, and then it is the path's own slot, even under signature collisions |
| FieldExtractor.IndexOfAppended | src/mongo/db/index/unified_field_extractor.h:112-113 | a path appended after the others takes the last slot |
| FieldExtractor.RegisterStep | src/mongo/db/index/unified_field_extractor.h:149-154 | one registration inside a batch keeps the earlier answers and adds the path's slot unless it was refused |
| FieldExtractor.UnifiedFieldExtractor.constructor | src/mongo/db/index/unified_field_extractor.h:61 | a new extractor has no paths, no named slot lists and is not finalized |
| FieldExtractor.UnifiedFieldExtractor.RegisterField | src/mongo/db/index/unified_field_extractor.h:75-135 | after finalize the answer is the invalid slot; otherwise a known path gets its existing slot, a new path the next slot (and is stored), and the 256th path the invalid slot |
| FieldExtractor.UnifiedFieldExtractor.AppendField | src/mongo/db/index/unified_field_extractor.h:112-132 | storing a new path keeps the registry invariant and appends exactly that path |
| FieldExtractor.UnifiedFieldExtractor.RegisterAll | src/mongo/db/index/unified_field_extractor.h:146-154 | the answer lists the slots of the paths in order with the refused ones dropped; earlier paths keep their slots; only given paths are added (see also lines 169-177) |
| FieldExtractor.UnifiedFieldExtractor.RegisterIndex | src/mongo/db/index/unified_field_extractor.h:144-158 | the slots answered are stored under the index's name |
| FieldExtractor.UnifiedFieldExtractor.RegisterDigest | src/mongo/db/index/unified_field_extractor.h:167-181 | the slots answered are stored under the digest's name |
| FieldExtractor.SigsOfSnoc | src/mongo/db/index/unified_field_extractor.h:193-196 | one more listed slot adds its path's signature |
| FieldExtractor.TopSigsBySlots | src/mongo/db/index/unified_field_extractor.h:193-196 | the signatures at the top-level slots are those of the dot-free paths |
| FieldExtractor.CollectTopSigs | src/mongo/db/index/unified_field_extractor.h:193-196 | the first finalize loop adds the signature of every path at the listed slots |
| FieldExtractor.AddPrefixesMembers | src/mongo/db/index/unified_field_extractor.h:199-204 | a slot is listed under a signature after indexing exactly when it was before or one of the added slots has a prefix with that signature |
| FieldExtractor.IndexPrefixes | src/mongo/db/index/unified_field_extractor.h:199-204 | the second finalize loop appends each nested slot under its own prefix's signature |
| FieldExtractor.BuiltPrefixIndex | src/mongo/db/index/unified_field_extractor.h:199-204 | the prefix index finalize builds lists every nested slot under its prefix's signature, and only nested slots |
| FieldExtractor.FinalizeValues | src/mongo/db/index/unified_field_extractor.h:192-204 | finalize collects the top-level signatures and builds a prefix index that lists exactly the nested slots |
| FieldExtractor.UnifiedFieldExtractor.SizeSlots | src/mongo/db/index/unified_field_extractor.h:188-189 | the first finalize gives one empty slot and one lowered flag per path; a second keeps the existing ones |
| FieldExtractor.UnifiedFieldExtractor.IndexSignatures | src/mongo/db/index/unified_field_extractor.h:190-204 | finalize marks the extractor finalized and its prefix index lists exactly the nested slots |
| FieldExtractor.UnifiedFieldExtractor.Finalize | src/mongo/db/index/unified_field_extractor.h:187-205 | finalize sizes the slots, collects the top-level signatures and indexes every nested slot, keeping the registry invariant |
| FieldExtractor.LastNamed | src/mongo/db/index/unified_field_extractor.h:233-242 | the stored top-level element carries the path's name, and there is none exactly when the document has no such field |
| FieldExtractor.NestedStepIdempotent | src/mongo/db/index/unified_field_extractor.h:264-289 | a filled nested slot is not touched again by the same element |
| FieldExtractor.FlagMeansArray | src/mongo/db/index/unified_field_extractor.h:276-284 | with the corrected flag, a nested slot is flagged only when it holds an array |
| FieldExtractor.FilledOnlyFromPrefix | src/mongo/db/index/unified_field_extractor.h:259-289 | with the corrected candidate test, a nested slot stays empty and unflagged when the document has no field named by the prefix |
| FieldExtractor.FirstAnswerWins | src/mongo/db/index/unified_field_extractor.h:264-289 | the first candidate element with a non-EOO answer decides a nested slot; with none the slot stays EOO |
| FieldExtractor.PrefixMatchedBySignatureOnly | src/mongo/db/index/unified_field_extractor.h:260-265 | a slot for "abcd.x" is filled from a field "acDd" as written, while the corrected scan leaves it EOO (the signature-only finding) |
| FieldExtractor.SignatureOnlyAsWritten | src/mongo/db/index/unified_field_extractor.h:260-275 | as written, "acDd" is walked for "x" on behalf of "abcd.x" |
| FieldExtractor.AsWrittenProbeOfCollision | src/mongo/db/index/unified_field_extractor.h:260-275 | as written, the element "acDd" passes the candidate test for "abcd.x" and yields its "x" |
| FieldExtractor.IsCandidateAsWritten | src/mongo/db/index/unified_field_extractor.h:260-262 | the candidate test as written, an object or array whose name has the prefix's signature; PrefixMatchedBySignatureOnly shows it admits a differently named element |
| FieldExtractor.ProbeAsWritten | src/mongo/db/index/unified_field_extractor.h:264-283 | the nested probe as written, flagging any walk that left the path unread; MissingPathFlaggedAsArray shows it flags a missing path |
| FieldExtractor.SignatureOnlyCorrected | src/mongo/db/index/unified_field_extractor.h:259-289 | with names compared, "acDd" is no candidate for "abcd.x" and the slot stays EOO |
| FieldExtractor.MissingPathFlaggedAsArray | src/mongo/db/index/unified_field_extractor.h:276-279 | in {a: {}} the path "a.b.c" meets no array yet is flagged as written; the corrected flag stays down (the missing-path finding) |
| FieldExtractor.FilledNestedUpdate | src/mongo/db/index/unified_field_extractor.h:286-288 | updating one slot changes the filled nested count by that slot's change alone |
| FieldExtractor.NoneFilled | src/mongo/db/index/unified_field_extractor.h:220-223 | cleared slots count no filled nested slot |
| FieldExtractor.FilledNestedAgree | src/mongo/db/index/unified_field_extractor.h:286-288 | slots equal at every nested position give the same count |
| FieldExtractor.MatchTopLevel | src/mongo/db/index/unified_field_extractor.h:232-257 | an element fills exactly the top-level slot holding its name, via the signature table or its collision list, and the count grows by one exactly then |
| FieldExtractor.ProbeSlot | src/mongo/db/index/unified_field_extractor.h:264-289 | one indexed nested slot takes one step for the element, and the count grows exactly when the slot becomes filled |
| FieldExtractor.MatchNested | src/mongo/db/index/unified_field_extractor.h:259-292 | every nested slot takes one step for an object or array element, top-level slots are untouched, and the count follows the filled slots |
| FieldExtractor.ScanElement | src/mongo/db/index/unified_field_extractor.h:226-293 | one element keeps the scan invariant: top-level slots hold the last element of their name, nested slots follow their fill, the count matches |
| FieldExtractor.Scan | src/mongo/db/index/unified_field_extractor.h:218-294 | after clearing and one pass over the document, every slot, flag and the count are as the scan invariant describes |
| FieldExtractor.UnifiedFieldExtractor.Extract | src/mongo/db/index/unified_field_extractor.h:218-294 | the slots, flags and count after extract are those the scan invariant gives for the document; the scan uses the corrected candidate test (names compared, not signatures alone) and the corrected array flag, the intended half of the two extractor findings |
| FieldExtractor.UnifiedFieldExtractor.Get | src/mongo/db/index/unified_field_extractor.h:306-311 | a slot in range answers its element; one out of range answers EOO |
| FieldExtractor.UnifiedFieldExtractor.SlotValues | src/mongo/db/index/unified_field_extractor.h:330-332 | the element of every listed slot, in order (see also lines 352-354) |
| FieldExtractor.UnifiedFieldExtractor.GetIndexFields | src/mongo/db/index/unified_field_extractor.h:319-333 | an unknown index gives nothing; a known one the elements of its slots, in order |
| FieldExtractor.UnifiedFieldExtractor.GetDigestFields | src/mongo/db/index/unified_field_extractor.h:341-355 | an unknown digest gives nothing; a known one the elements of its slots, in order |
| FieldExtractor.UnifiedFieldExtractor.HasArrayAlongPath | src/mongo/db/index/unified_field_extractor.h:408-410 | true exactly for a flagged slot in range |
| FieldExtractor.UnifiedFieldExtractor.CollisionCount | src/mongo/db/index/unified_field_extractor.h:413-419 | the total over the collision lists equals the paths that share their signature with an earlier one |
| ShardKeyLocks.AcquireEffect | src/mongo/db/s/shard_key_lock.cpp:103-121 | acquiring gives (ns, key) an entry with one more reference, the existing one's allocation if there was one, and leaves every other pair's entry as it was |
| ShardKeyLocks.AcquireSharesEntry | src/mongo/db/s/shard_key_lock.cpp:110-120 | the first holder of a pair gets a new allocation distinct from every stored entry; later holders share the stored one, so they lock the same mutex |
| ShardKeyLocks.ReleaseEffect | src/mongo/db/s/shard_key_lock.cpp:123-149 | releasing only removes or decrements (ns, key) and leaves every other pair's entry as it was |
| ShardKeyLocks.AcquirePreserves | src/mongo/db/s/shard_key_lock.cpp:103-121 | acquiring keeps the table well formed: every reference count equals the number of holders of its pair, with one more holder of (ns, key) |
| ShardKeyLocks.ReleasePreserves | src/mongo/db/s/shard_key_lock.cpp:137-148 | releasing keeps the table well formed with one holder fewer: an entry is erased when its count reaches 0 and a namespace map when it becomes empty |
| ShardKeyLocks.ReleaseUndoesAcquire | src/mongo/db/s/shard_key_lock.cpp:103-149 | a release right after an acquire of the same pair gives back the table it started from |
| ShardKeyLocks.ReleaseUnknown | src/mongo/db/s/shard_key_lock.cpp:126-135 | releasing a namespace or key the table does not hold changes nothing |
| ShardKeyLocks.AcquireIn | src/mongo/db/s/shard_key_lock.cpp:107-120 | the update of the map computes the acquired table and the entry the holder locks |
| ShardKeyLocks.ReleaseIn | src/mongo/db/s/shard_key_lock.cpp:126-148 | the update of the map computes the released table |
| ShardKeyLocks.LockTable.constructor | src/mongo/db/s/shard_key_lock.cpp:41-43 | the global table starts empty with no holders |
| ShardKeyLocks.LockTable.GetOrCreate | src/mongo/db/s/shard_key_lock.cpp:103-121 | the table becomes the acquired one, the holder count of the pair grows by one, and the invariant is kept |
| ShardKeyLocks.LockTable.Release | src/mongo/db/s/shard_key_lock.cpp:123-149 | the table becomes the released one, the holder count of the pair drops by one, and the invariant is kept |
| ShardKeyLocks.ShardKeyLock.Acquire | src/mongo/db/s/shard_key_lock.cpp:45-63 | an empty shard key gets no lock and leaves the table alone; otherwise a new valid holder of the pair's entry, with the table acquired |
| ShardKeyLocks.ShardKeyLock.Locked | src/mongo/db/s/shard_key_lock.cpp:65-68 | a new holder records its namespace, key and entry and is valid |
| ShardKeyLocks.ShardKeyLock.Destroy | src/mongo/db/s/shard_key_lock.cpp:70-76 | a valid holder releases its entry and drops out of the holders; an invalid one changes nothing |
| ShardKeyLocks.ShardKeyLock.Move | src/mongo/db/s/shard_key_lock.cpp:78-84 | the new holder takes over the namespace, key, entry and validity; the source becomes invalid |
| ShardKeyLocks.ShardKeyLock.MoveAssign | src/mongo/db/s/shard_key_lock.cpp:86-101 | self-assignment changes nothing; otherwise a valid holder first releases its own entry, then takes over the other's, which becomes invalid |
| RepairIndexEntry.DoubleToLong | src/mongo/db/commands/repair_index_entry_cmd.cpp:139 | the result is a 64-bit integer: NaN reads as 0, infinities saturate at the bound of their sign, and finite values keep their sign |
| RepairIndexEntry.DoubleTruncatesTowardZero | src/mongo/db/commands/repair_index_entry_cmd.cpp:139 | inside the 64-bit range a double is truncated toward zero: the magnitude is the largest integer not above the double's magnitude |
| RepairIndexEntry.SafeNumberLong | src/mongo/db/commands/repair_index_entry_cmd.cpp:139 | 32- and 64-bit integers are read as they are, doubles through the conversion above, every other value as 0 |
| RepairIndexEntry.ParseAccepted | src/mongo/db/commands/repair_index_entry_cmd.cpp:112-157 | an accepted command names a collection and an index, has action insert or remove, gives _id or indexKey, and a remove by indexKey alone carries a recordId |
| RepairIndexEntry.ParseRejectsFirstMiss | src/mongo/db/commands/repair_index_entry_cmd.cpp:112-157 | the checks run in the source's order: a command is refused for the first requirement it misses, and accepted exactly when it misses none |
| RepairIndexEntry.Cursor | src/mongo/db/commands/repair_index_entry_cmd.cpp:319-321 | the cursor sees entries under the key only, and exactly the entries under the key (see also lines 393-395) |
| RepairIndexEntry.KeyRun | src/mongo/db/commands/repair_index_entry_cmd.cpp:401 | the leading run of entries under the key ends at the first entry under another key |
| RepairIndexEntry.KeyRunOfCursor | src/mongo/db/commands/repair_index_entry_cmd.cpp:320 | on a cursor bounded to the key, the run and the scan cover every entry (see also line 394) |
| RepairIndexEntry.KeyRunExtends | src/mongo/db/commands/repair_index_entry_cmd.cpp:401 | a run that continues at position m is longer than m |
| RepairIndexEntry.KeyRunStops | src/mongo/db/commands/repair_index_entry_cmd.cpp:401 | a run that breaks at position m has length m |
| RepairIndexEntry.FindKey | src/mongo/db/commands/repair_index_entry_cmd.cpp:300-313 | the loop over the generated keys finds the given key exactly when the document generates it |
| RepairIndexEntry.ScanForLoc | src/mongo/db/commands/repair_index_entry_cmd.cpp:319-332 | the scan reports an entry at the record id exactly when one of the inspected entries is at it |
| RepairIndexEntry.CountMatches | src/mongo/db/commands/repair_index_entry_cmd.cpp:397-411 | the scan counts the entries under the key up to and including the first one at the record id, says whether it met it, and remembers the first entry's record id |
| RepairIndexEntry.DoInsert | src/mongo/db/commands/repair_index_entry_cmd.cpp:262-364 | the insert loops decide exactly the insert outcome: no document, no keys, several keys without indexKey, a key not generated, an entry already present, the dry run, or the insert |
| RepairIndexEntry.DoRemove | src/mongo/db/commands/repair_index_entry_cmd.cpp:366-483 | the remove scan decides exactly the remove outcome: live document, entry not at the record id, ambiguous entries with their count, not found, undeterminable key, the dry run, or the removal |
| RepairIndexEntry.Run | src/mongo/db/commands/repair_index_entry_cmd.cpp:106-259 | the reply is the command's outcome for the server state, and the shard-key lock taken for the action is released, leaving the lock table as it was |
| RepairIndexEntry.Admit | src/mongo/db/commands/repair_index_entry_cmd.cpp:158-194 | the checks run before the lock: parse, not primary, database, collection and index, in that order; ParseAccepted, ParseRejectsFirstMiss and DryRunPredictsWrite state them |
| RepairIndexEntry.InsertOutcome | src/mongo/db/commands/repair_index_entry_cmd.cpp:270-364 | what doInsert decides; DoInsert is proved to compute it, and InsertOnlyMissing and InsertNeedsDocument state that an insert uses a generated key at a record id with no entry, and only for an existing document |
| RepairIndexEntry.RemoveOutcome | src/mongo/db/commands/repair_index_entry_cmd.cpp:366-483 | what doRemove decides; DoRemove is proved to compute it, and RemoveByKeyOnlyOrphans, RemoveByKeyWithoutRecordId and RemoveRefusesLiveDocument state when a removal by indexKey is allowed |
| RepairIndexEntry.InsertOnlyMissing | src/mongo/db/commands/repair_index_entry_cmd.cpp:275-339 | an insert (real or dry run) uses a key the document generates and a record id with no entry under that key; a refusal for an existing entry means the entry is there |
| RepairIndexEntry.RemoveByKeyOnlyOrphans | src/mongo/db/commands/repair_index_entry_cmd.cpp:379-435 | removing by indexKey happens only when the document is gone, and the entry removed is in the index |
| RepairIndexEntry.CursorLength | src/mongo/db/commands/repair_index_entry_cmd.cpp:393-411 | the cursor holds as many entries as the index has under the key |
| RepairIndexEntry.RemoveByKeyWithoutRecordId | src/mongo/db/commands/repair_index_entry_cmd.cpp:413-435 | without a usable record id, no entry under the key is not found, several are ambiguous (code 50000 with their count), and exactly one is removed at its own record id |
| RepairIndexEntry.DryRunPredictsWrite | src/mongo/db/commands/repair_index_entry_cmd.cpp:334-339 | a dry run refuses exactly when the real run refuses, for the same reason, and otherwise reports the entry the real run writes (see also lines 460-465) |
| RepairIndexEntry.WritesOnlyForReal | src/mongo/db/commands/repair_index_entry_cmd.cpp:334-363 | only a run that is not a dry run writes to the index (see also lines 460-482) |
| RepairIndexEntry.RunWritesOnlyForReal | src/mongo/db/commands/repair_index_entry_cmd.cpp:106-259 | a refused command or a dry run never writes |
| RepairIndexEntry.InsertNeedsDocument | src/mongo/db/commands/repair_index_entry_cmd.cpp:209-225 | an insert for a document missing from the collection is refused (see also lines 275-278) |
| RepairIndexEntry.RemoveRefusesLiveDocument | src/mongo/db/commands/repair_index_entry_cmd.cpp:379-383 | removing by indexKey while the document still exists is refused with code 50003 |
| RocksBuffers.StringBuffer.Clear | src/mongo/db/modules/rocks/src/rocks_index_optimized.h:53 | clearing empties the buffer and keeps its storage (see also line 59) |
| RocksBuffers.StringBuffer.Reserve | src/mongo/db/modules/rocks/src/rocks_index_optimized.h:65-70 | growing the storage keeps the contents |
| RocksBuffers.StringBuffer.Append | src/mongo/db/modules/rocks/src/rocks_index_optimized.h:99-100 | appending puts the bytes at the end; the storage grows only when they do not fit |
| RocksBuffers.KeyString.ResetToKey | src/mongo/db/modules/rocks/src/rocks_index_optimization_patch.cpp:81 | a reset replaces the previous encoding and type bits with the new key's (see also line 125) |
| RocksBuffers.IndexBufferManager.constructor | src/mongo/db/modules/rocks/src/rocks_index_optimized.h:74-78 | the manager starts with no KeyString, version V0, and empty buffers with 256 and 64 bytes reserved |
| RocksBuffers.IndexBufferManager.GetKeyString | src/mongo/db/modules/rocks/src/rocks_index_optimized.h:42-48 | the same KeyString is handed back while the version stays; a new one is made for a different version or when there is none |
| RocksBuffers.IndexBufferManager.GetPrefixedKeyBuffer | src/mongo/db/modules/rocks/src/rocks_index_optimized.h:52-55 | the prefixed-key buffer is handed back empty, with its storage kept |
| RocksBuffers.IndexBufferManager.GetValueBuffer | src/mongo/db/modules/rocks/src/rocks_index_optimized.h:58-61 | the value buffer is handed back empty, with its storage kept |
| RocksBuffers.IndexBufferManager.ReserveCapacity | src/mongo/db/modules/rocks/src/rocks_index_optimized.h:64-71 | each buffer keeps its contents and ends with at least the capacity asked for, and never less than it had |
| RocksBuffers.BuildPrefixedKey | src/mongo/db/modules/rocks/src/rocks_index_optimized.h:90-101 | the buffer ends up holding exactly the prefix followed by the key, whatever it held before, with storage grown at most to fit |
| RocksBuffers.BuildPrefixedKeyInline | src/mongo/db/modules/rocks/src/rocks_index_optimized.h:106-117 | the same from raw key bytes and a size: exactly the prefix followed by the first size bytes |
| RocksIndex.MakePrefixedKey | src/mongo/db/modules/rocks/src/rocks_index_optimization_patch.cpp:36-47 | the copy returned is the prefix followed by the key, and the thread's buffer holds the same bytes |
| RocksIndex.RocksStandardIndex.constructor | src/mongo/db/modules/rocks/src/rocks_index_optimization_patch.cpp:68-69 | a new standard index has its prefix and version, no entries and a storage size of 0 |
| RocksIndex.RocksStandardIndex.Insert | src/mongo/db/modules/rocks/src/rocks_index_optimization_patch.cpp:68-105 | a key failing the size check is refused and nothing changes; a write conflict changes no entry; otherwise the prefixed key is stored with its type bits (empty when all zero) and the storage size grows by its length |
| RocksIndex.RocksStandardIndex.Unindex | src/mongo/db/modules/rocks/src/rocks_index_optimization_patch.cpp:196-226 | a key failing the size check is ignored; otherwise the prefixed key is deleted and the storage size shrinks by its length |
| RocksIndex.Locs | src/mongo/db/modules/rocks/src/rocks_index_optimization_patch.cpp:159-174 | the record ids of a stored list, in order |
| RocksIndex.InsertionPoint | src/mongo/db/modules/rocks/src/rocks_index_optimization_patch.cpp:165-169 | a new record id goes before the first larger one, or at the end (see also lines 180-184) |
| RocksIndex.MergeLoc | src/mongo/db/modules/rocks/src/rocks_index_optimization_patch.cpp:156-174 | the loop stops when the record id is already listed, and otherwise copies the list with the record id put before the first larger one, if any |
| RocksIndex.MergeKeepsSorted | src/mongo/db/modules/rocks/src/rocks_index_optimization_patch.cpp:156-184 | on a sorted list without the record id, the merge keeps the list sorted and adds exactly that record id |
| RocksIndex.InsertKeepsSorted | src/mongo/db/modules/rocks/src/rocks_index_optimization_patch.cpp:165-169 | placing an entry between smaller and larger record ids keeps the list strictly sorted |
| RocksIndex.InsertAddsLoc | src/mongo/db/modules/rocks/src/rocks_index_optimization_patch.cpp:165-172 | placing an entry adds exactly its record id to the list's record ids |
| RocksIndex.LocsOfInsert | src/mongo/db/modules/rocks/src/rocks_index_optimization_patch.cpp:165-172 | the record ids after placing an entry are those before, the new one, then those after |
| RocksIndex.LocsSplit | src/mongo/db/modules/rocks/src/rocks_index_optimization_patch.cpp:159-174 | the record ids of a list are those of its two halves |
| RocksIndex.LocsAppend | src/mongo/db/modules/rocks/src/rocks_index_optimization_patch.cpp:159-174 | the record ids of a concatenation are the concatenation of the record ids |
| RocksIndex.WriteUnique | src/mongo/db/modules/rocks/src/rocks_index_optimization_patch.cpp:139-188 | the value written after the read is exactly the unique-write outcome |
| RocksIndex.UniqueWrite | src/mongo/db/modules/rocks/src/rocks_index_optimization_patch.cpp:139-188 | the unique insert after its read; UniqueWriteKeepsSorted, UniqueWriteIdempotent and WriteUnique state that lists stay sorted, the id is present exactly on success and a repeated insert changes nothing |
| RocksIndex.UniqueWriteKeepsSorted | src/mongo/db/modules/rocks/src/rocks_index_optimization_patch.cpp:139-188 | every stored list stays sorted, the key's list holds the record id exactly when the write succeeded, and no other key changes |
| RocksIndex.SortedListsUpdate | src/mongo/db/modules/rocks/src/rocks_index_optimization_patch.cpp:150 | storing a sorted non-empty list keeps every stored list sorted (see also line 187) |
| RocksIndex.UniqueWriteIdempotent | src/mongo/db/modules/rocks/src/rocks_index_optimization_patch.cpp:159-163 | inserting the same record id again succeeds and changes nothing |
| RocksIndex.RocksUniqueIndex.constructor | src/mongo/db/modules/rocks/src/rocks_index_optimization_patch.cpp:113-114 | a new unique index has its prefix and version, no entries and a storage size of 0 |
| RocksIndex.RocksUniqueIndex.Insert | src/mongo/db/modules/rocks/src/rocks_index_optimization_patch.cpp:113-189 | a failing size check or write conflict changes nothing; past them the storage size grows by the prefixed key's length, a read error is returned, and otherwise the store becomes the unique write of the record id |

## Left out

- BsonCodec.DecodeDocument: a negative length field moves the Python cursor backwards. The model reports a decoding error instead of following it.
- BsonCodec.BsonEncode: a value of an unsupported Python type (a set, a `bytearray`, a `datetime`, any other object) and the `ValueError("Unsupported BSON type")` it raises (buildscripts/benchmarks/stability_benchmark_v7.py:108-109) lie outside the model's closed value type. The model encodes only the types the encoder names, so this error path is not modelled.
- Strings are byte sequences: there is no UTF-8 encoding or validation, and a character of a name stands for one byte.
- Doubles are carried as their 64-bit pattern in the codec and the repair command. In parameter settings they are carried as their value truncated toward zero, and a NumberDecimal as its value rounded to the nearest integer. There is no floating-point or decimal arithmetic, and NaN or infinite settings are not modelled.
- LatencyStats.CalcStats: latencies are integers. The mean, median, standard deviation and rounding are not modelled. `int(n*0.05)`, `int(n*0.95)` and `int(n*0.99)` are modelled as `n/20`, `19*n/20` and `99*n/100`.
- DottedPath.ExtractAllElementsAlongPath: `BSONElementSet`'s ordering and deduplication are modelled as a sequence in insertion order.
- ShardKeyLocks, RepairIndexEntry and DottedPath.CompareObjectsAccordingToSort: `woCompare` is replaced by structural equality and by a comparison passed in as a parameter.
- WireProtocol.InsertBody: documents are assumed present. A `None` document is not modelled.
- CatalogCoalescer and ConfigCoalescer: waiting on the condition variable, the coalescing window, timeouts and leader promotion are not modelled. `Arrive` and `Complete` (or `LeaderFinish`) are the two synchronous steps around the wait.
- RepairIndexEntry.Run: the status of a failed index insert and the write-conflict retry loop are not modelled. The replication coordinator is reduced to its `canAcceptWritesFor` answer, the flag `env.primary`. A missing access method is folded into the list of index names.
- ConfigCoalescer: a follower below the leader's version receives the leader's result, which lacks the chunks between the two versions (`FollowerBelowLeaderMissesChunks`). The model keeps this behaviour as written. The source does not show which remedy is intended: storing `newMinVersion` changes only the gap check, and the leader's query already runs from its own version. The config server's answer is reduced to `ChunksSince`, the stored versions at or above the requested one.
- Mutexes, threads, atomics and thread-local storage are not modelled. Each class is one thread's view of the shared state.
- RepairIndexEntry: `Env.keysOf` is a sequence, where the source's key generator returns an ordered, deduplicated `BSONObjSet`.
- CoalescerSimulations: `peakConcurrentRequests` is left out. It is the test's compare-and-swap peak over concurrent threads (src/mongo/s/catalog/large_scale_coalescer_test.cpp:140, 175-177).
- The catalog coalescer's accessors `getStats`, `resetStats`, `isShutdown`, `activeGroupCount` and `waitingRequestCount` are not separate members. They are plain reads of the `stats`, `shutdown` and `groups` fields. `Stats::toBSON` and the floating-point `coalescingRate` are left out.
- VerifiedUpdateModel.VerifiedUpdate: `toBsonValue`, which `toBsonDocument` applies to every value, is the identity on the model's BSON values. Its codec-registry fallback (`BsonDocumentWrapper`) for other Java types is not modelled, nor are `Number` subclasses other than `Integer`, `Long` and `Double`. `isLocked` and `getIntegrityHash` are the `IsLocked` predicate and the `integrityHash` field.
- DecimalCounterModel.DecimalCounter.Increment: the value returned by postfix `++` is not modelled.
- DecimalCounterModel.DecimalCounter.Increment: the full buffer of eleven nines is excluded, because the source writes past its buffer there. `FullBufferRolloverOverflows` exhibits that state (see Findings).
- Socket I/O: `recv` is an abstract stream of chunks, and `sendall` appends to a log of sent frames.
- XXH64 and the other hashes are a function parameter `H`.
- RocksIndex: the KeyString encoding and the RocksDB write batch are parameters. Registering a write with the transaction is a flag.
- CoalescerParameters.IntFromString: `std::stoi`'s `out_of_range` exception is not modelled beyond the range check that follows it.
- ShardKeyLocks: the `uint32` reference count is unbounded, so its wrap-around is not modelled. The `nss()` and `shardKeyValue()` accessors are plain field reads.
- FieldExtractor.UnifiedFieldExtractor: `getIndexSlots`, `getDigestSlots`, `totalUniqueFields`, `topLevelCount`, `nestedCount`, `extractedCount`, `indexCount`, `digestCount`, `getFieldName` and `isFinalized` are plain reads of the class's fields.
- FieldExtractor.UnifiedFieldExtractor.GetIndexFields: a slot number beyond the slot table reads as absent, where the C++ indexes without a check.
- FieldExtractor.UnifiedFieldExtractor.Extract: the nested probe uses the uncached walk `AlongPath`. The cache's staleness is a finding of its own.
- The benchmark's `run_cmd`, `get_last_error`, argument parsing, reporting and the scenarios that drive the client are left out.
- RepairIndexEntry.SafeNumberLong: `safeNumberLong` is defined in bsonelement.cpp, which is not part of this model. Its behaviour (truncation toward zero, saturating at the 64-bit bounds, NaN as 0) is modelled from its documented contract. A double of exactly 2^63 is modelled as saturating to the largest 64-bit value; the C++ cast of that value is undefined behaviour, so the model fixes one outcome the source does not promise.

## Findings

| source | as written | input that shows it | evidently intended | confidence | as-written member | corrected member |
|---|---|---|---|---|---|---|
| src/mongo/db/index/unified_field_extractor.h:260-265 | a nested field's top-level prefix is recognised by its 32-bit signature alone, with no name comparison | the field `abcd.x` registered, and the document `{acDd: {x: 1}}`, whose top-level name has the same signature | compare the element's name with the prefix as well, as the top-level match does | high (not executed) | FieldExtractor.PrefixMatchedBySignatureOnly | FieldExtractor.SignatureOnlyCorrected |
| src/mongo/db/index/unified_field_extractor.h:276-279 | the array flag is set whenever the sub-path is not fully consumed, including when a component is simply missing | the field `a.b.c` and the document `{a: {}}` | flag only a walk that stopped at an array | high (not executed) | FieldExtractor.MissingPathFlaggedAsArray | FieldExtractor.FlagMeansArray |
| src/mongo/db/s/config/config_query_coalescer.cpp:80-90 | the range check is applied to `numberInt()`, which truncates a 64-bit value to 32 bits | `NumberLong(4294967301)` is accepted as 5 | check the full value before narrowing | high (not executed) | CoalescerParameters.IntParameterTruncates | CoalescerParameters.CheckIntMeaning |
| src/mongo/util/itoa.h:127-129 | the rollover moves every digit one place right and grows the counter by one byte with no capacity check | a counter holding eleven nines, which fills its 11-byte buffer, incremented once | never exceed the buffer: a wider buffer, or refuse to grow past it | high (not executed) | DecimalCounterModel.FullBufferRolloverOverflows | DecimalCounterModel.DecimalCounter.Increment |
| src/mongo/s/catalog/config_query_coalescer.cpp:144-178 | `executeAndDistribute` erases the group in the critical section that marks it done (lines 339-371), so a woken waiter never finds the shared result and returns its empty vector | 10 chunks, a leader and a joiner asking for them, the query succeeding: both receive no chunks | each waiter receives its filtered share of the shared result | high (not executed) | CatalogCoalescer.WakeLosesChunks | CatalogCoalescer.Coalescer.Complete |
| src/mongo/db/bson/dotted_path_support.cpp:210-221 | the per-thread cache is keyed by the document's address alone, so a different document at a reused address is answered from the old entries | `a.b` cached for `{a: {b: 1}}`, then `{a: {b: 2}}` at the same address: the answer is the element `b: 1` | invalidate the cache whenever the document changes, not only its address | medium (not executed) | DottedPath.StaleCacheAnswer | DottedPath.ServedFresh |
| src/mongo/db/catalog/document_integrity.cpp:30-46 | with the hash field first, only the other elements' bytes are hashed, while the other two paths and the header at document_integrity.h:21-22 hash the whole encoding of the document without the field | `{a: 1, b: "test"}` sealed with its own hash first, as document_integrity_test.cpp:59-73 and 160-170 do: verification fails unless XXH64 collides; every update sealed by VerifiedUpdate.lock fails likewise (VerifiedUpdateModel.LockedUpdateOnServer) | the hash of the whole encoding without the hash field on every path, the convention of the header, the tests, the other two paths and VerifiedUpdate (under it, VerifiedDocument's element-bytes lock would need the whole encoding too) | high (not executed) | DocumentIntegrity.HashFirstVersusContent | DocumentIntegrity.ComputeContentHash |
