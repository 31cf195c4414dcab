# libnop container codecs in Dafny

This project models the container codecs of libnop, a C++ serialisation
library. These are the `Encoding<>` specialisations for `std::vector`,
`std::list`, `std::set` and `std::unordered_set`. Each specialisation picks
one of two record layouts from the static class of its element type:

- **Array** (element type not integral): the tag, the element count through
  the size sub-codec, then every element through its own codec.
- **Binary** (element type integral): the tag, the byte length
  (count × sizeof(T)) through the size sub-codec, then the raw fixed-width
  images. `std::vector` reads and writes them in one block. The other three
  shapes go element by element.

Each specialisation has five operations: `Prefix`, `Size`, `Match`,
`WritePayload` and `ReadPayload`. They are modelled once, generically, and
each shape instantiates them with its insertion policy: `push_back` for
the sequences, `insert` for the sets.

Modules:

- `Wire`: bytes, error codes, the status and result types, tags, the
  one-byte tag size, and `Flatten`.
- `Streams`: the bounded writer and the cursor-based reader (classes), plus
  `Emit`, the specification of a run of writes that stops at the first
  failure.
- `Codecs`: the abstract collaborators.
  - `Codec<T>`: an element codec, or the size codec at `nat`.
  - `Scalar<T>`: the raw image of an integral type.
  - Their validity contracts.
  - `Values`, the reinterpretation of bytes as elements.
- `Containers`: the destination container (a class with `Clear`, `Add`,
  `Resize` and `Overwrite`), the insertion policies, and `Filled`, the
  contents after clearing and adding.
- `Elements`: the loops shared by the strategies, which are writing each
  element and reading `count` elements into the container. Also
  `DecodeElements`, the specification of that read.
- `ArrayStrategy` and `BinaryStrategy`: the two layouts. Each has its pure
  specification (`Pieces`/`Payload`/`Size`/`Read`) and the imperative
  methods proved against it.
- `Encoding`: the four shapes, the tag choice, and the shape-level round
  trips and error properties.
- `Scenarios`: concrete collaborators and worked records.
  - A base-128 size codec. For counts below 128 it gives the single byte
    that libnop's one-byte form carries for them. It does not model
    libnop's wider integer forms.
  - A little-endian `u16`.
  - A one-byte enumeration.
  - The records these give, including the short-source record from the
    Findings table.

The reader's availability check `Ensure(n)` succeeds exactly when at least
`n` bytes remain. The Binary reads pass it what the library passes, the
element count (`BinaryStrategy.ElementCount`). The model also defines the
byte-length guard (`BinaryStrategy.ByteLength`) so that the corrected
behaviour can be stated and proved. Every round trip and every rejection
lemma (`RejectsPartialElement`, `RejectsShortSource`,
`RejectedKeepsDestination`, `LengthFailureKeepsDestination`) holds for both
guards. `ByteGuardFailsCleanly` holds only for the byte-length guard; the
short-source scenarios show it failing for the element-count guard.

## Model

| member | source | states |
|---|---|---|
| Encoding.Prefix | include/nop/base/vector.h:55-57 | The tag is Array or Binary, and it is Binary exactly for an integral element type; the value is not consulted |
| Encoding.Match | include/nop/base/vector.h:68-70 | A record tag is accepted exactly when it is the tag this codec's own writes start with: Array for a non-integral element, Binary for an integral one (vector.h:131-133, list.h:129-131, set.h:70-72) |
| Encoding.Size | include/nop/base/vector.h:59-66 | The size pre-pass of the element class's strategy (vector.h:125-129 for an integral element), never less than the tag it starts with |
| Encoding.TagSelection | include/nop/base/list.h:56-71 | The tag of a container never depends on its contents (the empty container included), and Match accepts exactly that tag and no other |
| Encoding.SizeAgreement | include/nop/base/set.h:61-89 | For every shape and element class, Size equals the one-byte tag plus the bytes of the payload. A payload write succeeds exactly when the payload fits the room left, and then emits exactly the payload |
| Encoding.SequenceRoundTrip | include/nop/base/vector.h:72-168 | Reading back what a vector or list write emitted, at any cursor (past the tag and any earlier fields) and whatever bytes follow, succeeds, consumes exactly the payload, and yields the written elements in order, whatever the destination held before |
| Encoding.SetRoundTrip | include/nop/base/set.h:74-110 | For set and unordered_set, reading back a written payload at any cursor succeeds and consumes exactly the payload. The result has the same members as the written set, has no duplicates, and has exactly as many elements when the written ones were distinct |
| Encoding.LengthFailureKeepsDestination | include/nop/base/list.h:155-158 | A length field that does not decode ends the read with that field's error; the cursor has not moved and the destination is unchanged |
| Encoding.DestinationReset | include/nop/base/list.h:96-99 | A successful read leaves the same contents whatever the destination held before, so no stale element survives |
| Encoding.WritePayload | include/nop/base/set.h:74-89 | The writer receives exactly the pieces of the chosen strategy in order, up to and excluding the first that does not fit; the status is that write's failure, or Ok |
| Encoding.Read | include/nop/base/vector.h:88-168 | ReadPayload as a function of the destination's old contents, the source and the cursor: the Array read for a non-integral element, the bulk Binary read for a vector and the per-element Binary read otherwise. The cursor it returns never moves back and never passes the end of the source |
| Encoding.ReadPayload | include/nop/base/set.h:286-316 | The status, the cursor and the destination contents are those `Encoding.Read` gives for the shape |
| ArrayStrategy.SumSizes | include/nop/base/vector.h:61-65 | The `std::accumulate` fold of the element sizes from a start value: it never falls below its start and returns it for no elements |
| ArrayStrategy.Size | include/nop/base/vector.h:59-66 | The Array size pre-pass: the tag, the count field and the fold of element sizes, so at least the tag and the count field |
| ArrayStrategy.SumSizesIsEncodedLength | include/nop/base/vector.h:62-65 | The accumulated element sizes equal the number of bytes the elements encode to |
| ArrayStrategy.SizeAgreement | include/nop/base/vector.h:59-66 | The Array size pre-pass counts exactly the tag plus the count field and all element encodings |
| ArrayStrategy.Read | include/nop/base/vector.h:88-112 | The Array ReadPayload: a failing count field returns its error with the destination untouched; otherwise the destination is cleared and filled by `DecodeElements` from just past the field. The cursor stays within the source. Nothing is reserved (vector.h:96-100): whatever count the field claims, the destination ends with no more elements than the bytes the read moved past after the field, so no more than the bytes that remained there |
| ArrayStrategy.RoundTrip | include/nop/base/list.h:90-110 | Decoding an Array payload at any cursor, with any trailing bytes, consumes exactly the payload and adds the written elements in order under the shape's policy |
| ArrayStrategy.Pieces | include/nop/base/vector.h:72-86 | The writes of the Array WritePayload, in order: the count field, then one encoding per element in iteration order |
| ArrayStrategy.Payload | include/nop/base/vector.h:72-86 | The bytes of a successful Array write: the count field followed by the element encodings back to back |
| ArrayStrategy.Write | include/nop/base/vector.h:72-86 | Writes the count and then each element. The first write that does not fit ends it, and nothing after it is written |
| ArrayStrategy.ReadInto | include/nop/base/vector.h:88-112 | A size-field failure returns before the destination is touched. Otherwise the destination is cleared, and elements are decoded and added until `count` are read or one fails; the outcome is `ArrayStrategy.Read` |
| BinaryStrategy.Needed | include/nop/base/vector.h:158-164 | What the availability check is asked for: the element count under the library's guard (vector.h:162, list.h:167, set.h:167, set.h:301), the byte length under the byte guard. It is never less than the count and never more than count × width |
| BinaryStrategy.Images | include/nop/base/vector.h:144 | The raw images of the elements back to back, as the bulk write sends them from the vector's storage |
| BinaryStrategy.LoopPieces | include/nop/base/list.h:133-150 | The writes of the per-element Binary WritePayload: the byte length, then one image per element in iteration order |
| BinaryStrategy.BulkPieces | include/nop/base/vector.h:135-145 | The writes of the vector's Binary WritePayload: the byte length, then all the images as one write |
| BinaryStrategy.Payload | include/nop/base/vector.h:135-145 | The bytes of a successful Binary write: the size field of count × width, then the images |
| BinaryStrategy.ImagesLayout | include/nop/base/vector.h:38-46 | The raw images of n elements take n × width bytes and reinterpret back to the elements |
| BinaryStrategy.SameBytes | include/nop/base/list.h:133-150 | Writing the images one at a time (list, set) emits the same bytes as the single block write of the vector |
| BinaryStrategy.Size | include/nop/base/vector.h:125-129 | The Binary size pre-pass: tag, the size field of count × width, and count × width bytes, so at least one byte per element |
| BinaryStrategy.SizeAgreement | include/nop/base/vector.h:125-129 | The Binary size pre-pass, tag plus the size field of count × width plus count × width, is the tag plus the payload |
| BinaryStrategy.ReadHeader | include/nop/base/vector.h:150-164 | An accepted header leaves at least the guard's demand (the count for the library, count × width for the byte guard) in the source, and the cursor is past the length field |
| BinaryStrategy.LoopRead | include/nop/base/list.h:152-183 | The per-element Binary ReadPayload: a rejected header returns its error with the destination untouched; otherwise the destination is cleared and filled by raw element reads (`DecodeElements` over `AsCodec`). The cursor stays within the source |
| BinaryStrategy.BulkRead | include/nop/base/vector.h:147-168 | The bulk Binary ReadPayload: a rejected header returns its error with the vector untouched; otherwise `BulkBody`. The cursor stays within the source |
| BinaryStrategy.BulkBody | include/nop/base/vector.h:166-167 | After the checks: when count × width bytes remain, the vector becomes the values read from them and the cursor moves past them; otherwise the read fails with ReadLimitReached, the cursor stays and the vector is left resized to count |
| BinaryStrategy.RejectsPartialElement | include/nop/base/vector.h:155-156 | A byte length that is not a multiple of the width fails with InvalidContainerLength just past the length field, and the destination is unchanged |
| BinaryStrategy.RejectsShortSource | include/nop/base/list.h:163-169 | When the source holds less than the guard demands, the read fails with ReadLimitReached before the destination is touched |
| BinaryStrategy.RejectedKeepsDestination | include/nop/base/set.h:294-303 | Every header rejection leaves the destination as it was; a changed destination implies an accepted header |
| BinaryStrategy.LengthFieldAt | include/nop/base/vector.h:150-153 | In a written Binary payload at any cursor, the length field decodes to count × width, and the images, which fit in what remains, follow it |
| BinaryStrategy.AcceptedLength | include/nop/base/vector.h:155-164 | A length field of `count` whole elements with at least their bytes left after it passes the divisibility check and the availability check under either guard |
| BinaryStrategy.HeaderOfPayload | include/nop/base/set.h:133-167 | The header of a written Binary payload, at any cursor, is accepted under either guard with the written element count, and the images follow it |
| BinaryStrategy.LoopRoundTrip | include/nop/base/set.h:152-182 | Reading back an element-by-element Binary payload at any cursor, under either guard, consumes exactly the payload and adds the written elements in order |
| BinaryStrategy.BulkRoundTrip | include/nop/base/vector.h:135-168 | Reading back a vector's Binary payload at any cursor, under either guard, gives exactly the written vector and consumes exactly the payload |
| BinaryStrategy.BulkSuccessOverwritesAll | include/nop/base/vector.h:166-167 | A successful bulk read leaves exactly `count` elements, the values of the `count` × width bytes after the length field, so nothing of the earlier contents is left |
| BinaryStrategy.BulkSuccessElement | include/nop/base/vector.h:166-167 | After a successful bulk read, element i is the value of the i-th width-byte slot after the length field |
| BinaryStrategy.BulkBodyOverwritesAll | include/nop/base/vector.h:166-167 | A successful body read of `count` elements at `start` yields exactly `count` elements, the values of the `count` × width bytes at `start` |
| BinaryStrategy.ValueInPlace | include/nop/base/vector.h:166-167 | Element i of the values of the `count` × width bytes at `start` is the value of the width-byte slot at `start + i` × width |
| BinaryStrategy.ScalarsDecode | include/nop/base/list.h:173-180 | When n × width bytes remain, reading n raw elements one at a time succeeds |
| BinaryStrategy.ByteGuardFailsCleanly | include/nop/base/vector.h:160-167 | With the byte-length guard, every failing Binary read, element by element or in bulk, leaves the destination exactly as it was |
| BinaryStrategy.WriteLoop | include/nop/base/list.h:133-150 | Writes the byte length and then each image, stopping at the first write that does not fit |
| BinaryStrategy.WriteBulk | include/nop/base/vector.h:135-145 | Writes the byte length and then all the images in one write |
| BinaryStrategy.ReadLength | include/nop/base/vector.h:150-164 | Reads the length field, checks divisibility and asks the reader to Ensure the guard's demand. The outcome and cursor are `ReadHeader`'s |
| BinaryStrategy.ReadLoop | include/nop/base/list.h:152-183 | After the header checks, clears the destination and adds each raw element read; the outcome is `LoopRead` |
| BinaryStrategy.ReadBulk | include/nop/base/vector.h:147-168 | After the header checks, resizes the vector to the count and reads all images over it; the outcome is `BulkRead` |
| BinaryStrategy.ReadImages | include/nop/base/vector.h:166-167 | Resizes the vector to `count` and reads `count` × width bytes over it. On a short source it fails with ReadLimitReached, leaving the resized vector; the outcome is `BulkBody` |
| Elements.AddNext | include/nop/base/vector.h:103-108 | One turn of the read loop. A failed element decode changes nothing and ends the run with its error. A successful one adds the element under the policy and moves past it |
| Elements.WriteEach | include/nop/base/vector.h:79-83 | Each element's bytes are written in order until the first write that does not fit, which ends the loop with its status |
| Elements.AddElements | include/nop/base/vector.h:101-109 | Adds decoded elements to the cleared destination until `count` are read or a decode fails; the cursor, status and contents are `DecodeElements`' |
| Elements.DecodeElements | include/nop/base/vector.h:102-109 | The element loop of ReadPayload as a function: up to n decodes from the cursor, stopping at the first failure with its error and the cursor before the failing element; the cursor never moves back or past the source |
| Elements.DecodeElementsBounded | include/nop/base/vector.h:96-109 | Each element decoded uses up at least one byte, so a run of element reads yields no more elements than the bytes it moved past, and no more than the bytes that remained where it began |
| Elements.DecodeElementsCount | include/nop/base/set.h:100-107 | A read of n elements yields at most n, extends what was already read, and succeeds exactly when it yields all n |
| Elements.DecodeElementsStep | include/nop/base/list.h:100-107 | One successful element decode moves the read to the next element with one fewer to go |
| Elements.DecodeEncoded | include/nop/base/list.h:81-107 | Decoding the encodings of ys, whatever follows, yields ys and stops exactly at their end |
| Elements.DecodeFirst | include/nop/base/list.h:101-104 | The first element of a run of encodings decodes from the run's start and leaves the cursor at the rest |
| Elements.FailureKeepsDecodedPrefix | include/nop/base/set.h:233-240 | A failing read of elements is a successful read of the ones before it, followed by a decode that fails with the reported error |
| Elements.AddedElements | include/nop/base/set.h:225-244 | Combines the above for a read of `count` elements into a cleared destination. The sequences get the decoded elements; the sets get them without duplicates and with the same members |
| Encoding.PolicyOf | include/nop/base/set.h:106 | How a shape adds a decoded element: `push_back` for vector and list (vector.h:108, list.h:179), `insert` for the two sets |
| Encoding.Payload | include/nop/base/set.h:74-89 | The bytes a successful payload write emits: the Binary payload for an integral element, the Array payload otherwise |
| Encoding.Pieces | include/nop/base/set.h:74-89 | The writes a shape's WritePayload performs: the bulk form for a vector of an integral element, the per-element Binary form for the other shapes, the Array form for a non-integral element |
| Containers.Place | include/nop/base/set.h:106 | Adding one element: `push_back` appends it; `insert` appends it only when it is absent |
| Containers.Filled | include/nop/base/list.h:99-107 | The contents after `clear()` and then adding the decoded elements one by one, in order, under the policy |
| Containers.FilledLength | include/nop/base/list.h:99-107 | Clearing and then adding xs never leaves more elements than were added |
| Containers.FilledAppend | include/nop/base/vector.h:101-108 | Clearing and then appending xs one by one leaves exactly xs |
| Containers.FilledInsert | include/nop/base/set.h:99-106 | Clearing and then inserting xs leaves no duplicates, the same members as xs, and no more elements than xs |
| Containers.FilledInsertDistinct | include/nop/base/set.h:171-178 | Inserting distinct elements keeps every one of them |
| Containers.FilledSnoc | include/nop/base/list.h:99-106 | Adding one more element to a cleared-and-filled container places it under the policy |
| Containers.Resized | include/nop/base/vector.h:166 | Resizing gives exactly n elements, keeps the old ones below the old length, and value-initialises the rest |
| Containers.Container.Clear | include/nop/base/list.h:99 | The container is empty afterwards and still satisfies its invariant |
| Containers.Container.Add | include/nop/base/set.h:106 | `push_back` appends; `insert` adds the element only when it is absent, so a set never holds a duplicate |
| Containers.Container.Resize | include/nop/base/vector.h:166 | The contents become `Resized(old, n, zero)`, and the invariant is kept |
| Containers.Container.Overwrite | include/nop/base/vector.h:167 | A same-length block read replaces every element, and the invariant is kept |
| Streams.Writer.Write | include/nop/base/vector.h:144 | A write that fits appends its bytes; one that does not fails with WriteLimitReached and writes nothing |
| Streams.Reader.Ensure | include/nop/base/vector.h:162 | Succeeds exactly when at least n bytes remain, and otherwise fails with ReadLimitReached |
| Streams.Reader.Read | include/nop/base/vector.h:167 | Reads n bytes and advances past them when they remain; otherwise fails with ReadLimitReached and does not move |
| Streams.Emit | include/nop/base/vector.h:74-85 | A run of writes that returns on the first failing status, into a sink with `room` free bytes: it never emits more than the room and always emits a prefix of the pieces' bytes |
| Streams.EmitSucceedsIffFits | include/nop/base/vector.h:72-86 | A run of writes stopping at the first failure succeeds exactly when everything fits, and then emits everything; otherwise it fails with WriteLimitReached |
| Streams.EmitStopsAtFirstFailure | include/nop/base/list.h:81-85 | A run of writes emits a prefix of the pieces and stops at the first piece that does not fit |
| Codecs.ReadWith | include/nop/base/vector.h:91-94 | A failed size read returns its error without moving the cursor; a successful one returns the value and moves past what was consumed |
| Codecs.Codec.Valid | include/nop/base/vector.h:96-104 | What the container codecs rely on from an element or size codec: its size pre-pass agrees with its write, a decode reads back what was written whatever follows, and a successful decode uses up at least one byte (the prefix byte every record starts with) and no more than it was given |
| Codecs.AsCodec | include/nop/base/list.h:175 | The raw element read `reader->Read(&element, &element + 1)` as a codec: it reads `width` bytes, or fails with ReadLimitReached when fewer remain. Its encoding is the element's image, and it is a valid codec (every image, whatever follows, reads back as its element) |
| Codecs.Values | include/nop/base/vector.h:167 | The bulk read's reinterpretation of bytes as consecutive `width`-byte elements |
| Codecs.Scalar.Zero | include/nop/base/vector.h:166 | The value-initialised element `resize` pads with: the value of `width` zero bytes |
| Codecs.MulDiv | include/nop/base/vector.h:155-158 | A byte length of n whole elements passes the divisibility check and divides back to n |
| Scenarios.BinaryRecord | include/nop/base/vector.h:135-145 | Three u16 elements 0x0201 give the payload 06 01 02 01 02 01 02 under the Binary tag |
| Scenarios.BinaryRecordReadBack | include/nop/base/list.h:152-183 | A vector or list reads that payload back as the three elements |
| Scenarios.ArrayRecord | include/nop/base/list.h:56-88 | A non-integral pair gives the payload 02 00 02 under the Array tag, and Size counts 4 bytes |
| Scenarios.EmptyRecord | include/nop/base/set.h:119-182 | An empty integral container is payload 00 under the Binary tag, and reading it back empties a destination of any shape |
| Scenarios.ShortSourceHeader | include/nop/base/vector.h:158-164 | For the payload 04 07 00 of u16 elements, the element-count guard accepts 2 elements with 2 bytes left, and the byte guard rejects them |
| Scenarios.ShortSourceList | include/nop/base/list.h:167-180 | With the element-count guard, the list is cleared and refilled with [7] before the read fails with ReadLimitReached |
| Scenarios.ShortSourceVector | include/nop/base/vector.h:162-167 | With the element-count guard, the vector [5] is resized to [5, 0] before the bulk read fails with ReadLimitReached |
| Scenarios.ShortSourceByteGuard | include/nop/base/vector.h:160-164 | With the byte-length guard, both reads fail before touching the destination [5] |

## Left out

- Integer widths are not modelled: `size_t`, `uint64_t`, `SizeType` and the
  `0U` accumulator in Size are unbounded naturals here. Overflow of
  count × sizeof(T), or of the size sum, is not modelled.
- The vector's `Encoding<std::uint64_t>` and the other shapes'
  `Encoding<SizeType>` are the same abstract size codec. Their concrete
  prefix-byte forms are not part of this model.
- Element codecs, the raw image of an integral type (endianness,
  `sizeof(T)`) and the size codec are abstract collaborators, constrained
  only by their round-trip contracts. The writer's and reader's byte
  operations are all-or-nothing.
- Size and element codecs (`Encoding<SizeType>` and `Encoding<T>`, whose
  Write and Read live in the `EncodingIO` layer) are modelled as atomic. A
  codec writes its bytes as one all-or-nothing write, and a failed decode
  consumes nothing. The real codecs may leave part of an element in the
  sink, or move the cursor, before they fail. So two details in the rows
  for `Encoding.LengthFailureKeepsDestination`, `Encoding.WritePayload`,
  `Elements.WriteEach`, `Elements.AddNext` and `Codecs.ReadWith` are
  properties of this abstraction, not of the source: the cursor not moving
  on failure, and the writer receiving whole pieces only. The destination
  and status claims do not depend on them.
- The order in which `std::set` and `std::unordered_set` iterate is not
  modelled. The set handed to a write may be any sequence: its duplicates
  matter only where a claim says "when the written elements are
  distinct". The destination set a read fills holds no duplicates, in the
  order its elements were inserted, and only its members and size are
  claimed.
- Move semantics are not modelled. Nor is the undefined behaviour of
  `&value[0]` on an empty vector: the model writes and reads zero bytes.
- The `prefix` argument of WritePayload and ReadPayload is ignored, as in
  the source. The tag write and `Match` dispatch belong to `EncodingIO`,
  which is not part of this model.
- `Reader.Ensure` compares against bytes remaining. The model does not
  capture any other notion of "unit" a concrete reader might use.
- test/test_utilities.h is not part of this model. The byte-string
  composition helpers it provides appear here as sequence concatenation.

## Findings

| source | as written | input that shows it | evidently intended | confidence | as-written member | corrected member |
|---|---|---|---|---|---|---|
| include/nop/base/vector.h:162, include/nop/base/list.h:167, include/nop/base/set.h:167, include/nop/base/set.h:301 | The Binary read passes the element count to `reader->Ensure`. The comment says this defends against sizes larger than the data, but for elements wider than one byte it asks for fewer bytes than the read needs | Payload 04 07 00 for 16-bit elements (4 bytes = 2 elements, 2 bytes present) into a destination holding [5]: the check passes. The list ends as [7] and the vector as [5, 0], both with ReadLimitReached | `Ensure(size)`, the byte length, so that a short source fails before the destination is cleared or resized | medium, not executed | Scenarios.ShortSourceList | BinaryStrategy.ByteGuardFailsCleanly |
