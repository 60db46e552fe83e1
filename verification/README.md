# AxiomDB catalog and client formats: a verified model

AxiomDB keeps its catalog in heaps that hang off root pages, and hands query results to
its language bindings in packed buffers. This project models both in Dafny and proves
what they promise.

- **Catalog rows.** `ForeignKeys`, `Constraints`, `CompositeTypes`, `CronJobs`,
  `Aggregates` and `Namespaces` are the binary row codecs. The encoders and decoders are
  methods with the loops of the source. Each is proved against an encoder function and a
  decoder function, and for the rows with optional trailers against an independent grammar.
- **Bootstrap and upgrade.** `MetaPage` is the meta page, byte by byte. `StorageEngine` is
  the storage as a class whose every call can fail, before or after taking effect.
  `Bootstrap` holds the calls that create roots. `Runs` reasons about whole sequences of
  such calls, each of which may stop anywhere, mixed with row inserts.
- **Reading.** `Lists` and `Scans` are the loops the reader is made of, with the
  visibility rule of the heap. `Reader` is the catalog reader; it has no field that
  changes, so it is a value. `Ownership`, `Upgrade` and `Resolver` state what its lookups
  say about each other, before and after an upgrade.
- **Result and parameter buffers.** `Packed` (AXM1, row by row) and `Columnar` (AXM2, column
  by column) are the formats with their Python and Go parsers. `Engine` is the writer of
  both. `Params` is the parameter buffer. `Node` is the packer of the Node binding with its
  JavaScript parser, and `Uuid` its UUID text.
  `Repeat` is what their parsing loops have in common.

`Bytes` holds little-endian numbers, the test for UTF-8 (section 4 of RFC 3629) and the
lemmas about chunks at a position that all codecs use. `Utf8` encodes scalar values (section 3
of RFC 3629) and proves the test exact. Strings are byte sequences. A 64-bit float is its bit
pattern.

A format is stated twice: by an encoder and a decoder that are proved inverse, and by a
layout that names every byte by its position, so that neither side can be relabelled. The
storage of `StorageEngine` keeps a record of its failures, against which every bootstrap call
is proved to fail only when the storage does, and never to hide that it did.

## Findings

Where a property one would expect does not hold of the code, the model keeps the code and
states the exact condition.

- The two result formats deliver different tables when a column of nothing but text holds a
  zero byte, and when a table without columns has rows (`Engine.FormatsAgree`,
  `Engine.FormatsDiffer`).
- The Python parser returns shortened texts from a cut buffer where the Go parser stops; the
  two agree exactly on buffers whose announced lengths lie within them
  (`Packed.PythonAgreesIff`, `Packed.CutNameDiffers`).
- The comment on the Node packer says that it writes the format of the C interface. It does
  so only for results without plain ASCII text, which it gives a tag that the Python and Go
  parsers do not know (`Node.SameFormatIff`, `Node.FastPathDiffers`). The JavaScript parser
  reads both tags (`Node.NodeRoundTrip`).
- Go cuts lengths and counts to 32 bits and does not validate strings, so not all its
  parameters arrive (`Params.GoParamsRoundTrip`, `Params.InvalidTextIsLost`).
- A bootstrap that stops between recording the databases root and writing its seed row is
  not repaired by a retry; the default database is then missing for good
  (`Runs.StoppedSeedIsLost`, `Upgrade.RunIsInvisible`).
- A bootstrap that stops before its counters are written is completed by a retry without
  counters (`Runs.CountersUsableIff`, `Runs.StoppedCountersAreLost`).
- The upgrade is invisible except to the schema test, which starts to see schemas that own
  a table but have no row (`Upgrade.SchemaExistsAgrees`, `Upgrade.SchemaAppears`). The source
  calls that search of the tables a legacy fallback, yet a legacy catalog never reaches it:
  without a schemas root only `public` exists. The model follows the code.
- A root made by a single-root call before the first bootstrap is replaced by it
  (`Runs.EarlyRootsAreReplaced`, `Runs.EarlyRootIsLost`).
- The next foreign table id wraps to 0 once the largest 32-bit id is in use
  (`Ownership.NextForeignIdFresh`, `Ownership.LastIdWraps`). Builds with overflow checks stop there instead.
- A database with an empty collation name comes back without one
  (`Namespaces.DatabaseRoundTrip`, `Namespaces.EmptyCollationIsLost`).

## Model

| member | source | states |
|---|---|---|
| `ForeignKeys.ToBytes` | crates/axiomdb-catalog/src/schema_constraints.rs:450-500 | the buffer built by appending is the row printed by `Encode`, with every field, action byte, column and trailer at its place in the buffer; `RoundTrip`, `CanonicalForm` and `Truncation` say what that row means |
| `ForeignKeys.BaseToBytes` | crates/axiomdb-catalog/src/schema_constraints.rs:466-475 | the fixed header and the length-prefixed name: each field is the little-endian number at its offset, each action its place in the list of actions |
| `ForeignKeys.EncodeLayout` | crates/axiomdb-catalog/src/schema_constraints.rs:332-500 | every encoded row, position by position: the header fields as little-endian numbers at their offsets, the actions numbered in the order no action, restrict, cascade, set null, set default, the composite trailer under 0xCF with its columns, the flags under 0xDF |
| `ForeignKeys.ParseBase` | crates/axiomdb-catalog/src/schema_constraints.rs:505-542 | reads the fixed header and the name in order, or gives the first failure |
| `ForeignKeys.DecodeLayout` | crates/axiomdb-catalog/src/schema_constraints.rs:505-542 | whatever is accepted, the header returned is what the bytes hold at the fixed offsets |
| `ForeignKeys.TrailerLayout` | crates/axiomdb-catalog/src/schema_constraints.rs:543-614 | both trailers of the grammar byte by byte |
| `ForeignKeys.AppendU16s` | crates/axiomdb-catalog/src/schema_constraints.rs:481-486 | the loop that appends a column list appends exactly its two-byte codes in order |
| `ForeignKeys.FromBytes` | crates/axiomdb-catalog/src/schema_constraints.rs:505-634 | the decoder accepts a byte string if and only if it is the print of some row of an independent grammar (header, name, any list of trailers), and then returns the meaning of that row and the full length; the header it returns is what the bytes hold at the fixed offsets |
| `ForeignKeys.ReadTrailers` | crates/axiomdb-catalog/src/schema_constraints.rs:543-614 | the trailer loop, which truncates, pushes and overwrites in place, computes the fold "last composite trailer wins, last deferral trailer wins" over the parsed trailer list, for every input, and terminates |
| `ForeignKeys.ReadComposite` | crates/axiomdb-catalog/src/schema_constraints.rs:551-590 | one composite trailer replaces all columns but the first, and advances by exactly the length of its print, or fails with the error of the grammar |
| `ForeignKeys.ParseExact` | crates/axiomdb-catalog/src/schema_constraints.rs:505-634 | a byte string parses to a row if and only if it is the print of that row: the grammar is unambiguous and the parser complete |
| `ForeignKeys.DecodeAcceptsGrammar` | crates/axiomdb-catalog/src/schema_constraints.rs:505-634 | acceptance and rejection of the specification decoder in terms of the grammar, both directions |
| `ForeignKeys.RoundTrip` | crates/axiomdb-catalog/src/schema_constraints.rs:450-634 | decoding an encoded definition returns it, whole, if and only if it is well formed (1 to 255 pairs, parallel lists, legacy fields equal to the heads, a name of valid UTF-8 that a 32-bit length can hold) |
| `ForeignKeys.CanonicalForm` | crates/axiomdb-catalog/src/schema_constraints.rs:450-634 | every accepted byte string denotes a well-formed definition, is consumed whole, and re-encodes to a row no longer than itself that decodes to the same definition |
| `ForeignKeys.LastOfEachKind` | crates/axiomdb-catalog/src/schema_constraints.rs:543-614 | the meaning of a trailer list is read off its last trailer of each kind |
| `ForeignKeys.TrailerOrderDoesNotMatter` | crates/axiomdb-catalog/src/schema_constraints.rs:543-614 | two rows with the same header decode to the same definition if and only if their last composite trailers agree and their last deferral trailers agree in the two flag bits, whatever the order and repetition |
| `ForeignKeys.TruncatedRow` | crates/axiomdb-catalog/src/schema_constraints.rs:505-634 | the accepted truncations of any printed row are exactly its cuts between trailers, and a cut row means the row without the trailers cut off |
| `ForeignKeys.Truncation` | crates/axiomdb-catalog/src/schema_constraints.rs:450-634 | a strict prefix of an encoded definition is accepted if and only if it ends right after the name or right after the composite trailer; the missing trailers then read as their defaults |
| `Constraints.ToBytes` | crates/axiomdb-catalog/src/schema_constraints.rs:107-127 | the appended buffer is the row printed by `Encode`, each field, operator and element at its place |
| `Constraints.EncodeLayout` | crates/axiomdb-catalog/src/schema_constraints.rs:25-127 | every encoded row, position by position, with the operators numbered in their listed order |
| `Constraints.AppendElements` | crates/axiomdb-catalog/src/schema_constraints.rs:121-124 | the element loop appends the elements in order, column index then operator |
| `Constraints.FromBytes` | crates/axiomdb-catalog/src/schema_constraints.rs:132-272 | the decoder accepts exactly the prints of an independent row grammar (base; then nothing, a CHECK byte or an exclusion tail) and returns the meaning |
| `Constraints.ParseBase` | crates/axiomdb-catalog/src/schema_constraints.rs:132-185 | accepts the bytes if and only if they start with the print of a well-formed base, and returns it with its length, each field as the bytes hold it at its offset; each failure is that of the source |
| `Constraints.ParseElements` | crates/axiomdb-catalog/src/schema_constraints.rs:238-251 | the element loop reads `n` three-byte elements or fails at the first bad operator |
| `Constraints.ParseExact` | crates/axiomdb-catalog/src/schema_constraints.rs:132-272 | a byte string parses to a row if and only if it is the print of that row |
| `Constraints.DecodeAcceptsGrammar` | crates/axiomdb-catalog/src/schema_constraints.rs:132-272 | acceptance and rejection in terms of the grammar, both directions |
| `Constraints.RoundTrip` | crates/axiomdb-catalog/src/schema_constraints.rs:107-272 | CHECK and EXCLUSION rows come back unchanged if and only if they are well formed |
| `Constraints.CanonicalForm` | crates/axiomdb-catalog/src/schema_constraints.rs:107-272 | every accepted row denotes a well-formed definition and equals its re-encoding, or its re-encoding followed by the one redundant CHECK byte |
| `Constraints.Truncation` | crates/axiomdb-catalog/src/schema_constraints.rs:107-272 | no strict prefix of a CHECK row is accepted; of an EXCLUSION row exactly the base part is, and it reads as a CHECK |
| `CompositeTypes.ToBytes` | crates/axiomdb-catalog/src/schema_composite.rs:33-70 | the appended buffer is the printed definition, each part at its place |
| `CompositeTypes.EncodeLayout` | crates/axiomdb-catalog/src/schema_composite.rs:33-70 | every encoded row, position by position: schema, name, then the fields in order |
| `CompositeTypes.AppendFields` | crates/axiomdb-catalog/src/schema_composite.rs:56-68 | the field loop appends the fields in order |
| `CompositeTypes.FromBytes` | crates/axiomdb-catalog/src/schema_composite.rs:73-156 | accepts the bytes if and only if they start with the encoding of a definition within the limits, and returns it with its length; each failure is that of the source |
| `CompositeTypes.ParseFields` | crates/axiomdb-catalog/src/schema_composite.rs:115-146 | the field loop reads `n` fields in order or returns the first error |
| `CompositeTypes.DecodeExact` | crates/axiomdb-catalog/src/schema_composite.rs:73-170 | the decoder returns a definition if and only if it is within the limits and the bytes start with its encoding: there is no second spelling |
| `CompositeTypes.PrefixCode` | crates/axiomdb-catalog/src/schema_composite.rs:33-170 | an encoding followed by any bytes decodes to the definition and its length if and only if it is within the limits, and then every strict prefix is rejected |
| `CronJobs.ToBytes` | crates/axiomdb-catalog/src/schema_cron_job.rs:27-57 | the appended buffer is the printed definition, each part at its place |
| `CronJobs.EncodeLayout` | crates/axiomdb-catalog/src/schema_cron_job.rs:27-57 | every encoded row, position by position: name, schedule, command, database, the enabled byte, both times and the last status |
| `CronJobs.FromBytes` | crates/axiomdb-catalog/src/schema_cron_job.rs:59-124 | accepts the bytes if and only if they start with a row of a definition within the limits, and returns it with its length; each failure is that of the source |
| `CronJobs.DecodeExact` | crates/axiomdb-catalog/src/schema_cron_job.rs:59-124 | the decoder returns a definition if and only if the bytes start with a row of it; only the enabled byte has more than one spelling |
| `CronJobs.PrefixCode` | crates/axiomdb-catalog/src/schema_cron_job.rs:27-124 | encodings within the limits are a prefix code; definitions beyond the limits never come back |
| `Aggregates.ToBytes` | crates/axiomdb-catalog/src/schema_aggregate.rs:42-78 | the appended buffer is the printed definition, each part and type tag at its place |
| `Aggregates.EncodeLayout` | crates/axiomdb-catalog/src/schema_aggregate.rs:42-78 | every encoded row, position by position, each type under its number |
| `Aggregates.TagsRead` | crates/axiomdb-catalog/src/schema_aggregate.rs:218-246 | a tag reads as the type with that number in the listed order, and as nothing outside 1 to 22 |
| `Aggregates.AppendTags` | crates/axiomdb-catalog/src/schema_aggregate.rs:67-69 | the argument loop appends one tag per type |
| `Aggregates.FromBytes` | crates/axiomdb-catalog/src/schema_aggregate.rs:80-187 | accepts the bytes if and only if they start with the encoding of a normal definition within the limits, and returns it with its length; each failure is that of the source |
| `Aggregates.ParseTypes` | crates/axiomdb-catalog/src/schema_aggregate.rs:122-125 | the tag loop reads `n` types or fails at the first unknown tag |
| `Aggregates.DecodeExact` | crates/axiomdb-catalog/src/schema_aggregate.rs:80-246 | the decoder returns a definition if and only if it is normal, within the limits and its encoding starts the bytes |
| `Aggregates.NormaliseIdempotent` | crates/axiomdb-catalog/src/schema_aggregate.rs:42-246 | normalisation (empty final function becomes none, nested type arguments become fixed ones) is idempotent and does not change the encoding |
| `Aggregates.NormalIff` | crates/axiomdb-catalog/src/schema_aggregate.rs:42-246 | a definition is normal if and only if its final function is not empty and its argument types are among the 22 that a tag reads as |
| `Aggregates.DecodeEncode` | crates/axiomdb-catalog/src/schema_aggregate.rs:42-246 | followed by any bytes, an encoding decodes to the normal form if and only if the definition is within the limits, and to the definition itself if and only if it is also normal; every strict prefix is then rejected |
| `Aggregates.EncodeDecode` | crates/axiomdb-catalog/src/schema_aggregate.rs:80-246 | re-encoding any accepted row reproduces exactly the bytes consumed |
| `Namespaces.DatabaseRoundTrip` | crates/axiomdb-catalog/src/schema_database.rs:73-129 | a database row comes back unchanged if and only if its collation is not the empty string |
| `Namespaces.EmptyCollationIsLost` | crates/axiomdb-catalog/src/schema_database.rs:73-129 | an empty collation name comes back as none |
| `Namespaces.BindingRoundTrip` | crates/axiomdb-catalog/src/schema_database.rs:147-183 | table-to-database bindings come back unchanged |
| `Namespaces.SchemaRoundTrip` | crates/axiomdb-catalog/src/schema_database.rs:201-249 | schema rows come back unchanged |
| `Namespaces.DatabaseLayout` | crates/axiomdb-catalog/src/schema_database.rs:73-84 | name, then collation, each after its one-byte length, at its position |
| `Namespaces.BindingLayout` | crates/axiomdb-catalog/src/schema_database.rs:147-155 | table id in four bytes, then the database |
| `Namespaces.SchemaLayout` | crates/axiomdb-catalog/src/schema_database.rs:201-212 | database, then schema |
| `Namespaces.NamesAre` | crates/axiomdb-catalog/src/bootstrap.rs:252-263 | the default names are the ASCII codes of axiomdb and public |
| `Namespaces.SeedRowsDecode` | crates/axiomdb-catalog/src/bootstrap.rs:252-263 | the two seed rows decode to the default database without collation and to its public schema |
| `Packed.ParsePacked` | bindings/python/axiomdb.py:86-137 | the nested parsing loops compute the specification parser: names, rows and the final offset, or the first failure |
| `Packed.ParseNames` | bindings/python/axiomdb.py:103-108 | the name loop reads the names one after the other |
| `Packed.GoParsePacked` | bindings/go/axiomdb.go:242-296 | the same for the Go parser, whose slices panic where Python cuts them short |
| `Packed.RoundTrip` | crates/axiomdb-embedded/src/lib.rs:1017-1036 | every rectangular table that fits the format, packed and followed by any bytes, parses back to itself in Python and in Go, stopping exactly at its end |
| `Packed.CellLayoutIs` | crates/axiomdb-embedded/src/lib.rs:991-1015 | each kind of cell byte by byte: tag 0 null, 1 integer, 2 float, 3 text, 4 bytes, with its payload |
| `Packed.TableLayout` | crates/axiomdb-embedded/src/lib.rs:1017-1036 | the magic, the two counts, then names and rows in order |
| `Packed.OtherTagIsNull` | bindings/python/axiomdb.py:115-136 | an unknown tag reads as null in both parsers and skips nothing |
| `Packed.GoSucceedsIff` | bindings/go/axiomdb.go:242-296 | for every buffer: Go gets through if and only if the announced names and cells, walked by tags and lengths alone, lie within the buffer and the row count is a valid slice length |
| `Packed.PythonAgreesIff` | bindings/python/axiomdb.py:86-137 | for every buffer: where Python gets through, Go returns the same if and only if that same test on the bytes holds; both return the same table if and only if the test holds and the texts are valid UTF-8 |
| `Packed.GoAndPythonAgree` | bindings/go/axiomdb.go:242-296 | on every buffer Go gets through with valid UTF-8, Python returns the same table and offset |
| `Packed.CutNameDiffers` | bindings/python/axiomdb.py:94-108 | the two parsers do differ on a buffer cut inside a name: Python returns the part that is there, Go panics |
| `Columnar.ParseColumnar` | bindings/python/axiomdb.py:140-211 | the columnar parser with its bulk reads and final transpose computes the specification parser |
| `Columnar.ParseColumn` | bindings/python/axiomdb.py:165-208 | one column block of each of the five kinds |
| `Columnar.CutStrings` | bindings/python/axiomdb.py:173-183 | cutting the concatenated texts at the running sum of the lengths |
| `Columnar.ZipTransposes` | bindings/python/axiomdb.py:210-210 | zipping the columns of a rectangular table gives its rows back |
| `Columnar.RoundTrip` | bindings/python/axiomdb.py:140-211 | for every admissible choice of kind per column the columnar form parses back to the table, stopping at its end; only a table without columns loses its rows |
| `Columnar.BlockLayoutIs` | crates/axiomdb-embedded/src/lib.rs:1123-1151 | each kind of block byte by byte: its letter, then the numbers, or all lengths and then all contents |
| `Columnar.ColumnarLayout` | crates/axiomdb-embedded/src/lib.rs:1111-1122 | the magic, the two counts, then names and blocks in order |
| `Columnar.OtherKindIsMixed` | bindings/python/axiomdb.py:184-208 | an unknown kind is read cell by cell |
| `Columnar.AgreesWithRowMajor` | bindings/python/axiomdb.py:86-211 | the columnar parser and the row-major parser return the same names and rows if and only if the table has a column or no row |
| `Engine.PackRows` | crates/axiomdb-embedded/src/lib.rs:1017-1036 | the engine writes the row-major form of its values, and Python and Go read back, place by place, each value as its kind is shown (whole numbers and booleans as integers, a text holding a zero byte as empty) |
| `Engine.FindColumnKind` | crates/axiomdb-embedded/src/lib.rs:1059-1081 | the loop with its early exit finds the bulk kind shared by all cells of a column, else mixed |
| `Engine.ColumnKindIs` | crates/axiomdb-embedded/src/lib.rs:1059-1081 | which columns are stored in bulk, for each kind, if and only if |
| `Engine.PackColumnar` | crates/axiomdb-embedded/src/lib.rs:1111-1153 | the engine writes the columnar form with that kind for each column, and Python reads back each value as its kind is shown, text whole in a column of nothing but text |
| `Engine.AppendColumn` | crates/axiomdb-embedded/src/lib.rs:1123-1151 | the block of one column, for each kind |
| `Engine.RowMajorSeen` | crates/axiomdb-embedded/src/lib.rs:793-1036 | every row-major result reads in Python and in Go as its values, by kind of value and place by place |
| `Engine.ColumnarSeen` | crates/axiomdb-embedded/src/lib.rs:793-1153 | every columnar result with a column reads in Python as its values, by kind of value and place by place |
| `Engine.FormatsAgree` | crates/axiomdb-embedded/src/lib.rs:793-1153 | for every result the engine can write, a Python client sees the same table in both formats if and only if it has a column or no row and no all-text column holds a zero byte |
| `Engine.FormatsDiffer` | crates/axiomdb-embedded/src/lib.rs:793-848 | a concrete result on which the two formats differ: one text cell holding one zero byte |
| `Params.EncodeParams` | bindings/python/axiomdb.py:214-246 | the growing buffer is the count and the cells in order, or the first unsupported parameter fails |
| `Params.GoEncodeParams` | bindings/go/axiomdb.go:190-238 | the same for the Go encoder |
| `Params.EncodersAgree` | bindings/go/axiomdb.go:190-238 | corresponding parameters give identical bytes in Go and Python whenever Python encodes them |
| `Params.GoFailsIff` | bindings/go/axiomdb.go:190-238 | the Go encoder fails if and only if some parameter has an unsupported type |
| `Params.PyEncodesIff` | bindings/python/axiomdb.py:214-246 | the Python encoder succeeds if and only if every parameter is of a supported type and in range and their number fits 32 bits |
| `Params.DeserializeParams` | crates/axiomdb-embedded/src/lib.rs:1248-1292 | the engine loop, with its quiet stop at the end of the buffer, computes the specification decoder |
| `Params.FirstRefused` | bindings/python/axiomdb.py:214-246 | a refused parameter list fails with the error of its first refused parameter |
| `Params.BufferRoundTrip` | crates/axiomdb-embedded/src/lib.rs:1248-1292 | encoded cells come back if and only if their number and each length fit 32 bits and every text is valid UTF-8, for any replacement of invalid text that yields valid text and does not grow by more than a character per stray byte |
| `Params.GoParamsRoundTrip` | bindings/go/axiomdb.go:190-238 | the engine decodes what Go encodes if and only if every string is valid UTF-8 and neither a length nor the number of parameters was cut to 32 bits |
| `Params.InvalidTextIsLost` | bindings/go/axiomdb.go:190-238 | a Go string of one byte that is not UTF-8 does not come back |
| `Params.ParamsRoundTrip` | bindings/python/axiomdb.py:214-246 | the engine decodes what Python encodes: every parameter, in order, booleans as 0 and 1 |
| `Params.PyParamsArrive` | bindings/python/axiomdb.py:214-246 | the engine sees, place by place, what Python passed, by kind of parameter |
| `Params.GoParamsArrive` | bindings/go/axiomdb.go:190-238 | the engine sees, place by place, what Go passed, by kind of parameter, if and only if nothing was cut to 32 bits and every string is valid UTF-8 |
| `Params.QuietStop` | crates/axiomdb-embedded/src/lib.rs:1248-1292 | a buffer that announces more parameters than it holds gives those it holds, and one shorter than a count gives none |
| `Node.PackResult` | bindings/axiomdb-node/src/lib.rs:187-202 | the packer with its nested loops writes the header, the names and the values in order |
| `Node.PackValue` | bindings/axiomdb-node/src/lib.rs:118-172 | one value: ASCII text and JSON under tag 5, other text under tag 3, the rest as in the C form |
| `Node.JsParsePacked` | bindings/axiomdb-node/index.mjs:19-48 | the JavaScript loops compute the specification parser: cut-back slices, undefined tags past the end, range errors |
| `Node.HalvesOfI64` | bindings/axiomdb-node/index.mjs:38-38 | an unsigned lower half plus a signed upper half times 2^32 is the 64-bit integer |
| `Node.NodeRoundTrip` | bindings/axiomdb-node/src/lib.rs:118-202 | every result the packer can write is parsed in JavaScript to its values, text whole whichever tag it took, integers as the nearest double, stopping exactly at its end, if and only if an array can hold its rows |
| `Node.NodeSeen` | bindings/axiomdb-node/src/lib.rs:118-202 | JavaScript reads, place by place, each value as its kind is shown |
| `Node.ValueTags` | bindings/axiomdb-node/src/lib.rs:118-172 | the tag of each kind of value |
| `Node.Latin1Is` | bindings/axiomdb-node/index.mjs:19-48 | under tag 5 every byte is the code point of its number |
| `Node.OtherCellIsNull` | bindings/axiomdb-node/index.mjs:19-48 | past the end and under an unknown tag a cell is null and one byte long |
| `Node.SameFormatIff` | bindings/axiomdb-node/src/lib.rs:116-160 | the packer writes the format of the C interface if and only if no text or JSON value is plain ASCII |
| `Node.FastPathDiffers` | bindings/axiomdb-node/src/lib.rs:149-157 | one empty text is enough to make the two formats differ |
| `Uuid.PaddedIsHexBytes` | bindings/axiomdb-node/src/lib.rs:71-84 | a zero-padded big-endian number is the byte-by-byte hexadecimal, for any number of bytes |
| `Uuid.HexBytesAre` | bindings/axiomdb-node/src/lib.rs:71-84 | two digits of 0123456789abcdef per byte, high half first |
| `Uuid.FormatIsByteWise` | bindings/axiomdb-node/src/lib.rs:71-84 | the text is the lowercase hexadecimal of the 16 bytes in order, hyphenated 8-4-4-4-12, 36 characters |
| `Uuid.FormatInjective` | bindings/axiomdb-node/src/lib.rs:71-84 | distinct UUIDs have distinct texts |
| `MetaPage.PutRootFrame` | crates/axiomdb-storage/src/meta.rs:284-298 | writing a root changes that root and no other root, version or counter |
| `MetaPage.FieldsAre` | crates/axiomdb-storage/src/meta.rs:87-189 | every root, the version and the counters as little-endian numbers at their literal offsets |
| `MetaPage.PutHeaderFrame` | crates/axiomdb-storage/src/meta.rs:380-402 | the header write changes the first three roots and the version only |
| `MetaPage.PutCounterFrame` | crates/axiomdb-storage/src/meta.rs:269-283 | writing a counter leaves every root, the version and the other counter alone |
| `StorageEngine.Storage.AllocPage` | crates/axiomdb-storage/src/engine.rs:74-74 | a returned page was neither page 0 nor in use; a failed call may have taken a page and is on record as a failure of the storage |
| `StorageEngine.Storage.WriteEmptyPage` | crates/axiomdb-storage/src/engine.rs:58-58 | writes one empty heap page and no other; a failed call may or may not have written it |
| `StorageEngine.Storage.WriteMeta` | crates/axiomdb-storage/src/meta.rs:269-298 | the meta page is overwritten at the offset only; a failed call may or may not have written it |
| `StorageEngine.Storage.ReadMeta64` | crates/axiomdb-storage/src/meta.rs:237-252 | the little-endian field at the offset, or an error |
| `StorageEngine.Storage.ReadMeta32` | crates/axiomdb-storage/src/meta.rs:254-267 | the little-endian field at the offset, or an error |
| `StorageEngine.Storage.InsertRow` | crates/axiomdb-storage/src/heap_chain_write.rs:17-72 | appends one row to one heap and changes no other; fails without effect on a root that has no heap |
| `Bootstrap.CreateRoot` | crates/axiomdb-catalog/src/bootstrap.rs:458-472 | allocates a page, writes it empty and records it; stopped anywhere it leaves the slot as it was or on a fresh empty page; it fails if and only if the storage does |
| `Bootstrap.PageIdsOf` | crates/axiomdb-catalog/src/bootstrap.rs:298-340 | exactly the 18 roots of the meta page; an error means a failed storage or a catalog that is not initialised |
| `Bootstrap.SeedRoot` | crates/axiomdb-catalog/src/bootstrap.rs:355-359 | adds the seed row to a freshly made root |
| `Bootstrap.UpgradeRoot` | crates/axiomdb-catalog/src/bootstrap.rs:349-361 | makes one root with its seed, or stops having made it or not, seeded or not |
| `Bootstrap.UpgradeRoots` | crates/axiomdb-catalog/src/bootstrap.rs:346-450 | exactly the missing roots of the list are made, in its order, each on its own fresh page; the id map is updated in place to what the meta page holds; it fails if and only if the storage does |
| `Bootstrap.EnsureDatabaseRoots` | crates/axiomdb-catalog/src/bootstrap.rs:346-450 | the whole upgrade: on success exactly the missing upgradable roots were made, in order, and seeded, everything is flushed, and the result is what the meta page holds; stopped anywhere, some of them; an error means a failed storage or a catalog that is not initialised; the consistency check in the middle cannot fail; nothing happens if none is missing |
| `Bootstrap.EnsureRoot` | crates/axiomdb-catalog/src/bootstrap.rs:458-604 | the nine single-root calls: an existing root is returned and nothing changes, a missing one is made and flushed; they fail if and only if the storage does |
| `Bootstrap.InitHeader` | crates/axiomdb-catalog/src/bootstrap.rs:126-138 | the three first roots and the version appear in one write or not at all |
| `Bootstrap.CreateRoots` | crates/axiomdb-catalog/src/bootstrap.rs:154-248 | the sequence of unconditional root creations, in its order, stopped anywhere |
| `Bootstrap.UpgradeOrder` | crates/axiomdb-catalog/src/bootstrap.rs:346-450 | the ten roots of the upgrade, in the order they are made |
| `Bootstrap.FreshOrder` | crates/axiomdb-catalog/src/bootstrap.rs:140-248 | the thirteen roots after the header, in the order they are made |
| `Bootstrap.InitRoots` | crates/axiomdb-catalog/src/bootstrap.rs:140-248 | the other roots in that order, and the counters, stopped anywhere |
| `Bootstrap.InitCounters` | crates/axiomdb-catalog/src/bootstrap.rs:150-152 | the counters are set to 1 and nothing else changes |
| `Bootstrap.InitRest` | crates/axiomdb-catalog/src/bootstrap.rs:140-287 | everything after the header, in order, stopped anywhere; it fails if and only if the storage does, and a success is flushed |
| `Bootstrap.InitFresh` | crates/axiomdb-catalog/src/bootstrap.rs:124-287 | a fresh bootstrap: on success exactly its 16 roots, seeds and counters, flushed; stopped before the header nothing is recorded, after it the header and some of the rest; it fails if and only if the storage does |
| `Bootstrap.Init` | crates/axiomdb-catalog/src/bootstrap.rs:120-287 | fresh bootstrap or upgrade depending on the version; on sound storage it fails if and only if a storage call failed, so no failure is swallowed and a storage that works is always brought to the end and flushed |
| `Runs.StepKeeps` | crates/axiomdb-catalog/src/bootstrap.rs:120-604 | every call, finished or stopped, keeps the catalog valid and its roots, and never seeds twice |
| `Runs.RootsAreStable` | crates/axiomdb-catalog/src/bootstrap.rs:298-604 | over every run of bootstrap calls and row inserts, however often calls stop: nonzero roots are pairwise distinct in every state, never change, and new ones lie on pages that were free |
| `Runs.SuccessMeans` | crates/axiomdb-catalog/src/bootstrap.rs:120-450 | a successful call returns exactly what the meta page now holds, with every root in place but possibly constraints, foreign keys, statistics, holiday calendars and exchange rates, and changes nothing if they were |
| `Runs.RetriedBootstrap` | crates/axiomdb-catalog/src/bootstrap.rs:120-450 | from a blank file, after any number of stopped calls, the first success leaves those 13 roots nonzero and pairwise distinct, every root recorded earlier unchanged, and the default database seeded at most once |
| `Runs.SeedPresentIff` | crates/axiomdb-catalog/src/bootstrap.rs:346-450 | after a success the seed row is there if and only if its slot had no root before or had the row |
| `Runs.SeedsAre` | crates/axiomdb-catalog/src/bootstrap.rs:250-270 | the rows the bootstrap writes are axiomdb without collation and its public schema, of transaction 0, and no others |
| `Runs.StoppedSeedIsLost` | crates/axiomdb-catalog/src/bootstrap.rs:349-361 | a stop between recording the databases root and seeding it is never repaired: over every run from there the heap never holds a row of the bootstrap, and nothing at all unless the catalog writer puts it there |
| `Runs.CountersUsableIff` | crates/axiomdb-catalog/src/bootstrap.rs:150-152 | after a success the id counters are usable if and only if the catalog was not initialised before or they were usable |
| `Runs.StoppedCountersAreLost` | crates/axiomdb-catalog/src/bootstrap.rs:138-152 | a first bootstrap that stops right after its header write leaves counters that no later run ever sets |
| `Runs.EarlyRootsAreReplaced` | crates/axiomdb-catalog/src/bootstrap.rs:120-287 | a root made before the first bootstrap survives it if and only if the bootstrap makes no root that existed |
| `Runs.EarlyRootIsLost` | crates/axiomdb-catalog/src/bootstrap.rs:458-472 | on a blank file, the constraints root that a single-root call returns is gone after the bootstrap |
| `Runs.RunGrows` | crates/axiomdb-catalog/src/bootstrap.rs:346-604 | any run of bootstrap calls on an initialised catalog keeps the rows of every root and adds only empty or seeded ones |
| `Lists.FirstOfFilter` | crates/axiomdb-catalog/src/reader.rs:616-634 | the first match of two conditions is the first match of the second in the list selected by the first |
| `Lists.GroupedIsPermutation` | crates/axiomdb-catalog/src/reader.rs:439-453 | grouping by distinct keys loses and repeats nothing if and only if the keys cover all elements |
| `Lists.SortIsSorted` | crates/axiomdb-catalog/src/reader.rs:466-478 | sorting gives a sorted permutation |
| `Lists.LexLeIff` | crates/axiomdb-catalog/src/reader.rs:176-192 | names are ordered by prefix or by the first byte that differs |
| `Lists.SortIsStable` | crates/axiomdb-catalog/src/reader.rs:466-478 | elements that compare equal keep their order |
| `Scans.ScanVisible` | crates/axiomdb-storage/src/heap_chain_scan.rs:98-115 | every visible row is at the place given by the number of visible rows before it, and nothing else is returned; root 0 is empty, a missing page an error |
| `Scans.VisibleIff` | crates/axiomdb-storage/src/heap.rs:90-111 | a row is visible if and only if its creation is seen and no deletion of it is |
| `Scans.VisibleShows` | crates/axiomdb-storage/src/heap_chain_scan.rs:98-115 | the visible rows of any heap, each at its place, and no others |
| `Scans.VisibleConcat` | crates/axiomdb-storage/src/heap_chain_scan.rs:98-115 | a longer chain shows what its parts show, in order |
| `Scans.FindFirst` | crates/axiomdb-catalog/src/reader.rs:153-173 | the loop with early return: a result is a match that no match and no undecodable row precedes, none means all rows decode and none matches, an error is that of the first undecodable row, with no match before it |
| `Scans.CollectAll` | crates/axiomdb-catalog/src/reader.rs:483-494 | the loop collects all matches in order if every row decodes, and else fails with the error of the first row that does not |
| `Scans.CollectDecodable` | crates/axiomdb-catalog/src/reader.rs:573-588 | the lenient loop collects the matches among the rows that decode |
| `Scans.FindDecodable` | crates/axiomdb-catalog/src/reader.rs:616-634 | the lenient loop finds the first match among the rows that decode |
| `Scans.AllMeans` | crates/axiomdb-catalog/src/reader.rs:466-494 | a strict listing succeeds if and only if every row decodes, and is then the lenient one |
| `Scans.FirstMeans` | crates/axiomdb-catalog/src/reader.rs:95-106 | when every row decodes, a strict lookup is the first match of the lenient list |
| `Scans.FirstTells` | crates/axiomdb-catalog/src/reader.rs:95-106 | a strict lookup by positions: found, not found and error, each if nothing comes before it |
| `Reader.Open` | crates/axiomdb-catalog/src/reader.rs:49-59 | a reader holds what the meta page says; it cannot be opened on an uninitialised catalog, and can be opened on any other unless the storage fails |
| `Reader.LookupIn` | crates/axiomdb-catalog/src/reader.rs:194-215 | lookups whose legacy answer is none |
| `Reader.AllIn` | crates/axiomdb-catalog/src/reader.rs:217-234 | listings whose legacy answer is empty |
| `Reader.LookupDatabase` | crates/axiomdb-catalog/src/reader.rs:153-173 | the legacy default database, or the first row with the name; found if and only if it is listed |
| `Reader.AllDatabases` | crates/axiomdb-catalog/src/reader.rs:176-192 | the visible databases, none lost, their names in byte-wise order |
| `Reader.OwnerOf` | crates/axiomdb-catalog/src/reader.rs:411-436 | the database of the first binding of the table, or the default if it has none |
| `Reader.TablesOf` | crates/axiomdb-catalog/src/reader.rs:130-145 | the tables a database owns, in one schema or in all, in stored order, or the first error in evaluation order |
| `Reader.LookupTable` | crates/axiomdb-catalog/src/reader.rs:72-90 | the first table with schema and name that the database owns |
| `Reader.LookupSchema` | crates/axiomdb-catalog/src/reader.rs:353-384 | true if and only if the schema is listed or, once there is a schemas root, owns a table |
| `Reader.AllSchemas` | crates/axiomdb-catalog/src/reader.rs:387-408 | their names in byte-wise order, all of the database, and public among them |
| `Reader.ColumnsOf` | crates/axiomdb-catalog/src/reader.rs:466-478 | exactly the visible columns of the table, in ascending index |
| `Reader.DecodableMatches` | crates/axiomdb-catalog/src/reader.rs:573-612 | child-side and parent-side foreign keys and constraints, undecodable rows passed over |
| `Reader.LookupFkByName` | crates/axiomdb-catalog/src/reader.rs:616-634 | the first foreign key of a child with the name |
| `Reader.NextForeignId` | crates/axiomdb-catalog/src/reader.rs:993-1008 | the running maximum plus one, wrapped to 32 bits |
| `Reader.DatabasesListed` | crates/axiomdb-catalog/src/reader.rs:148-192 | the list of databases is a permutation of the visible rows sorted by name, and a database can be looked up if and only if it is listed |
| `Reader.SchemasListed` | crates/axiomdb-catalog/src/reader.rs:353-408 | the schemas of a database are public and exactly those with a row, sorted by name, all of that database, and the schema test finds each of them |
| `Reader.SchemaExistsIff` | crates/axiomdb-catalog/src/reader.rs:353-384 | the schema test in terms of the list of schemas and of the tables, both directions |
| `Reader.ColumnsListed` | crates/axiomdb-catalog/src/reader.rs:466-478 | a column is listed if and only if it is stored for the table, in ascending index, none lost |
| `Reader.FirstBindingWins` | crates/axiomdb-catalog/src/reader.rs:411-436 | the owner of a table is the database of its first binding, with no binding before it, or the default if there is none |
| `Ownership.OwnedMeans` | crates/axiomdb-catalog/src/reader.rs:439-453 | listing a database succeeds if and only if every table row decodes and has a readable owner, and then selects the tables with that owner |
| `Ownership.DatabasesPartitionTables` | crates/axiomdb-catalog/src/reader.rs:411-461 | listing distinct databases one by one gives every visible table exactly once if and only if every owner is among them, with missing or duplicate bindings alike |
| `Ownership.OneOwner` | crates/axiomdb-catalog/src/reader.rs:431-461 | a table is listed under the database its effective binding names and under no other |
| `Ownership.SchemaSplits` | crates/axiomdb-catalog/src/reader.rs:130-145 | one schema of a database is the database list, filtered |
| `Ownership.SchemasPartitionDatabase` | crates/axiomdb-catalog/src/reader.rs:130-145 | the schema lists of a database make up its list if and only if the schemas cover it |
| `Ownership.LookupIsFirstListed` | crates/axiomdb-catalog/src/reader.rs:72-90 | a lookup by name is the first such entry of the schema list; the implicit schema test is that list being non-empty |
| `Ownership.SidesAreDual` | crates/axiomdb-catalog/src/reader.rs:573-612 | the child-side and the parent-side lists each hold every decodable visible foreign key exactly once if and only if the tables cover that side, and the keys between two tables read the same from both |
| `Ownership.FkByNameIsFirstListed` | crates/axiomdb-catalog/src/reader.rs:616-634 | a foreign key by name is the entry of the child list with that name and none of that name before it, and none exactly if no entry has the name |
| `Ownership.NextForeignIdFresh` | crates/axiomdb-catalog/src/reader.rs:993-1008 | the next id is the largest in use (or the base) plus one, wrapped to 32 bits; it is in the reserved range and above every id in use if and only if the largest 32-bit id is not taken |
| `Ownership.LastIdWraps` | crates/axiomdb-catalog/src/reader.rs:993-1008 | a catalog whose one foreign table has the largest 32-bit id gets 0 as its next id |
| `Upgrade.LookupsAgree` | crates/axiomdb-catalog/src/reader.rs:194-345 | every lookup in a table without seed answers the same before and after, whatever it decodes and selects |
| `Upgrade.DatabasesAgree` | crates/axiomdb-catalog/src/reader.rs:153-192 | databases look the same before and after if and only if the row of the default database was not lost |
| `Upgrade.SchemasAgree` | crates/axiomdb-catalog/src/reader.rs:387-408 | the list of schemas never changes |
| `Upgrade.OwnersAgree` | crates/axiomdb-catalog/src/reader.rs:411-436 | table ownership never changes |
| `Upgrade.TablesAgree` | crates/axiomdb-catalog/src/reader.rs:72-145 | table lists and table lookups never change |
| `Upgrade.SchemaExistsAgrees` | crates/axiomdb-catalog/src/reader.rs:353-384 | the schema test changes if and only if the schemas root was just made and a table of that (non-public) schema belongs to the database or looking for one fails; it changes from false to true or to that failure |
| `Upgrade.SchemaAppears` | crates/axiomdb-catalog/src/reader.rs:353-384 | a legacy file with any one table row that decodes to a schema other than public: the schema test answers false before the upgrade and true after it |
| `Upgrade.UpgradeIsInvisible` | crates/axiomdb-catalog/src/bootstrap.rs:346-450 | after a successful upgrade databases, schema lists, ownership, tables and every lookup in every other catalog table, whatever it decodes and selects, answer as before, for every valid snapshot; and the schema test does unless the schemas root was just made and a table of the schema shows |
| `Upgrade.RunIsInvisible` | crates/axiomdb-catalog/src/bootstrap.rs:346-604 | over any run of bootstrap calls, stopped or not, every lookup outside databases and schemas is unchanged, the schema test changes only as above, and namespaces change if and only if a stop lost the row of the default database |
| `Resolver.ResolvesIffExists` | crates/axiomdb-catalog/src/resolver.rs:94-143 | on sound storage a table resolves if and only if it exists and all column and index rows decode |
| `Resolver.ExistsIffListed` | crates/axiomdb-catalog/src/resolver.rs:125-143 | a table exists if and only if the database lists it in the schema named, or in the default one if none is |
| `Resolver.NotFoundIff` | crates/axiomdb-catalog/src/resolver.rs:94-123 | a table is reported as not found if and only if it does not exist |
| `Resolver.ResolvedColumns` | crates/axiomdb-catalog/src/resolver.rs:94-123 | the columns of a resolved table are the visible columns of that table, sorted by index, equal indexes in stored order |
| `Resolver.ResolvedBelongs` | crates/axiomdb-catalog/src/resolver.rs:94-123 | the schema is the one named, or the default one if none is; name and database are those asked for; the columns, indexes, constraints and foreign keys are exactly those stored for the table, and each foreign key is listed by its parent too |
| `Resolver.ColumnResolvesIffListed` | crates/axiomdb-catalog/src/resolver.rs:145-173 | a column of a resolved table resolves if and only if its name is listed, to the listed column of that name with the lowest index; any error is the column not found in that table, or one of reading |
| `Utf8.ValidUtf8Iff` | crates/axiomdb-catalog/src/schema_constraints.rs:528-542 | the acceptance test for text holds if and only if the bytes are the UTF-8 encoding of some sequence of scalar values |

## Left out

- `TableDef`, `ColumnDef`, `IndexDef` and `ForeignTableDef` row codecs: decoders given to the reader as parameters, so every result holds for any of them.
- Sequence, enum, foreign server, calendar, exchange rate and statistics row codecs: not modelled. Lookups in those tables are, with any decoder.
- Catalog writer, id allocation and dropping of objects: only row inserts by it appear, as steps between bootstrap calls.
- Page layout of heap chains, checksums, locking and what survives a crash of the file system: a heap is the sequence of its rows.
- Storage failures while the reader scans: the reader's storage is a value; a missing page is an error, other failures of reads are not modelled there.
- Limits of the JavaScript engine on string and buffer sizes, and the payload of NaN: not modelled. A number is the bits of its double.
- Conversion of decimals, dates and other values to text, and lossy UTF-8 decoding: values arrive as the bytes or the function they convert with.
- Error messages: reduced to their kinds.
- Ruby binding, handles, foreign function calls, statement execution and the graphical studio: not modelled.
- Change notification: not modelled.
- Bootstrap.CreateRoots: the source writes its twelve blocks out one after the other; here they are one loop over the same order.
- Bootstrap.PageIdsOf: likewise one loop over the 18 slots, in slot order.
- Bootstrap.EnsureRoot: the nine calls are one method with the slot as parameter.
- Reader.DecodableMatches: the child-side, parent-side and constraint listings are one loop with the condition as parameter.
- Packed.GoParsePacked: the capacity of slices and out-of-memory stops are not modelled.
- Params.EncodersAgree: says nothing about which error comes first when Python refuses a parameter.
- Upgrade.UpgradeIsInvisible: for snapshots that start at 1 or later and have no transaction 0 in flight, as the transaction manager hands them out.
