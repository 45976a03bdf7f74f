# rs-gfa core in Dafny

A model of the core of `rs-gfa`, a Rust library that reads and writes GFA 1
graph-assembly files. It has three parts.

- **The optional-field codec** (`src/optfields.rs`). It handles the SAM-style
  `TAG:TYPE:VALUE` fields of section 1.5 of the SAM v1 specification.
  - `OptField::tag` and `OptField::new` check tags.
  - `OptField::parse` decodes the eight value kinds: `A`, `i`, `f`, `Z`, `J`,
    `H`, and `B` with integer or float elements.
  - `Display` encodes a field.
  - Two field stores implement the `OptFields` trait: the no-op `()` store and
    the order-keeping `Vec<OptField>` store.
- **The line grammar** (`src/parser.rs`).
  - The line filter built from a `GFAParsingConfig`.
  - The two token rules: `parse_name` and `parse_sequence`.
  - One parser per record kind: header, segment, link, containment and path.
  - The dispatcher `GFAParser::parse_line`.
- **The writer** (`src/writer.rs`). Header, segment, link and path lines are
  written into a text stream, and so is a whole graph.

Modules:

| module | file | contents |
|---|---|---|
| `Wrappers` | `wrappers.dfy` | `Option`, and `Outcome` (`Ok`, `Rejected` for Rust's `None`, `Panic` for an abort). |
| `Bytes` | `bytes.dfy` | Bytes, and the ASCII classes the regular expressions use. |
| `Seqs` | `seqs.dfy` | `Split`/`Join` on a separator, `Flatten`, filter-map, and their laws. |
| `Scan` | `scan.dfy` | Leftmost-match scanning: the first position where a pattern can start, and the longest run from there. |
| `Numbers` | `numbers.dfy` | Rust's `i64`/`usize` `FromStr` and decimal `Display`, hex digits, and the grammar `f32::from_str` accepts. |
| `OptFields` | `optfields.dfy` | The codec and the two stores. |
| `Parser` | `parser.dfy` | Configuration, filter, token rules, record parsers and dispatcher. |
| `Writer` | `writer.dfy` | The writer, on its own record types. |

Modelling choices:

- **Bytes.** A byte is a `char` below 256. Every regular expression of the
  source is a leftmost-match scanning function written for its pattern.
- **Panics.** A Rust panic is an explicit `Panic` outcome. Three are modelled:
  - the tag assertions;
  - indexing `o_contents[0]` of an empty `B` value;
  - slicing `s[0..1]` of an empty line in the filter.
- **Tab-free tokens.** The record parsers take the tokens that follow the
  record letter, as `split_str(b"\t")` yields them.
- **The writer's types.** The writer works on the record types of `crate::gfa`,
  which differ from the parser's. `Writer` declares its own small versions.
- **Display as parameters.** The `Display` of the writer's `OptionalField` and
  of `Orientation` lives in `src/gfa.rs`, which is not part of this model. Both
  are passed in as a `Formatting` value.
- **Streams.** Each writer method appends to a byte stream. It is specified
  against a pure function giving the text of the line or file.

## Model

| member | source | states |
|---|---|---|
| OptFields.MakeTag | src/optfields.rs:39-44 | A tag is accepted exactly when it is two bytes, alphabetic then alphanumeric. The result holds those two bytes. Every other input panics. |
| OptFields.New | src/optfields.rs:49-52 | A field is built exactly when its tag is valid. It then carries that tag and the given value unchanged. Otherwise it panics. |
| OptFields.IntMatch | src/optfields.rs:61 | The leftmost match of `[-+]?[0-9]+`. It is absent exactly when no position can start one. It starts at the first such position and takes every digit that follows. The matched text is an integer literal. |
| OptFields.FloatMatch | src/optfields.rs:62-64 | The leftmost match of the float pattern. It is absent exactly when no position can start one. It starts at the first such position. It ends where the mantissa after the optional sign ends, or after the exponent when one follows. The matched text is one that `f32` parsing accepts. |
| OptFields.MantissaShape | src/optfields.rs:62-64 | The mantissa `[0-9]*\.?[0-9]+` holds digits and at most one point. It stops before a point followed by a digit only when it already holds a point. |
| OptFields.FloatMatchIsLiteral | src/optfields.rs:91-95 | Whatever the float pattern matches is accepted by `f32::from_str`, so the `parse().ok()` after the match never fails. |
| OptFields.DecodeChar | src/optfields.rs:83 | An `A` value is the first visible byte of the contents. It is absent exactly when no byte is visible. |
| OptFields.DecodeInt | src/optfields.rs:85-89 | An `i` value is present exactly when a leftmost integer match exists and fits an `i64`. It is the value of that match. A match that overflows gives no value, and no later match is tried. |
| OptFields.DecodeFloat | src/optfields.rs:91-95 | An `f` value is present exactly when the float pattern matches. It is exactly the matched text, found at the first possible position, and it is an `f32` literal. |
| OptFields.DecimalDecodes | src/optfields.rs:91-95 | Contents of the form digits, point, one or more digits decode to the whole contents. |
| OptFields.DecodeText | src/optfields.rs:97-105 | A `Z`/`J` value is the leftmost longest run of `[ !-~]`. It is absent exactly when no byte is printable. |
| OptFields.DecodeHex | src/optfields.rs:107-111 | An `H` value is the leftmost longest run of `[0-9A-F]`, one element per digit holding that digit's value, so every element is below 16. It is absent exactly when no upper-case hex digit occurs. |
| OptFields.DecodeArray | src/optfields.rs:113-123 | A `B` value is a float array exactly when the first byte is `f`, otherwise an integer array. It never has more elements than comma-separated pieces. Float elements are `f32` literals. |
| OptFields.DecodeValue | src/optfields.rs:81-128 | A decoded value has the requested type letter and is well formed. Each type letter uses its own decoder: the value is present exactly when that decoder finds one, and it is that decoder's result. A `B` value panics exactly when its contents are empty, and otherwise is the array decoder's result. No other type letter panics. |
| OptFields.Parse | src/optfields.rs:56-131 | Inputs shorter than five bytes, or with an unknown type letter at byte 3, are refused. A decoded field has the first two bytes as its tag and byte 3 as its type, and is well formed. A refused value makes the whole field refused, whatever the tag. A value that panics passes its panic on. A value that decodes gives the field with that value when the tag is valid, and an invalid-tag panic otherwise. |
| OptFields.SeparatorsUnchecked | src/optfields.rs:72-79 | Bytes 2 and 4 are never looked at: changing them does not change the result. |
| OptFields.IntArrayDecode | src/optfields.rs:113-122 | Contents that start with a byte other than `f` decode to exactly the comma-separated pieces that parse as `i64`, in order. |
| OptFields.ParseUpperHexField | src/optfields.rs:107-111 | An `H` field whose value is all upper-case hex digits parses to one element per digit, each that digit's value. |
| OptFields.ParseTextField | src/optfields.rs:97-100 | A `Z` field whose value is printable throughout keeps the whole value text. |
| OptFields.ParseCharField | src/optfields.rs:83 | An `A` field with one visible byte keeps that byte. |
| OptFields.ParseIntArrayField | src/optfields.rs:113-121 | An integer-array field keeps the pieces that parse, in order. |
| OptFields.ParseFromValue | src/optfields.rs:128-130 | A valid tag, a known type letter and a value that decodes give exactly that tag and value. |
| OptFields.EncodeValueWith | src/optfields.rs:143-170 | The written value starts with its type letter and a colon. |
| OptFields.RoundTrip | src/optfields.rs:134-148 | For `A`, `i`, `Z`, `J` and integer-array fields that are well formed and writable, parsing the `Display` text gives back the same field. |
| OptFields.IntendedRoundTrip | src/optfields.rs:134-172 | Every well-formed, writable field except a float parses back from the intended encoding: upper-case hex digits and the `B:f` marker. |
| OptFields.ValueRoundTrip | src/optfields.rs:143-169 | The value part of that round trip: the written type letter is known, and the decoder reads the written value back. |
| OptFields.IntValueRoundTrip | src/optfields.rs:85-89 | The decimal text of every `i64` decodes to that integer. |
| OptFields.TextRoundTrip | src/optfields.rs:97-105 | A non-empty printable text decodes to itself. |
| OptFields.HexValueRoundTrip | src/optfields.rs:107-111 | Digits below 16, written in upper case, decode to the same digits. |
| OptFields.IntArrayRoundTrip | src/optfields.rs:156-162 | A non-empty integer array, written as `I` and comma-joined decimals, decodes to the same array. |
| OptFields.FloatArrayRoundTrip | src/optfields.rs:163-169 | A non-empty array of `f32` literals, written with the `f` marker, decodes to the same array. |
| OptFields.HexRoundTripFails | src/optfields.rs:149-155 | The `H` value `[10]` is written `SH:H:a`, and that text is refused by the parser. |
| OptFields.FloatArrayRoundTripFails | src/optfields.rs:163-169 | The float array `[1.5]` is written `B:F1.5`, and it reads back as an empty integer array. |
| OptFields.EmptyArrayNotEncodable | src/optfields.rs:156-157 | `XY:B:I` parses to an empty integer array, which `Display` cannot write because it indexes element 0. |
| OptFields.UnitStoreIsEmpty | src/optfields.rs:201-216 | The `()` store accepts any tokens, finds no field under any tag, and lists no fields. |
| OptFields.ParseFieldVec | src/optfields.rs:231-240 | The `Vec` store never refuses. It succeeds exactly when no token panics, and then keeps exactly the tokens that decode, in input order. Otherwise it reports the first token's panic. |
| OptFields.ParseFieldVecAllDecoded | src/optfields.rs:236-239 | When every token decodes, the store holds every decoded field, in order. |
| OptFields.ParseFieldVecDropsMalformed | src/optfields.rs:236-239 | A token that does not decode can be removed without changing the result. |
| OptFields.GetField | src/optfields.rs:223-225 | The first stored field with the requested tag. It is absent exactly when no field has that tag. |
| Parser.OrientationFromBytes | src/parser.rs:282 | An orientation is read exactly from `+` (forward) or `-` (backward). |
| Parser.NoneConfig | src/parser.rs:159-166 | `none()` enables no record kind. |
| Parser.AllConfig | src/parser.rs:169-176 | `all()` enables every record kind. |
| Parser.FilterString | src/parser.rs:178-191 | The filter string starts with `H`. A letter is in it exactly when it is `H` or the letter of an enabled kind. |
| Parser.FilterStringOrdered | src/parser.rs:179-191 | The filter string lists its letters in the order `H`, `S`, `L`, `C`, `P`, so no letter appears twice. |
| Parser.Filter | src/parser.rs:192-198 | A line passes unchanged exactly when its first byte is `H` or an enabled kind's letter. An empty line panics, and every other line is refused. |
| Parser.AllConfigPassesEveryKind | src/parser.rs:169-198 | With `all()`, a line passes exactly when it starts with one of `HSLCP`. |
| Parser.NoneConfigPassesOnlyHeaders | src/parser.rs:159-198 | With `none()`, a line passes exactly when it starts with `H`. |
| Parser.FindName | src/parser.rs:231-242 | The leftmost match of `[!-)+-<>-~][!-~]*`: absent exactly when no byte can start a name. A match is non-empty, visible throughout, and does not start with `*` or `=`. |
| Parser.FindSequence | src/parser.rs:244-255 | The leftmost match of either `*` or `[A-Za-z=.]+`, the star tried first: absent exactly when no byte can start one. A match is either `*` alone or a maximal run of sequence letters at the first possible position. |
| Parser.ParseHeader | src/parser.rs:210-228 | A header is produced exactly when the first token decodes to a `Z` value, whatever its tag, and the store accepts the rest. Its version is that text and its optional part is the store's result. It panics exactly when the first token's parse panics, or that parse succeeds and the store panics, with the same reason. The store runs before the `Z` check, so its panic comes out for any decoded version. |
| Parser.ParseSegment | src/parser.rs:257-272 | A segment is produced exactly when a name and a sequence are found in the first two tokens and the store accepts the rest. It holds exactly those three parts. It panics exactly when the name and sequence are found and the store panics, with the store's reason. |
| Parser.ParseLink | src/parser.rs:274-297 | A link needs five tokens: two names, each followed by a valid orientation, and the store's success on the rest. Its overlap is the fifth token verbatim. It panics exactly when all five tokens are read and the store panics, with the store's reason. |
| Parser.ParseContainment | src/parser.rs:299-329 | A containment also needs a `usize` position in the fifth token. Its overlap is the sixth token verbatim. It panics exactly when all six tokens are read and the store panics, with the store's reason. |
| Parser.ParsePath | src/parser.rs:331-358 | A path needs a name and two more tokens. The segment list is the second token verbatim. The overlaps are the third token split on commas: comma-free, and joining back to that token. It panics exactly when the name and the two tokens are read and the store panics, with the store's reason. |
| Parser.ParseLine | src/parser.rs:96-113 | An empty line panics. A line whose first byte is not enabled is refused, like a malformed one. A parsed line passed the filter, and its first tab-separated field is exactly the letter of the record kind produced. A first field that is not a record letter is refused. |
| Parser.Dispatch | src/parser.rs:101-108 | A first field that is not one of the five record letters is refused. Each letter's result is exactly its record parser's: produced exactly when that parser produces a record, holding that record, and panicking exactly when it panics, with the same reason. |
| Parser.ParseJoinedLine | src/parser.rs:96-109 | A line made of an enabled first field and tab-free tokens joined by tabs gives exactly what the dispatch makes of that field and those tokens. |
| Parser.EveryLineJoined | src/parser.rs:96-109 | Every line with an enabled first byte is its fields joined back, and gives what the dispatch makes of them. |
| Parser.SegmentLineParsed | src/parser.rs:101-103 | An `S` line under a configuration with segments enabled yields exactly the segment parser's record of its fields, and is refused or panics exactly when that parser is. |
| Parser.DisabledKindsNeverParsed | src/parser.rs:96-113 | No segment, link, containment or path comes out of a configuration that disables that kind. |
| Parser.LongerKindRejected | src/parser.rs:100-108 | A first field longer than one byte is refused even when its first byte passes the filter. |
| Parser.HeaderExample | src/parser.rs:364-380 | `VN:Z:1.0`, under any valid tag, gives version `1.0`. |
| Parser.LinkExample | src/parser.rs:382-401 | `11 + 12 - 4M` gives the link from `11` forward to `12` backward with overlap `4M`. |
| Parser.ContainmentExample | src/parser.rs:403-426 | `1 - 2 + 110 100M` gives the containment at position 110 with overlap `100M`. |
| Parser.PathExample | src/parser.rs:428-449 | `14`, `11+,12-,13+`, `4M,5M` give that name and segment list, and the overlaps `4M` and `5M`. |
| Parser.SegmentFieldsExample | src/parser.rs:475-485 | The six optional fields of the segment test each decode as listed, in order. This includes `AACCFF05` as `[A,A,C,C,F,F,0,5]`. |
| Parser.SegmentExample | src/parser.rs:467-507 | The segment test under both stores. The fixed fields agree, and the `Vec` store keeps all six fields in order. |
| Parser.HexFieldExample | src/parser.rs:477-480 | `SH:H:AACCFF05` decodes to the digits `A,A,C,C,F,F,0,5`. |
| Writer.WriteOptionalFields | src/writer.rs:21-36 | The fields are written in order, with a tab between neighbours only: never before the first or after the last. |
| Writer.FieldsSplitBack | src/writer.rs:21-36 | Splitting that output on tabs gives back each field's text, when no field text holds a tab. |
| Writer.WriteOptionals | src/writer.rs:4-19 | Only the candidates that are present are written, in their fixed order, each directly after the previous one. |
| Writer.WriteHeader | src/writer.rs:38-44 | The header line is `H\tVN:Z:<v>` for a version and `H` otherwise. |
| Writer.HeaderTokens | src/writer.rs:38-44 | With a tab-free version, the header splits into `H` and `VN:Z:<v>`, or is `H` alone. |
| Writer.WriteSegment | src/writer.rs:47-60 | Appends the segment's line. |
| Writer.SegmentTokens | src/writer.rs:47-51 | A segment with no optional data splits into exactly `S`, the name and the sequence. |
| Writer.SegmentExample | src/writer.rs:160-165 | The segment `seg1`/`GCCCTA` is written `S\tseg1\tGCCCTA`. |
| Writer.SegmentFieldGlued | src/writer.rs:49-59 | A segment with only a length splits into three tokens. The last one is the sequence with the `LN` field run into it. |
| Writer.SegmentTokensIntended | src/writer.rs:47-59 | With a tab before each optional field, the line splits into `S`, the name, the sequence and each field's text, in order. |
| Writer.WriteLink | src/writer.rs:69-91 | Appends the link's line. |
| Writer.LinkTokens | src/writer.rs:72-81 | A link with no optional data splits into `L`, the two names with their orientations, and the overlap. |
| Writer.LinkExample | src/writer.rs:167-178 | The link `13 +` to `552 -` with overlap `0M` is written `L\t13\t+\t552\t-\t0M`. |
| Writer.LinkRepeatsTag | src/writer.rs:84-89 | A link with a mapping quality, a mismatch count and a read count writes them under `LN`, `RC` and `RC`. |
| Writer.LinkTagsDistinct | src/writer.rs:84-89 | Under the GFA 1 tags `MQ`, `NM`, `RC`, `FC`, `KC`, `ID`, the written fields never share a tag. |
| Writer.WritePath | src/writer.rs:100-121 | Appends the path's line. |
| Writer.WriteCommaList | src/writer.rs:103-118 | The items are written in order, with a comma between neighbours only. |
| Writer.PathTokens | src/writer.rs:100-118 | A path without optional fields splits into `P`, the name, the steps and the overlaps. The steps and overlaps each split back on commas. |
| Writer.PathExample | src/writer.rs:180-193 | The test path is written `P\tpath1\t13+,51-,241+\t8M,1M,3M`. |
| Writer.WriteSegments | src/writer.rs:133-136 | Every segment's line is written in order, each followed by a newline. |
| Writer.WritePaths | src/writer.rs:138-141 | Every path's line is written in order, each followed by a newline. |
| Writer.WriteLinks | src/writer.rs:143-146 | Every link's line is written in order, each followed by a newline. |
| Writer.WriteGfa | src/writer.rs:130-147 | Writes the header, every segment, every path and every link, in that order, each line ending in a newline. |
| Writer.GfaLinesBack | src/writer.rs:130-147 | The file splits back into exactly those lines when no line holds a newline. Containments never change the output. |

## Left out

- `GFAParser::parse_all` and `GFAParser::parse_file` (`src/parser.rs:81-93`,
  `115-137`): file reading and iteration, and `GFA::insert_line` from
  `src/gfa.rs`, which is not part of this model.
- `parse_usize` (`src/parser.rs:43-77`): it is commented out.
- The `*_string` wrappers of the writer: each only writes into an empty
  `String`, which is a writer method called with an empty stream.
- Write errors: writing to a `String` cannot fail, so the writer's `unwrap`
  and `expect` panics are left out.
- Float values: `f` and `B:f` elements are kept as the text that `f32` parsing
  accepts, not as `f32` numbers. `RoundTrip` and `IntendedRoundTrip` exclude
  the single `f` value.
- OptFields.EncodeValueWith: writes a float value, and each float-array
  element, as the text it was read from, not with Rust's `f32` `Display`, which
  writes the shortest form (`+1.50` as `1.5`, `1e5` as `100000`). The `B:f`
  round trips (`IntendedRoundTrip`, `FloatArrayRoundTrip`) therefore compare
  elements as text, not with `f32` equality, under which `NaN` never equals
  itself.
- `from_utf8` on matched text: the matched patterns are ASCII, so it never
  fails. `A` values and tag bytes are written back as `char::from` of the
  byte, which is its UTF-8 encoding, and non-ASCII text is otherwise not
  modelled.
- The `_ => panic!` arm of `OptField::parse` (`src/optfields.rs:124-127`): it
  cannot be reached after the type-letter check.
- The `print_gfa` test and `lil.gfa` (`src/writer.rs:198-210`,
  `src/parser.rs:451-465`): they read a file.
- No round trip between the parser and the writer. The writer's record types
  are not the parser's. Its optional output has no leading tab (see Findings).
- `Orientation::from_bytes` and the `Display` of `Orientation` and
  `OptionalField` are in `src/gfa.rs`, which is not part of this model. The
  parser reads `+` and `-`. The writer takes both displays as parameters.
- The `usize` type of a containment's position also comes from the
  `Containment` record in `src/gfa.rs`. The parser itself only calls
  `p.parse().ok()` (`src/parser.rs:314`). The model reads the position as
  Rust's `usize` on a 64-bit target, with `str::parse` rules.
- OptFields.DecodeArray: states the element kind and a bound on the number of
  elements, not the elements themselves. `IntArrayDecode` and
  `FloatArrayRoundTrip` give the contents for the inputs they cover.
- Writer.WriteSegment: states its output as the line text function
  `SegmentText`. What that text means is stated by `SegmentTokens`,
  `SegmentExample` and `SegmentFieldGlued`.
- Writer.WriteLink: as for `WriteSegment`, with `LinkTokens`, `LinkExample`
  and `LinkRepeatsTag`.
- Writer.WritePath: as for `WriteSegment`, with `PathTokens` and
  `PathExample`.

Where the documentation and the code disagree, this model follows the code.

- `Display` is documented as producing text that `OptField::parse` reads back,
  but it does not do so for `H` and float-array values.
- A field needs at least five bytes, since the value text is `input[5..]`.

## Findings

| source | as written | input that shows it | evidently intended | confidence | as-written member | corrected member |
|---|---|---|---|---|---|---|
| src/optfields.rs:149-155 | `H` digits are written with `{:x}`, in lower case, and the decoder reads only `[0-9A-F]` | `H([10])` is written `SH:H:a`, which parses to `None` | upper-case digits (`{:X}`), so that the value reads back | high; not executed | OptFields.HexRoundTripFails | OptFields.IntendedRoundTrip |
| src/optfields.rs:163-169 | a float array is written with the marker `B:F`, and the decoder tests for `f` | `BFloat([1.5])` is written `B:F1.5`, which parses to `BInt([])` | the marker `f`, as the decoder and the SAM specification expect | high; not executed | OptFields.FloatArrayRoundTripFails | OptFields.IntendedRoundTrip |
| src/writer.rs:53-59 | optional fields are written with no tab between the fixed fields and the first optional field | a segment `s1`/`ACGT` with `segment_length` 4 is written `S\ts1\tACGT` followed directly by the `LN` field | a tab before each optional field, as every GFA line separates fields | medium; not executed | Writer.SegmentFieldGlued | Writer.SegmentTokensIntended |
| src/writer.rs:84-89 | `map_quality` is written under `LN` and `num_mismatches` under `RC`, next to `read_count`, also under `RC`; `edge_id` goes under `SH` | a link with a mapping quality, a mismatch count and a read count gets `LN`, `RC`, `RC` | the GFA 1 link tags `MQ`, `NM`, `RC`, `FC`, `KC`, `ID`, with no tag repeated | high; not executed | Writer.LinkRepeatsTag | Writer.LinkTagsDistinct |

The corrected optional-field encoding is `OptFields.EncodeIntended`. The
corrected segment text is `Writer.SegmentTextIntended`, and the corrected link
tags are `Writer.GFA1_LINK_TAGS`. The writer methods themselves follow the
code as written.
