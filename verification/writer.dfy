/** The GFA writer: each record is written field by field into a text stream.
    The writer works on the older record types of `crate::gfa`, which differ from
    the parser's, so they are declared here. How an optional field and an
    orientation are displayed is given as a `Formatting` value. */
module Writer {
  import opened Wrappers
  import opened Bytes
  import opened Seqs
  import opened Numbers
  import Parser

  const NEWLINE: byte := '\n'

  /** The orientation type is shared with the parser. */
  type Orientation = Parser.Orientation

  /** The `OptionalFieldValue` variants the writer builds. */
  datatype OptionalFieldValue =
    | SignedInt(number: i64)
    | ByteArray(data: bytes)
    | PrintableString(text: bytes)

  datatype OptionalField = OptionalField(tag: bytes, content: OptionalFieldValue)

  /** The `Display` implementations the writer relies on. */
  datatype Formatting = Formatting(field: OptionalField -> bytes, orientation: Orientation -> bytes)

  datatype Segment = Segment(
    name: bytes, sequence: bytes,
    segmentLength: Option<i64>, readCount: Option<i64>, fragmentCount: Option<i64>,
    kmerCount: Option<i64>, sha256: Option<bytes>, uri: Option<bytes>,
    optionalFields: seq<OptionalField>)

  datatype Link = Link(
    fromSegment: bytes, fromOrient: Orientation,
    toSegment: bytes, toOrient: Orientation, overlap: bytes,
    mapQuality: Option<i64>, numMismatches: Option<i64>, readCount: Option<i64>,
    fragmentCount: Option<i64>, kmerCount: Option<i64>, edgeId: Option<bytes>,
    optionalFields: seq<OptionalField>)

  datatype Path = Path(
    pathName: bytes, segmentNames: seq<(bytes, Orientation)>, overlaps: seq<bytes>,
    optionalFields: seq<OptionalField>)

  /** A containment; the writer has no rule for it. */
  datatype Containment = Containment(
    containerName: bytes, containerOrient: Orientation,
    containedName: bytes, containedOrient: Orientation, pos: usize, overlap: bytes)

  datatype Gfa = Gfa(
    version: Option<bytes>, segments: seq<Segment>, links: seq<Link>,
    containments: seq<Containment>, paths: seq<Path>)

  // ---------------------------------------------------------------------------
  // Optional output

  /** The text of each field, in order. */
  function FieldTexts(fmt: Formatting, fields: seq<OptionalField>): seq<bytes> {
    MapSeq(fields, fmt.field)
  }

  /** The field a `write_optional!` invocation builds, when its value is present. */
  function Tagged<T>(tag: bytes, wrap: T -> OptionalFieldValue, value: Option<T>): Option<OptionalField> {
    match value
    case Some(v) => Some(OptionalField(tag, wrap(v)))
    case None => None
  }

  /** The fields that a run of `write_optional!` invocations writes. */
  function Present(candidates: seq<Option<OptionalField>>): seq<OptionalField> {
    FilterMap(candidates, (o: Option<OptionalField>) => o)
  }

  /** `write_optional_fields`: every field, in order, a tab between consecutive ones. */
  method WriteOptionalFields(fmt: Formatting, fields: seq<OptionalField>, stream: bytes) returns (out: bytes)
    ensures out == stream + Join(FieldTexts(fmt, fields), TAB)
  {
    out := stream;
    var i := 0;
    while i < |fields|
      invariant 0 <= i <= |fields|
      invariant out == stream + Join(FieldTexts(fmt, fields[..i]), TAB)
    {
      var before := out;
      if i > 0 {
        out := out + [TAB];
      }
      out := out + fmt.field(fields[i]);
      assert FieldTexts(fmt, fields[..i + 1]) == FieldTexts(fmt, fields[..i]) + [fmt.field(fields[i])];
      if i > 0 {
        JoinSnoc(FieldTexts(fmt, fields[..i]), fmt.field(fields[i]), TAB);
      } else {
        assert FieldTexts(fmt, fields[..1]) == [fmt.field(fields[0])];
      }
      i := i + 1;
    }
    assert fields[..i] == fields;
  }

  /** A run of `write_optional!` invocations: the present values' fields, in
      invocation order, with nothing written between or before them. */
  method WriteOptionals(fmt: Formatting, candidates: seq<Option<OptionalField>>, stream: bytes)
    returns (out: bytes)
    ensures out == stream + Flatten(FieldTexts(fmt, Present(candidates)))
  {
    out := stream;
    var i := 0;
    while i < |candidates|
      invariant 0 <= i <= |candidates|
      invariant out == stream + Flatten(FieldTexts(fmt, Present(candidates[..i])))
    {
      PresentSnoc(fmt, candidates[..i], candidates[i]);
      assert candidates[..i + 1] == candidates[..i] + [candidates[i]];
      if candidates[i].Some? {
        out := out + fmt.field(candidates[i].value);
      }
      i := i + 1;
    }
    assert candidates[..i] == candidates;
  }

  /** One more invocation appends its field's text when its value is present. */
  lemma PresentSnoc(fmt: Formatting, cs: seq<Option<OptionalField>>, c: Option<OptionalField>)
    ensures Flatten(FieldTexts(fmt, Present(cs + [c])))
            == Flatten(FieldTexts(fmt, Present(cs))) + (if c.Some? then fmt.field(c.value) else [])
  {
    var id := (o: Option<OptionalField>) => o;
    FilterMapAppend(cs, [c], id);
    var fs := Present(cs);
    if c.Some? {
      assert FilterMap([c], id) == [c.value];
      assert FieldTexts(fmt, fs + [c.value]) == FieldTexts(fmt, fs) + [fmt.field(c.value)];
      FlattenAppend(FieldTexts(fmt, fs), [fmt.field(c.value)]);
    } else {
      assert FilterMap([c], id) == [];
      assert fs + [] == fs;
    }
  }

  /** Flattening a concatenation flattens each half. */
  lemma {:induction false} FlattenAppend<T>(xs: seq<seq<T>>, ys: seq<seq<T>>)
    ensures Flatten(xs + ys) == Flatten(xs) + Flatten(ys)
    decreases |xs|
  {
    if |xs| == 0 {
      assert xs + ys == ys;
    } else {
      FlattenAppend(xs[1..], ys);
      assert (xs + ys)[1..] == xs[1..] + ys;
    }
  }

  /** Splitting the optional-field output on tabs gives back each field's text,
      provided no text holds a tab itself: the tab only ever separates fields. */
  lemma FieldsSplitBack(fmt: Formatting, fields: seq<OptionalField>)
    requires |fields| > 0
    requires forall i :: 0 <= i < |fields| ==> TAB !in fmt.field(fields[i])
    ensures Split(Join(FieldTexts(fmt, fields), TAB), TAB) == FieldTexts(fmt, fields)
  {
    SplitJoin(FieldTexts(fmt, fields), TAB);
  }

  // ---------------------------------------------------------------------------
  // Header

  /** The header line: `H`, then a `VN` string field when there is a version. */
  function HeaderText(version: Option<bytes>): bytes {
    match version
    case Some(v) => Join<byte>(["H", VersionField(v)], TAB)
    case None => "H"
  }

  /** The `VN` string field carrying the version. */
  function VersionField(v: bytes): bytes {
    "VN:Z:" + v
  }

  /** `write_header`. */
  method WriteHeader(version: Option<bytes>, stream: bytes) returns (out: bytes)
    ensures out == stream + HeaderText(version)
  {
    if version.Some? {
      out := stream + "H\tVN:Z:" + version.value;
      var parts: seq<bytes> := ["H", VersionField(version.value)];
      assert parts[1..] == [VersionField(version.value)];
      assert Join(parts, TAB) == "H\t" + VersionField(version.value);
    } else {
      out := stream + "H";
    }
  }

  /** A header with a version is two tab-separated tokens, `H` and a `VN` string
      field holding the version; without one it is the record letter alone. */
  lemma HeaderTokens(version: Option<bytes>)
    requires version.Some? ==> TAB !in version.value
    ensures version.Some? ==> Split(HeaderText(version), TAB) == ["H", VersionField(version.value)]
    ensures version.None? ==> Split(HeaderText(version), TAB) == ["H"]
  {
    if version.Some? {
      var v := version.value;
      var f := VersionField(v);
      assert TAB !in f by {
        forall k | 0 <= k < |f|
          ensures f[k] != TAB
        {
          if k >= 5 {
            assert f[k] == v[k - 5];
          }
        }
      }
      var parts: seq<bytes> := ["H", f];
      assert parts[1..] == [f];
      SplitJoin(parts, TAB);
    } else {
      SplitWhole("H", TAB);
    }
  }

  // ---------------------------------------------------------------------------
  // Segment

  /** The `write_optional!` invocations of `write_segment`, in order. */
  function SegmentCandidates(seg: Segment): seq<Option<OptionalField>> {
    [ Tagged("LN", (n: i64) => SignedInt(n), seg.segmentLength),
      Tagged("RC", (n: i64) => SignedInt(n), seg.readCount),
      Tagged("FC", (n: i64) => SignedInt(n), seg.fragmentCount),
      Tagged("KC", (n: i64) => SignedInt(n), seg.kmerCount),
      Tagged("SH", (b: bytes) => ByteArray(b), seg.sha256),
      Tagged("UR", (s: bytes) => PrintableString(s), seg.uri) ]
  }

  /** The fixed fields of a segment line. */
  function SegmentFixed(seg: Segment): seq<bytes> {
    ["S", seg.name, seg.sequence]
  }

  /** A segment as `write_segment` writes it. */
  function SegmentText(fmt: Formatting, seg: Segment): bytes {
    Join(SegmentFixed(seg), TAB) + Flatten(FieldTexts(fmt, Present(SegmentCandidates(seg))))
      + Join(FieldTexts(fmt, seg.optionalFields), TAB)
  }

  /** `write_segment`. */
  method WriteSegment(fmt: Formatting, seg: Segment, stream: bytes) returns (out: bytes)
    ensures out == stream + SegmentText(fmt, seg)
  {
    out := stream + Join(SegmentFixed(seg), TAB);
    out := WriteOptionals(fmt, SegmentCandidates(seg), out);
    out := WriteOptionalFields(fmt, seg.optionalFields, out);
  }

  /** No optional data at all. */
  predicate SegmentBare(seg: Segment) {
    seg.segmentLength.None? && seg.readCount.None? && seg.fragmentCount.None?
    && seg.kmerCount.None? && seg.sha256.None? && seg.uri.None? && |seg.optionalFields| == 0
  }

  /** Nothing is written for absent values: a bare segment is its three fixed
      tokens, tab-separated, and nothing else. */
  lemma SegmentTokens(fmt: Formatting, seg: Segment)
    requires SegmentBare(seg) && TAB !in seg.name && TAB !in seg.sequence
    ensures SegmentText(fmt, seg) == Join(SegmentFixed(seg), TAB)
    ensures Split(SegmentText(fmt, seg), TAB) == ["S", seg.name, seg.sequence]
  {
    BareSegmentText(fmt, seg);
    SplitJoin(SegmentFixed(seg), TAB);
  }

  /** A bare segment's text is its fixed fields alone. */
  lemma BareSegmentText(fmt: Formatting, seg: Segment)
    requires SegmentBare(seg)
    ensures SegmentText(fmt, seg) == Join(SegmentFixed(seg), TAB)
  {
    var cs := SegmentCandidates(seg);
    assert forall i :: 0 <= i < |cs| ==> cs[i].None?;
    NothingPresent(cs);
  }

  /** Candidates that are all absent write nothing. */
  lemma {:induction false} NothingPresent(cs: seq<Option<OptionalField>>)
    requires forall i :: 0 <= i < |cs| ==> cs[i].None?
    ensures Present(cs) == []
    decreases |cs|
  {
    if |cs| > 0 {
      NothingPresent(cs[1..]);
    }
  }

  /** The print test: a segment with a name and a sequence only. */
  lemma SegmentExample(fmt: Formatting)
    ensures SegmentText(fmt, Segment("seg1", "GCCCTA", None, None, None, None, None, None, []))
            == "S\tseg1\tGCCCTA"
  {
    var seg := Segment("seg1", "GCCCTA", None, None, None, None, None, None, []);
    BareSegmentText(fmt, seg);
    JoinThree<byte>("S", "seg1", "GCCCTA", TAB);
    SegmentLineLiteral("S", "seg1", "GCCCTA");
  }

  lemma SegmentLineLiteral(a: bytes, b: bytes, c: bytes)
    requires a == "S" && b == "seg1" && c == "GCCCTA"
    ensures a + [TAB] + b + [TAB] + c == "S\tseg1\tGCCCTA"
  {
  }

  /** As written, the first optional output follows the sequence with no tab:
      a segment with only a length reads as three tokens, the last being the
      sequence and the `LN` field run together. */
  lemma SegmentFieldGlued(fmt: Formatting, name: bytes, sequence: bytes, length: i64)
    requires TAB !in name && TAB !in sequence
    requires TAB !in fmt.field(OptionalField("LN", SignedInt(length)))
    ensures var seg := Segment(name, sequence, Some(length), None, None, None, None, None, []);
      Split(SegmentText(fmt, seg), TAB)
      == ["S", name, sequence + fmt.field(OptionalField("LN", SignedInt(length)))]
  {
    var seg := Segment(name, sequence, Some(length), None, None, None, None, None, []);
    var ln := fmt.field(OptionalField("LN", SignedInt(length)));
    var cs := SegmentCandidates(seg);
    assert cs == [Some(OptionalField("LN", SignedInt(length)))] + cs[1..];
    NothingPresent(cs[1..]);
    assert Present(cs) == [OptionalField("LN", SignedInt(length))];
    assert Flatten(FieldTexts(fmt, Present(cs))) == ln;
    var last := sequence + ln;
    assert TAB !in last by {
      forall k | 0 <= k < |last|
        ensures last[k] != TAB
      {
        if k >= |sequence| {
          assert last[k] == ln[k - |sequence|];
        }
      }
    }
    var fixed := SegmentFixed(seg);
    var glued: seq<bytes> := ["S", name, last];
    JoinGlue(fixed, ln, TAB);
    assert fixed[..2] + [fixed[2] + ln] == glued;
    assert SegmentText(fmt, seg) == Join(fixed, TAB) + ln + [];
    assert SegmentText(fmt, seg) == Join(glued, TAB);
    SplitJoin(glued, TAB);
  }

  /** Text appended to a join extends its last part. */
  lemma {:induction false} JoinGlue<T>(parts: seq<seq<T>>, x: seq<T>, sep: T)
    requires |parts| > 0
    ensures Join(parts, sep) + x == Join(parts[..|parts| - 1] + [parts[|parts| - 1] + x], sep)
    decreases |parts|
  {
    if |parts| == 1 {
      assert parts[..0] + [parts[0] + x] == [parts[0] + x];
    } else {
      JoinGlue(parts[1..], x, sep);
      var glued := parts[..|parts| - 1] + [parts[|parts| - 1] + x];
      assert glued[1..] == parts[1..][..|parts[1..]| - 1] + [parts[1..][|parts[1..]| - 1] + x];
    }
  }

  /** The intended segment writer: a tab before every optional field. */
  function SegmentTextIntended(fmt: Formatting, seg: Segment): bytes {
    Join(SegmentFixed(seg), TAB) + Tabbed(FieldTexts(fmt, Present(SegmentCandidates(seg)) + seg.optionalFields))
  }

  /** Every text preceded by a tab. */
  function Tabbed(texts: seq<bytes>): bytes
    decreases |texts|
  {
    if |texts| == 0 then [] else [TAB] + texts[0] + Tabbed(texts[1..])
  }

  /** A join followed by tabbed texts is the join of both lists. */
  lemma {:induction false} JoinTabbed(parts: seq<bytes>, texts: seq<bytes>)
    requires |parts| > 0
    ensures Join(parts, TAB) + Tabbed(texts) == Join(parts + texts, TAB)
    decreases |texts|
  {
    if |texts| == 0 {
      assert parts + texts == parts;
    } else {
      calc {
        Join(parts, TAB) + Tabbed(texts);
        Join(parts, TAB) + ([TAB] + texts[0] + Tabbed(texts[1..]));
        Join(parts, TAB) + [TAB] + texts[0] + Tabbed(texts[1..]);
        { JoinSnoc(parts, texts[0], TAB); }
        Join(parts + [texts[0]], TAB) + Tabbed(texts[1..]);
        { JoinTabbed(parts + [texts[0]], texts[1..]); }
        Join(parts + [texts[0]] + texts[1..], TAB);
        { assert parts + [texts[0]] + texts[1..] == parts + texts; }
        Join(parts + texts, TAB);
      }
    }
  }

  /** With a tab before each, every field comes back as its own token. */
  lemma SegmentTokensIntended(fmt: Formatting, seg: Segment)
    requires TAB !in seg.name && TAB !in seg.sequence
    requires var fields := Present(SegmentCandidates(seg)) + seg.optionalFields;
      forall i :: 0 <= i < |fields| ==> TAB !in fmt.field(fields[i])
    ensures Split(SegmentTextIntended(fmt, seg), TAB)
            == ["S", seg.name, seg.sequence] + FieldTexts(fmt, Present(SegmentCandidates(seg)) + seg.optionalFields)
  {
    var texts := FieldTexts(fmt, Present(SegmentCandidates(seg)) + seg.optionalFields);
    var all := SegmentFixed(seg) + texts;
    JoinTabbed(SegmentFixed(seg), texts);
    forall i | 0 <= i < |all|
      ensures TAB !in all[i]
    {
      if i >= 3 {
        assert all[i] == texts[i - 3];
      }
    }
    SplitJoin(all, TAB);
  }

  // ---------------------------------------------------------------------------
  // Link

  /** The tags `write_link` gives its six typed values, as written. */
  const LINK_TAGS: seq<bytes> := ["LN", "RC", "RC", "FC", "KC", "SH"]

  /** The tags the optional-field table under "Link line" in the GFA 1
      specification gives those values: mapping quality, mismatch count, read,
      fragment and k-mer counts, edge id. */
  const GFA1_LINK_TAGS: seq<bytes> := ["MQ", "NM", "RC", "FC", "KC", "ID"]

  /** The `write_optional!` invocations of `write_link`, under a tag table. */
  function LinkCandidates(link: Link, tags: seq<bytes>): seq<Option<OptionalField>>
    requires |tags| == 6
  {
    [ Tagged(tags[0], (n: i64) => SignedInt(n), link.mapQuality),
      Tagged(tags[1], (n: i64) => SignedInt(n), link.numMismatches),
      Tagged(tags[2], (n: i64) => SignedInt(n), link.readCount),
      Tagged(tags[3], (n: i64) => SignedInt(n), link.fragmentCount),
      Tagged(tags[4], (n: i64) => SignedInt(n), link.kmerCount),
      Tagged(tags[5], (s: bytes) => PrintableString(s), link.edgeId) ]
  }

  /** The fixed fields of a link line. */
  function LinkFixed(fmt: Formatting, link: Link): seq<bytes> {
    ["L", link.fromSegment, fmt.orientation(link.fromOrient),
     link.toSegment, fmt.orientation(link.toOrient), link.overlap]
  }

  /** A link as `write_link` writes it. */
  function LinkText(fmt: Formatting, link: Link): bytes {
    Join(LinkFixed(fmt, link), TAB) + Flatten(FieldTexts(fmt, Present(LinkCandidates(link, LINK_TAGS))))
      + Join(FieldTexts(fmt, link.optionalFields), TAB)
  }

  /** `write_link`. */
  method WriteLink(fmt: Formatting, link: Link, stream: bytes) returns (out: bytes)
    ensures out == stream + LinkText(fmt, link)
  {
    var fixed := LinkFixed(fmt, link);
    out := stream + Join(fixed, TAB);
    out := WriteOptionals(fmt, LinkCandidates(link, LINK_TAGS), out);
    out := WriteOptionalFields(fmt, link.optionalFields, out);
  }

  predicate LinkBare(link: Link) {
    link.mapQuality.None? && link.numMismatches.None? && link.readCount.None?
    && link.fragmentCount.None? && link.kmerCount.None? && link.edgeId.None?
    && |link.optionalFields| == 0
  }

  /** A bare link is its six fixed tokens, tab-separated, and nothing else. */
  lemma LinkTokens(fmt: Formatting, link: Link)
    requires LinkBare(link)
    requires TAB !in link.fromSegment && TAB !in link.toSegment && TAB !in link.overlap
    requires TAB !in fmt.orientation(link.fromOrient) && TAB !in fmt.orientation(link.toOrient)
    ensures LinkText(fmt, link) == Join(LinkFixed(fmt, link), TAB)
    ensures Split(LinkText(fmt, link), TAB)
            == ["L", link.fromSegment, fmt.orientation(link.fromOrient),
                link.toSegment, fmt.orientation(link.toOrient), link.overlap]
  {
    BareLinkText(fmt, link);
    SplitJoin(LinkFixed(fmt, link), TAB);
  }

  /** A bare link's text is its fixed fields alone. */
  lemma BareLinkText(fmt: Formatting, link: Link)
    requires LinkBare(link)
    ensures LinkText(fmt, link) == Join(LinkFixed(fmt, link), TAB)
  {
    var cs := LinkCandidates(link, LINK_TAGS);
    assert forall i :: 0 <= i < |cs| ==> cs[i].None?;
    NothingPresent(cs);
  }

  /** The print test: `13 + 552 - 0M`, with `+` and `-` as the orientations' display. */
  lemma LinkExample(fmt: Formatting)
    requires fmt.orientation(Parser.Forward) == "+" && fmt.orientation(Parser.Backward) == "-"
    ensures LinkText(fmt, Link("13", Parser.Forward, "552", Parser.Backward, "0M",
                               None, None, None, None, None, None, []))
            == "L\t13\t+\t552\t-\t0M"
  {
    var link := Link("13", Parser.Forward, "552", Parser.Backward, "0M", None, None, None, None, None, None, []);
    BareLinkText(fmt, link);
    assert LinkFixed(fmt, link) == ["L", "13", "+", "552", "-", "0M"];
    ExampleLinkJoin();
  }

  /** The example's line, written out. */
  lemma ExampleLinkJoin()
    ensures Join<byte>(["L", "13", "+", "552", "-", "0M"], TAB) == "L\t13\t+\t552\t-\t0M"
  {
    JoinSix<byte>("L", "13", "+", "552", "-", "0M", TAB);
    LinkLineLiteral("L", "13", "+", "552", "-", "0M");
  }

  lemma LinkLineLiteral(a: bytes, b: bytes, c: bytes, d: bytes, e: bytes, f: bytes)
    requires a == "L" && b == "13" && c == "+" && d == "552" && e == "-" && f == "0M"
    ensures a + [TAB] + b + [TAB] + c + [TAB] + d + [TAB] + e + [TAB] + f == "L\t13\t+\t552\t-\t0M"
  {
  }

  /** As written, the mismatch count goes out under `RC`, the read-count tag: a
      link with both values writes two `RC` fields, and its mapping quality goes
      out under `LN`, the segment-length tag. */
  lemma LinkRepeatsTag(link: Link)
    requires link.mapQuality.Some? && link.numMismatches.Some? && link.readCount.Some?
    requires link.fragmentCount.None? && link.kmerCount.None? && link.edgeId.None?
    ensures var fs := Present(LinkCandidates(link, LINK_TAGS));
      |fs| == 3 && fs[0].tag == "LN" && fs[1].tag == "RC" && fs[2].tag == "RC"
      && fs[1].content == SignedInt(link.numMismatches.value)
      && fs[2].content == SignedInt(link.readCount.value)
  {
    var cs := LinkCandidates(link, LINK_TAGS);
    var id := (o: Option<OptionalField>) => o;
    assert cs == cs[..3] + cs[3..];
    FilterMapAppend(cs[..3], cs[3..], id);
    NothingPresent(cs[3..]);
    FilterMapAllSome(cs[..3], id);
  }

  /** Under the GFA 1 tags, the present values' fields never share a tag. */
  lemma LinkTagsDistinct(link: Link)
    ensures var fs := Present(LinkCandidates(link, GFA1_LINK_TAGS));
      forall i, j :: 0 <= i < j < |fs| ==> fs[i].tag != fs[j].tag
  {
    var cs := LinkCandidates(link, GFA1_LINK_TAGS);
    assert forall k :: 0 <= k < |cs| && cs[k].Some? ==> cs[k].value.tag == GFA1_LINK_TAGS[k];
    PresentDistinct(cs);
  }

  /** Candidates whose present fields carry pairwise different tags. */
  predicate DistinctTags(cs: seq<Option<OptionalField>>) {
    forall i, j :: 0 <= i < j < |cs| && cs[i].Some? && cs[j].Some? ==> cs[i].value.tag != cs[j].value.tag
  }

  /** Keeping the present fields keeps their tags pairwise different. */
  lemma {:induction false} PresentDistinct(cs: seq<Option<OptionalField>>)
    requires DistinctTags(cs)
    ensures forall i, j :: 0 <= i < j < |Present(cs)| ==> Present(cs)[i].tag != Present(cs)[j].tag
    decreases |cs|
  {
    if |cs| > 0 {
      var id := (o: Option<OptionalField>) => o;
      PresentDistinct(cs[1..]);
      var rest := Present(cs[1..]);
      if cs[0].Some? {
        forall j | 0 <= j < |rest|
          ensures rest[j].tag != cs[0].value.tag
        {
          FilterMapSound(cs[1..], id, j);
          var k :| 0 <= k < |cs[1..]| && id(cs[1..][k]) == Some(rest[j]);
          assert cs[k + 1] == Some(rest[j]);
        }
        assert Present(cs) == [cs[0].value] + rest;
      } else {
        assert Present(cs) == rest;
      }
    }
  }

  // ---------------------------------------------------------------------------
  // Path

  /** One step of a path: the segment name and its orientation's display. */
  function StepText(fmt: Formatting, step: (bytes, Orientation)): bytes {
    step.0 + fmt.orientation(step.1)
  }

  function StepTexts(fmt: Formatting, steps: seq<(bytes, Orientation)>): seq<bytes> {
    MapSeq(steps, (s: (bytes, Orientation)) => StepText(fmt, s))
  }

  /** The fixed fields of a path line: its name, the comma-separated steps and
      the comma-separated overlaps. */
  function PathFixed(fmt: Formatting, path: Path): seq<bytes> {
    ["P", path.pathName, Join(StepTexts(fmt, path.segmentNames), COMMA), Join(path.overlaps, COMMA)]
  }

  /** A path as `write_path` writes it. */
  function PathText(fmt: Formatting, path: Path): bytes {
    Join(PathFixed(fmt, path), TAB) + Join(FieldTexts(fmt, path.optionalFields), TAB)
  }

  /** `write_path`: the steps and the overlaps are each written by a loop that
      puts a comma before every item but the first. */
  method WritePath(fmt: Formatting, path: Path, stream: bytes) returns (out: bytes)
    ensures out == stream + PathText(fmt, path)
  {
    var steps := StepTexts(fmt, path.segmentNames);
    out := stream + "P\t" + path.pathName + "\t";
    out := WriteCommaList(steps, out);
    out := out + "\t";
    out := WriteCommaList(path.overlaps, out);
    PathPieces(stream, path.pathName, Join(steps, COMMA), Join(path.overlaps, COMMA));
    out := WriteOptionalFields(fmt, path.optionalFields, out);
  }

  /** The pieces `write_path` writes before the optional fields make up the
      tab-joined fixed fields. */
  lemma PathPieces(stream: bytes, name: bytes, steps: bytes, overlaps: bytes)
    ensures stream + "P\t" + name + "\t" + steps + "\t" + overlaps
            == stream + Join<byte>(["P", name, steps, overlaps], TAB)
  {
    JoinFour<byte>("P", name, steps, overlaps, TAB);
    assert "P\t" == "P" + [TAB];
    assert stream + ("P" + [TAB] + name + [TAB] + steps + [TAB] + overlaps)
           == stream + "P" + [TAB] + name + [TAB] + steps + [TAB] + overlaps;
  }

  /** The `for_each` loops of `write_path`: a comma before every item but the first. */
  method WriteCommaList(items: seq<bytes>, stream: bytes) returns (out: bytes)
    ensures out == stream + Join(items, COMMA)
  {
    out := stream;
    var i := 0;
    while i < |items|
      invariant 0 <= i <= |items|
      invariant out == stream + Join(items[..i], COMMA)
    {
      if i != 0 {
        out := out + [COMMA];
        JoinSnoc(items[..i], items[i], COMMA);
      } else {
        assert items[..1] == [items[0]];
      }
      out := out + items[i];
      assert items[..i + 1] == items[..i] + [items[i]];
      i := i + 1;
    }
    assert items[..i] == items;
  }

  /** A path without optional fields is four tab-separated tokens; its step list
      and its overlap list split back on commas into the steps and the overlaps. */
  lemma PathTokens(fmt: Formatting, path: Path)
    requires |path.optionalFields| == 0 && TAB !in path.pathName
    requires |path.segmentNames| > 0 && |path.overlaps| > 0
    requires forall i :: 0 <= i < |path.segmentNames| ==>
               TAB !in StepText(fmt, path.segmentNames[i]) && COMMA !in StepText(fmt, path.segmentNames[i])
    requires forall i :: 0 <= i < |path.overlaps| ==> TAB !in path.overlaps[i] && COMMA !in path.overlaps[i]
    ensures Split(PathText(fmt, path), TAB)
            == ["P", path.pathName, Join(StepTexts(fmt, path.segmentNames), COMMA), Join(path.overlaps, COMMA)]
    ensures Split(Join(StepTexts(fmt, path.segmentNames), COMMA), COMMA) == StepTexts(fmt, path.segmentNames)
    ensures Split(Join(path.overlaps, COMMA), COMMA) == path.overlaps
  {
    var steps := StepTexts(fmt, path.segmentNames);
    var fixed := PathFixed(fmt, path);
    JoinKeeps(steps, COMMA, TAB);
    JoinKeeps(path.overlaps, COMMA, TAB);
    assert PathText(fmt, path) == Join(fixed, TAB);
    SplitJoin(fixed, TAB);
    SplitJoin(steps, COMMA);
    SplitJoin(path.overlaps, COMMA);
  }

  /** Joining parts that lack a byte, with a different separator, still lacks it. */
  lemma {:induction false} JoinKeeps(parts: seq<bytes>, sep: byte, b: byte)
    requires sep != b
    requires forall i :: 0 <= i < |parts| ==> b !in parts[i]
    ensures b !in Join(parts, sep)
    decreases |parts|
  {
    if |parts| > 1 {
      JoinKeeps(parts[1..], sep, b);
    }
  }

  /** The print test: `path1` through `13+,51-,241+` with overlaps `8M,1M,3M`. */
  lemma PathExample(fmt: Formatting)
    requires fmt.orientation(Parser.Forward) == "+" && fmt.orientation(Parser.Backward) == "-"
    ensures PathText(fmt, Path("path1", [("13", Parser.Forward), ("51", Parser.Backward), ("241", Parser.Forward)],
                               ["8M", "1M", "3M"], []))
            == "P\tpath1\t13+,51-,241+\t8M,1M,3M"
  {
    var steps := [("13", Parser.Forward), ("51", Parser.Backward), ("241", Parser.Forward)];
    var path := Path("path1", steps, ["8M", "1M", "3M"], []);
    ExampleSteps(fmt);
    ExampleStepJoin();
    ExampleOverlapJoin();
    ExamplePathJoin();
    assert PathFixed(fmt, path) == ["P", "path1", "13+,51-,241+", "8M,1M,3M"];
  }

  /** The example's steps displayed one by one. */
  lemma ExampleSteps(fmt: Formatting)
    requires fmt.orientation(Parser.Forward) == "+" && fmt.orientation(Parser.Backward) == "-"
    ensures StepTexts(fmt, [("13", Parser.Forward), ("51", Parser.Backward), ("241", Parser.Forward)])
            == ["13+", "51-", "241+"]
  {
    var steps := [("13", Parser.Forward), ("51", Parser.Backward), ("241", Parser.Forward)];
    assert StepText(fmt, steps[0]) == "13+";
    assert StepText(fmt, steps[1]) == "51-";
    assert StepText(fmt, steps[2]) == "241+";
  }

  /** The example's step list, written out. */
  lemma ExampleStepJoin()
    ensures Join<byte>(["13+", "51-", "241+"], COMMA) == "13+,51-,241+"
  {
    JoinThree<byte>("13+", "51-", "241+", COMMA);
  }

  /** The example's overlap list, written out. */
  lemma ExampleOverlapJoin()
    ensures Join<byte>(["8M", "1M", "3M"], COMMA) == "8M,1M,3M"
  {
    JoinThree<byte>("8M", "1M", "3M", COMMA);
  }

  /** The example's line, written out. */
  lemma ExamplePathJoin()
    ensures Join<byte>(["P", "path1", "13+,51-,241+", "8M,1M,3M"], TAB) == "P\tpath1\t13+,51-,241+\t8M,1M,3M"
  {
    JoinFour<byte>("P", "path1", "13+,51-,241+", "8M,1M,3M", TAB);
    PathLineLiteral("P", "path1", "13+,51-,241+", "8M,1M,3M");
  }

  lemma PathLineLiteral(a: bytes, b: bytes, c: bytes, d: bytes)
    requires a == "P" && b == "path1" && c == "13+,51-,241+" && d == "8M,1M,3M"
    ensures a + [TAB] + b + [TAB] + c + [TAB] + d == "P\tpath1\t13+,51-,241+\t8M,1M,3M"
  {
  }

  // ---------------------------------------------------------------------------
  // Whole graph

  /** The lines `write_gfa` writes, in order: the header, every segment, every
      path, every link. */
  function GfaLines(fmt: Formatting, g: Gfa): seq<bytes> {
    [HeaderText(g.version)]
      + SegmentTexts(fmt, g.segments) + PathTexts(fmt, g.paths) + LinkTexts(fmt, g.links)
  }

  function SegmentTexts(fmt: Formatting, segments: seq<Segment>): seq<bytes> {
    MapSeq(segments, (s: Segment) => SegmentText(fmt, s))
  }

  function PathTexts(fmt: Formatting, paths: seq<Path>): seq<bytes> {
    MapSeq(paths, (p: Path) => PathText(fmt, p))
  }

  function LinkTexts(fmt: Formatting, links: seq<Link>): seq<bytes> {
    MapSeq(links, (l: Link) => LinkText(fmt, l))
  }

  function GfaText(fmt: Formatting, g: Gfa): bytes {
    Terminated(GfaLines(fmt, g), NEWLINE)
  }

  /** `write_gfa`: the header, then each kind of record by its own loop. */
  method WriteGfa(fmt: Formatting, g: Gfa, stream: bytes) returns (out: bytes)
    ensures out == stream + GfaText(fmt, g)
  {
    out := WriteHeader(g.version, stream);
    out := out + [NEWLINE];
    out := WriteSegments(fmt, g.segments, out);
    out := WritePaths(fmt, g.paths, out);
    out := WriteLinks(fmt, g.links, out);
    GfaTextParts(fmt, g, stream);
  }

  /** The output of `write_gfa` is the header line followed by the output of
      each record loop in turn. */
  lemma GfaTextParts(fmt: Formatting, g: Gfa, stream: bytes)
    ensures stream + GfaText(fmt, g)
            == stream + HeaderText(g.version) + [NEWLINE]
               + Terminated(SegmentTexts(fmt, g.segments), NEWLINE)
               + Terminated(PathTexts(fmt, g.paths), NEWLINE)
               + Terminated(LinkTexts(fmt, g.links), NEWLINE)
  {
    TerminatedRuns(stream, HeaderText(g.version), SegmentTexts(fmt, g.segments),
                   PathTexts(fmt, g.paths), LinkTexts(fmt, g.links), NEWLINE);
  }

  lemma SegmentTextsSnoc(fmt: Formatting, segments: seq<Segment>, i: int)
    requires 0 <= i < |segments|
    ensures SegmentTexts(fmt, segments[..i + 1]) == SegmentTexts(fmt, segments[..i]) + [SegmentText(fmt, segments[i])]
  {
  }

  /** The segment loop of `write_gfa`: each segment on a line of its own. */
  method WriteSegments(fmt: Formatting, segments: seq<Segment>, stream: bytes) returns (out: bytes)
    ensures out == stream + Terminated(SegmentTexts(fmt, segments), NEWLINE)
  {
    out := stream;
    var i := 0;
    while i < |segments|
      invariant 0 <= i <= |segments|
      invariant out == stream + Terminated(SegmentTexts(fmt, segments[..i]), NEWLINE)
    {
      out := WriteSegment(fmt, segments[i], out);
      out := out + [NEWLINE];
      SegmentTextsSnoc(fmt, segments, i);
      TerminatedSnocAfter(stream, SegmentTexts(fmt, segments[..i]), SegmentText(fmt, segments[i]), NEWLINE);
      i := i + 1;
    }
    assert segments[..i] == segments;
  }

  lemma PathTextsSnoc(fmt: Formatting, paths: seq<Path>, i: int)
    requires 0 <= i < |paths|
    ensures PathTexts(fmt, paths[..i + 1]) == PathTexts(fmt, paths[..i]) + [PathText(fmt, paths[i])]
  {
  }

  /** The path loop of `write_gfa`: each path on a line of its own. */
  method WritePaths(fmt: Formatting, paths: seq<Path>, stream: bytes) returns (out: bytes)
    ensures out == stream + Terminated(PathTexts(fmt, paths), NEWLINE)
  {
    out := stream;
    var i := 0;
    while i < |paths|
      invariant 0 <= i <= |paths|
      invariant out == stream + Terminated(PathTexts(fmt, paths[..i]), NEWLINE)
    {
      out := WritePath(fmt, paths[i], out);
      out := out + [NEWLINE];
      PathTextsSnoc(fmt, paths, i);
      TerminatedSnocAfter(stream, PathTexts(fmt, paths[..i]), PathText(fmt, paths[i]), NEWLINE);
      i := i + 1;
    }
    assert paths[..i] == paths;
  }

  lemma LinkTextsSnoc(fmt: Formatting, links: seq<Link>, i: int)
    requires 0 <= i < |links|
    ensures LinkTexts(fmt, links[..i + 1]) == LinkTexts(fmt, links[..i]) + [LinkText(fmt, links[i])]
  {
  }

  /** The link loop of `write_gfa`: each link on a line of its own. */
  method WriteLinks(fmt: Formatting, links: seq<Link>, stream: bytes) returns (out: bytes)
    ensures out == stream + Terminated(LinkTexts(fmt, links), NEWLINE)
  {
    out := stream;
    var i := 0;
    while i < |links|
      invariant 0 <= i <= |links|
      invariant out == stream + Terminated(LinkTexts(fmt, links[..i]), NEWLINE)
    {
      out := WriteLink(fmt, links[i], out);
      out := out + [NEWLINE];
      LinkTextsSnoc(fmt, links, i);
      TerminatedSnocAfter(stream, LinkTexts(fmt, links[..i]), LinkText(fmt, links[i]), NEWLINE);
      i := i + 1;
    }
    assert links[..i] == links;
  }

  /** Every line is followed by a newline, so splitting the output on newlines
      gives back the lines and one empty tail; containments never appear. */
  lemma GfaLinesBack(fmt: Formatting, g: Gfa, cs: seq<Containment>)
    requires forall i :: 0 <= i < |GfaLines(fmt, g)| ==> NEWLINE !in GfaLines(fmt, g)[i]
    ensures Split(GfaText(fmt, g), NEWLINE) == GfaLines(fmt, g) + [[]]
    ensures GfaText(fmt, g.(containments := cs)) == GfaText(fmt, g)
  {
    var lines := GfaLines(fmt, g);
    TerminatedIsJoin(lines, NEWLINE);
    SplitJoin(lines + [[]], NEWLINE);
    assert GfaLines(fmt, g.(containments := cs)) == lines;
  }
}
