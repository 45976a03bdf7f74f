/** The GFA 1 line grammar of `src/parser.rs`: the line filter built from a
    parsing configuration, the token rules for names and sequences, one parser
    per record kind, and the dispatcher that picks among them. A parser is
    generic over the optional-field store the trailing tokens are handed to. */
module Parser {
  import opened Wrappers
  import opened Bytes
  import opened Scan
  import opened Seqs
  import opened Numbers
  import opened OptFields

  /** The strand of a segment end. Its byte form, `+` or `-`, is defined next to
      the record types, which are not part of this model. */
  datatype Orientation = Forward | Backward

  /** `Orientation::from_bytes`: exactly `+` or `-`. */
  function OrientationFromBytes(t: bytes): (r: Option<Orientation>)
    ensures r.Some? <==> t == "+" || t == "-"
    ensures r.Some? ==> (r.value == Forward <==> t == "+")
  {
    if t == "+" then Some(Forward) else if t == "-" then Some(Backward) else None
  }

  datatype Header<F> = Header(version: Option<bytes>, optional: F)

  datatype Segment<F> = Segment(name: bytes, sequence: bytes, optional: F)

  datatype Link<F> = Link(
    fromSegment: bytes, fromOrient: Orientation,
    toSegment: bytes, toOrient: Orientation,
    overlap: bytes, optional: F)

  datatype Containment<F> = Containment(
    containerName: bytes, containerOrient: Orientation,
    containedName: bytes, containedOrient: Orientation,
    overlap: bytes, pos: usize, optional: F)

  datatype Path<F> = Path(pathName: bytes, segmentNames: bytes, overlaps: seq<bytes>, optional: F)

  datatype Line<F> =
    | HeaderLine(header: Header<F>)
    | SegmentLine(segment: Segment<F>)
    | LinkLine(link: Link<F>)
    | ContainmentLine(containment: Containment<F>)
    | PathLine(path: Path<F>)

  // ---------------------------------------------------------------------------
  // Parsing configuration and the line filter

  /** `GFAParsingConfig`: which record kinds besides headers are parsed. */
  datatype ParsingConfig = ParsingConfig(segments: bool, links: bool, containments: bool, paths: bool)

  /** `GFAParsingConfig::none`. */
  function NoneConfig(): (c: ParsingConfig)
    ensures !c.segments && !c.links && !c.containments && !c.paths
  {
    ParsingConfig(false, false, false, false)
  }

  /** `GFAParsingConfig::all`, which is also the default. */
  function AllConfig(): (c: ParsingConfig)
    ensures c.segments && c.links && c.containments && c.paths
  {
    ParsingConfig(true, true, true, true)
  }

  /** The leading bytes of the record kinds a configuration lets through. */
  predicate Enabled(c: ParsingConfig, b: byte) {
    || b == 'H'
    || (b == 'S' && c.segments)
    || (b == 'L' && c.links)
    || (b == 'C' && c.containments)
    || (b == 'P' && c.paths)
  }

  /** The filter string `make_filter` builds: `H`, then the enabled kinds in
      the order S, L, C, P. */
  function FilterString(c: ParsingConfig): (r: bytes)
    ensures forall b :: b in r <==> Enabled(c, b)
    ensures |r| > 0 && r[0] == 'H'
  {
    "H" + KindIf(c.segments, 'S') + KindIf(c.links, 'L') + KindIf(c.containments, 'C') + KindIf(c.paths, 'P')
  }

  /** The letter alone when its kind is enabled, nothing otherwise. */
  function KindIf(enabled: bool, b: byte): bytes {
    if enabled then [b] else []
  }

  /** The position of a record letter in the order `H`, `S`, `L`, `C`, `P`. */
  function KindRank(b: byte): nat {
    if b == 'H' then 0 else if b == 'S' then 1 else if b == 'L' then 2 else if b == 'C' then 3 else 4
  }

  predicate InKindOrder(r: bytes) {
    forall i, j :: 0 <= i < j < |r| ==> KindRank(r[i]) < KindRank(r[j])
  }

  predicate RanksBelow(r: bytes, k: nat) {
    forall i :: 0 <= i < |r| ==> KindRank(r[i]) < k
  }

  /** Appending a letter that ranks after everything so far keeps the order. */
  lemma KindOrderSnoc(r: bytes, enabled: bool, b: byte)
    requires InKindOrder(r) && RanksBelow(r, KindRank(b))
    ensures InKindOrder(r + KindIf(enabled, b)) && RanksBelow(r + KindIf(enabled, b), KindRank(b) + 1)
  {
    var r' := r + KindIf(enabled, b);
    forall i | 0 <= i < |r'|
      ensures KindRank(r'[i]) < KindRank(b) + 1
    {
      if i < |r| {
        assert r'[i] == r[i];
      }
    }
    forall i, j | 0 <= i < j < |r'|
      ensures KindRank(r'[i]) < KindRank(r'[j])
    {
      assert r'[i] == r[i];
      if j >= |r| {
        assert r'[j] == b;
      } else {
        assert r'[j] == r[j];
      }
    }
  }

  /** The filter string lists `H` and the enabled kinds in the order S, L, C, P,
      so no letter appears twice. */
  lemma FilterStringOrdered(c: ParsingConfig)
    ensures InKindOrder(FilterString(c))
    ensures forall i, j :: 0 <= i < j < |FilterString(c)| ==> FilterString(c)[i] != FilterString(c)[j]
  {
    var r0: bytes := "H";
    var r1 := r0 + KindIf(c.segments, 'S');
    var r2 := r1 + KindIf(c.links, 'L');
    var r3 := r2 + KindIf(c.containments, 'C');
    var r4 := r3 + KindIf(c.paths, 'P');
    KindOrderSnoc(r0, c.segments, 'S');
    KindOrderSnoc(r1, c.links, 'L');
    KindOrderSnoc(r2, c.containments, 'C');
    KindOrderSnoc(r3, c.paths, 'P');
    OrderedIsDistinct(r4);
  }

  /** Letters in strictly increasing rank are pairwise different. */
  lemma OrderedIsDistinct(r: bytes)
    requires InKindOrder(r)
    ensures forall i, j :: 0 <= i < j < |r| ==> r[i] != r[j]
  {
    forall i, j | 0 <= i < j < |r|
      ensures r[i] != r[j]
    {
      assert KindRank(r[i]) < KindRank(r[j]);
    }
  }

  /** The filter closure: the line itself when its first byte is in the filter
      string, nothing otherwise; taking the first byte of an empty line panics. */
  function Filter(c: ParsingConfig, line: bytes): (r: Outcome<bytes>)
    ensures r.Panic? <==> |line| == 0
    ensures r.Panic? ==> r.reason == EmptyLine
    ensures r.Ok? <==> |line| > 0 && Enabled(c, line[0])
    ensures r.Ok? ==> r.value == line
  {
    if |line| == 0 then Panic(EmptyLine)
    else if line[0] in FilterString(c) then Ok(line)
    else Rejected
  }

  /** With every kind enabled, each of the five record letters passes. */
  lemma AllConfigPassesEveryKind(line: bytes)
    requires |line| > 0
    ensures Filter(AllConfig(), line).Ok? <==> line[0] in "HSLCP"
  {
  }

  /** With no kind enabled, only header lines pass. */
  lemma NoneConfigPassesOnlyHeaders(line: bytes)
    requires |line| > 0
    ensures Filter(NoneConfig(), line).Ok? <==> line[0] == 'H'
  {
  }

  // ---------------------------------------------------------------------------
  // Token rules

  /** `[!-)+-<>-~]`: visible ASCII except `*` and `=`. */
  predicate IsNameStart(b: byte) {
    IsVisible(b) && b != '*' && b != '='
  }

  /** `parse_name` on one token: the leftmost match of `[!-)+-<>-~][!-~]*`. */
  function FindName(t: bytes): (r: Option<bytes>)
    ensures r.None? <==> forall k :: 0 <= k < |t| ==> !IsNameStart(t[k])
    ensures r.Some? ==> |r.value| > 0 && IsNameStart(r.value[0])
    ensures r.Some? ==> forall i :: 0 <= i < |r.value| ==> IsVisible(r.value[i])
    ensures r.Some? ==> exists sp :: IsLeftmostRun(t, IsNameStart, IsVisible, sp)
                          && r.value == t[sp.start..sp.end]
  {
    match LeftmostRun(t, IsNameStart, IsVisible)
    case None => None
    case Some(sp) => Some(t[sp.start..sp.end])
  }

  /** `[A-Za-z=.]` */
  predicate IsSequenceChar(b: byte) {
    IsAlpha(b) || b == '=' || b == '.'
  }

  /** A byte at which `\*|[A-Za-z=.]+` can match. */
  predicate IsSequenceStart(b: byte) {
    b == '*' || IsSequenceChar(b)
  }

  /** `parse_sequence` on one token: the leftmost match of `\*|[A-Za-z=.]+`,
      where at the same position the `*` alternative is tried first. */
  function FindSequence(t: bytes): (r: Option<bytes>)
    ensures r.None? <==> forall k :: 0 <= k < |t| ==> !IsSequenceStart(t[k])
    ensures r.Some? ==> r.value == "*" || (|r.value| > 0 && forall i :: 0 <= i < |r.value| ==> IsSequenceChar(r.value[i]))
    ensures r.Some? ==> exists sp: Span :: sp.start < sp.end <= |t| && r.value == t[sp.start..sp.end]
                          && (forall k :: 0 <= k < sp.start ==> !IsSequenceStart(t[k]))
                          && (t[sp.start] == '*' ==> sp.end == sp.start + 1)
                          && (t[sp.start] != '*' ==> sp.end == |t| || !IsSequenceChar(t[sp.end]))
  {
    var i := SkipUntil(t, 0, IsSequenceStart);
    if i == |t| then None
    else if t[i] == '*' then
      var sp := Span(i, i + 1);
      assert t[sp.start..sp.end] == "*";
      Some(t[sp.start..sp.end])
    else
      var sp := Span(i, SkipWhile(t, i + 1, IsSequenceChar));
      Some(t[sp.start..sp.end])
  }

  // ---------------------------------------------------------------------------
  // Record parsers; `tokens` are the tab-separated fields after the record letter

  /** A header: the first token must decode as an optional field, the rest go to
      the store, and only a `Z` value becomes the version; its tag is not checked. */
  function ParseHeader<F>(store: Store<F>, tokens: seq<bytes>): (r: Outcome<Header<F>>)
    ensures r.Ok? <==> |tokens| > 0 && Parse(tokens[0]).Ok? && Parse(tokens[0]).value.value.Z?
                       && store.parse(tokens[1..]).Ok?
    ensures r.Ok? ==> r.value.version == Some(Parse(tokens[0]).value.value.text)
                      && r.value.optional == store.parse(tokens[1..]).value
    ensures r.Panic? <==> |tokens| > 0 && (Parse(tokens[0]).Panic?
                                          || (Parse(tokens[0]).Ok? && store.parse(tokens[1..]).Panic?))
    ensures r.Panic? ==> r.reason == if Parse(tokens[0]).Panic? then Parse(tokens[0]).reason
                                     else store.parse(tokens[1..]).reason
  {
    if |tokens| == 0 then Rejected
    else
      var version :- Parse(tokens[0]);
      var optional :- store.parse(tokens[1..]);
      if version.value.Z? then Ok(Header(Some(version.value.text), optional)) else Rejected
  }

  /** A segment: a name, a sequence, then the store. */
  function ParseSegment<F>(store: Store<F>, tokens: seq<bytes>): (r: Outcome<Segment<F>>)
    ensures r.Ok? <==> |tokens| >= 2 && FindName(tokens[0]).Some? && FindSequence(tokens[1]).Some?
                       && store.parse(tokens[2..]).Ok?
    ensures r.Ok? ==> r.value == Segment(FindName(tokens[0]).value, FindSequence(tokens[1]).value,
                                         store.parse(tokens[2..]).value)
    ensures r.Panic? <==> |tokens| >= 2 && FindName(tokens[0]).Some? && FindSequence(tokens[1]).Some?
                          && store.parse(tokens[2..]).Panic?
    ensures r.Panic? ==> r.reason == store.parse(tokens[2..]).reason
  {
    if |tokens| == 0 then Rejected
    else
      var name :- FromOption(FindName(tokens[0]));
      if |tokens| == 1 then Rejected
      else
        var sequence :- FromOption(FindSequence(tokens[1]));
        var optional :- store.parse(tokens[2..]);
        Ok(Segment(name, sequence, optional))
  }

  /** A link: two oriented segment names and an overlap copied as is. */
  function ParseLink<F>(store: Store<F>, tokens: seq<bytes>): (r: Outcome<Link<F>>)
    ensures r.Ok? <==> |tokens| >= 5
                       && FindName(tokens[0]).Some? && OrientationFromBytes(tokens[1]).Some?
                       && FindName(tokens[2]).Some? && OrientationFromBytes(tokens[3]).Some?
                       && store.parse(tokens[5..]).Ok?
    ensures r.Ok? ==> r.value == Link(FindName(tokens[0]).value, OrientationFromBytes(tokens[1]).value,
                                      FindName(tokens[2]).value, OrientationFromBytes(tokens[3]).value,
                                      tokens[4], store.parse(tokens[5..]).value)
    ensures r.Panic? <==> |tokens| >= 5
                          && FindName(tokens[0]).Some? && OrientationFromBytes(tokens[1]).Some?
                          && FindName(tokens[2]).Some? && OrientationFromBytes(tokens[3]).Some?
                          && store.parse(tokens[5..]).Panic?
    ensures r.Panic? ==> r.reason == store.parse(tokens[5..]).reason
  {
    if |tokens| == 0 then Rejected
    else
      var from :- FromOption(FindName(tokens[0]));
      if |tokens| == 1 then Rejected
      else
        var fromOrient :- FromOption(OrientationFromBytes(tokens[1]));
        if |tokens| == 2 then Rejected
        else
          var to :- FromOption(FindName(tokens[2]));
          if |tokens| == 3 then Rejected
          else
            var toOrient :- FromOption(OrientationFromBytes(tokens[3]));
            if |tokens| == 4 then Rejected
            else
              var optional :- store.parse(tokens[5..]);
              Ok(Link(from, fromOrient, to, toOrient, tokens[4], optional))
  }

  /** A containment: like a link, with a position read as a `usize` before the overlap. */
  function ParseContainment<F>(store: Store<F>, tokens: seq<bytes>): (r: Outcome<Containment<F>>)
    ensures r.Ok? <==> |tokens| >= 6
                       && FindName(tokens[0]).Some? && OrientationFromBytes(tokens[1]).Some?
                       && FindName(tokens[2]).Some? && OrientationFromBytes(tokens[3]).Some?
                       && ParseUsize(tokens[4]).Some? && store.parse(tokens[6..]).Ok?
    ensures r.Ok? ==> r.value == Containment(FindName(tokens[0]).value, OrientationFromBytes(tokens[1]).value,
                                             FindName(tokens[2]).value, OrientationFromBytes(tokens[3]).value,
                                             tokens[5], ParseUsize(tokens[4]).value,
                                             store.parse(tokens[6..]).value)
    ensures r.Panic? <==> |tokens| >= 6
                          && FindName(tokens[0]).Some? && OrientationFromBytes(tokens[1]).Some?
                          && FindName(tokens[2]).Some? && OrientationFromBytes(tokens[3]).Some?
                          && ParseUsize(tokens[4]).Some? && store.parse(tokens[6..]).Panic?
    ensures r.Panic? ==> r.reason == store.parse(tokens[6..]).reason
  {
    if |tokens| == 0 then Rejected
    else
      var container :- FromOption(FindName(tokens[0]));
      if |tokens| == 1 then Rejected
      else
        var containerOrient :- FromOption(OrientationFromBytes(tokens[1]));
        if |tokens| == 2 then Rejected
        else
          var contained :- FromOption(FindName(tokens[2]));
          if |tokens| == 3 then Rejected
          else
            var containedOrient :- FromOption(OrientationFromBytes(tokens[3]));
            if |tokens| == 4 then Rejected
            else
              var pos :- FromOption(ParseUsize(tokens[4]));
              if |tokens| == 5 then Rejected
              else
                var optional :- store.parse(tokens[6..]);
                Ok(Containment(container, containerOrient, contained, containedOrient, tokens[5], pos, optional))
  }

  /** A path: a name, the segment list copied as is, and the overlaps split on commas. */
  function ParsePath<F>(store: Store<F>, tokens: seq<bytes>): (r: Outcome<Path<F>>)
    ensures r.Ok? <==> |tokens| >= 3 && FindName(tokens[0]).Some? && store.parse(tokens[3..]).Ok?
    ensures r.Ok? ==> r.value.pathName == FindName(tokens[0]).value
                      && r.value.segmentNames == tokens[1]
                      && r.value.optional == store.parse(tokens[3..]).value
    ensures r.Ok? ==> |r.value.overlaps| > 0 && Join(r.value.overlaps, COMMA) == tokens[2]
                      && forall i :: 0 <= i < |r.value.overlaps| ==> COMMA !in r.value.overlaps[i]
    ensures r.Panic? <==> |tokens| >= 3 && FindName(tokens[0]).Some? && store.parse(tokens[3..]).Panic?
    ensures r.Panic? ==> r.reason == store.parse(tokens[3..]).reason
  {
    if |tokens| == 0 then Rejected
    else
      var name :- FromOption(FindName(tokens[0]));
      if |tokens| == 1 then Rejected
      else if |tokens| == 2 then Rejected
      else
        var optional :- store.parse(tokens[3..]);
        Ok(Path(name, tokens[1], Split(tokens[2], COMMA), optional))
  }

  /** The record letters `parse_line` dispatches on. */
  predicate IsRecordKind(kind: bytes) {
    kind == "H" || kind == "S" || kind == "L" || kind == "C" || kind == "P"
  }

  /** `GFAParser::parse_line`: filter the line, split it on tabs, and dispatch on
      the whole first field, which must be a single record letter. */
  function ParseLine<F>(config: ParsingConfig, store: Store<F>, line: bytes): (r: Outcome<Line<F>>)
    ensures |line| == 0 ==> r == Panic(EmptyLine)
    ensures r.Ok? ==> Enabled(config, line[0]) && IsRecordKind(Split(line, TAB)[0])
    ensures r.Ok? ==> (r.value.HeaderLine? <==> Split(line, TAB)[0] == "H")
                      && (r.value.SegmentLine? <==> Split(line, TAB)[0] == "S")
                      && (r.value.LinkLine? <==> Split(line, TAB)[0] == "L")
                      && (r.value.ContainmentLine? <==> Split(line, TAB)[0] == "C")
                      && (r.value.PathLine? <==> Split(line, TAB)[0] == "P")
    ensures |line| > 0 && !IsRecordKind(Split(line, TAB)[0]) ==> r == Rejected
    ensures |line| > 0 && !Enabled(config, line[0]) ==> r == Rejected
  {
    var passed :- Filter(config, line);
    var fields := Split(passed, TAB);
    Dispatch(store, fields[0], fields[1..])
  }

  /** The record parser a first field selects, applied to the remaining fields. */
  function Dispatch<F>(store: Store<F>, kind: bytes, rest: seq<bytes>): (r: Outcome<Line<F>>)
    ensures !IsRecordKind(kind) ==> r == Rejected
    ensures r.Ok? ==> (r.value.HeaderLine? <==> kind == "H")
                      && (r.value.SegmentLine? <==> kind == "S")
                      && (r.value.LinkLine? <==> kind == "L")
                      && (r.value.ContainmentLine? <==> kind == "C")
                      && (r.value.PathLine? <==> kind == "P")
    ensures kind == "H" ==> (r.Ok? <==> ParseHeader(store, rest).Ok?)
                            && (r.Ok? ==> r.value.HeaderLine? && r.value.header == ParseHeader(store, rest).value)
                            && (r.Panic? <==> ParseHeader(store, rest).Panic?)
                            && (r.Panic? ==> r.reason == ParseHeader(store, rest).reason)
    ensures kind == "S" ==> (r.Ok? <==> ParseSegment(store, rest).Ok?)
                            && (r.Ok? ==> r.value.SegmentLine? && r.value.segment == ParseSegment(store, rest).value)
                            && (r.Panic? <==> ParseSegment(store, rest).Panic?)
                            && (r.Panic? ==> r.reason == ParseSegment(store, rest).reason)
    ensures kind == "L" ==> (r.Ok? <==> ParseLink(store, rest).Ok?)
                            && (r.Ok? ==> r.value.LinkLine? && r.value.link == ParseLink(store, rest).value)
                            && (r.Panic? <==> ParseLink(store, rest).Panic?)
                            && (r.Panic? ==> r.reason == ParseLink(store, rest).reason)
    ensures kind == "C" ==> (r.Ok? <==> ParseContainment(store, rest).Ok?)
                            && (r.Ok? ==> r.value.ContainmentLine?
                                          && r.value.containment == ParseContainment(store, rest).value)
                            && (r.Panic? <==> ParseContainment(store, rest).Panic?)
                            && (r.Panic? ==> r.reason == ParseContainment(store, rest).reason)
    ensures kind == "P" ==> (r.Ok? <==> ParsePath(store, rest).Ok?)
                            && (r.Ok? ==> r.value.PathLine? && r.value.path == ParsePath(store, rest).value)
                            && (r.Panic? <==> ParsePath(store, rest).Panic?)
                            && (r.Panic? ==> r.reason == ParsePath(store, rest).reason)
  {
    if kind == "H" then ParseHeader(store, rest).Map(h => HeaderLine(h))
    else if kind == "S" then ParseSegment(store, rest).Map(s => SegmentLine(s))
    else if kind == "L" then ParseLink(store, rest).Map(l => LinkLine(l))
    else if kind == "C" then ParseContainment(store, rest).Map(c => ContainmentLine(c))
    else if kind == "P" then ParsePath(store, rest).Map(p => PathLine(p))
    else Rejected
  }

  /** A line written as an enabled first field and tab-free tokens, joined by
      tabs, is handed whole to the record parser that first field selects. */
  lemma ParseJoinedLine<F>(config: ParsingConfig, store: Store<F>, kind: bytes, tokens: seq<bytes>)
    requires |kind| > 0 && TAB !in kind && Enabled(config, kind[0])
    requires forall i :: 0 <= i < |tokens| ==> TAB !in tokens[i]
    ensures ParseLine(config, store, Join([kind] + tokens, TAB)) == Dispatch(store, kind, tokens)
  {
    var parts := [kind] + tokens;
    var line := Join(parts, TAB);
    assert forall i :: 0 <= i < |parts| ==> TAB !in parts[i] by {
      forall i | 0 <= i < |parts|
        ensures TAB !in parts[i]
      {
        if i > 0 {
          assert parts[i] == tokens[i - 1];
        }
      }
    }
    SplitJoin(parts, TAB);
    JoinHead(parts, TAB);
    assert parts[1..] == tokens;
  }

  /** An `S` line of an enabled configuration yields exactly what the segment
      parser makes of its remaining fields, and is refused or panics with it. */
  lemma SegmentLineParsed<F>(config: ParsingConfig, store: Store<F>, tokens: seq<bytes>)
    requires config.segments
    requires forall i :: 0 <= i < |tokens| ==> TAB !in tokens[i]
    ensures var parts: seq<bytes> := ["S"] + tokens;
      var r := ParseLine(config, store, Join(parts, TAB));
      (r.Ok? <==> ParseSegment(store, tokens).Ok?)
      && (r.Ok? ==> r.value == SegmentLine(ParseSegment(store, tokens).value))
      && (r.Panic? <==> ParseSegment(store, tokens).Panic?)
  {
    var kind: bytes := "S";
    assert TAB !in kind && kind[0] == 'S';
    ParseJoinedLine(config, store, kind, tokens);
  }

  /** Every line is its own tab-separated fields joined back, so
      `ParseJoinedLine` covers every line whose first byte is enabled. */
  lemma EveryLineJoined<F>(config: ParsingConfig, store: Store<F>, line: bytes)
    requires |line| > 0 && Enabled(config, line[0])
    ensures var fields := Split(line, TAB);
      line == Join([fields[0]] + fields[1..], TAB)
      && ParseLine(config, store, line) == Dispatch(store, fields[0], fields[1..])
  {
    var fields := Split(line, TAB);
    assert [fields[0]] + fields[1..] == fields;
  }

  /** The first field of a non-empty line starts with the line's first byte,
      unless the line begins with a tab. */
  lemma FirstFieldHead(line: bytes)
    requires |line| > 0 && line[0] != TAB
    ensures |Split(line, TAB)[0]| > 0 && Split(line, TAB)[0][0] == line[0]
  {
  }

  /** A record kind the configuration disables is never produced. */
  lemma DisabledKindsNeverParsed<F>(config: ParsingConfig, store: Store<F>, line: bytes)
    requires ParseLine(config, store, line).Ok?
    ensures ParseLine(config, store, line).value.SegmentLine? ==> config.segments
    ensures ParseLine(config, store, line).value.LinkLine? ==> config.links
    ensures ParseLine(config, store, line).value.ContainmentLine? ==> config.containments
    ensures ParseLine(config, store, line).value.PathLine? ==> config.paths
  {
    var kind := Split(line, TAB)[0];
    if line[0] != TAB {
      FirstFieldHead(line);
    }
  }

  /** A line that passes the filter can still be rejected: its first field must
      be the record letter alone, so `Sx` or `SS` as a first field is refused. */
  lemma LongerKindRejected<F>(config: ParsingConfig, store: Store<F>, kind: bytes, rest: bytes)
    requires |kind| > 1 && TAB !in kind
    ensures ParseLine(config, store, kind + [TAB] + rest) == Rejected
  {
    var line := kind + [TAB] + rest;
    SplitPiece(kind, TAB, rest);
    assert Split(line, TAB)[0] == kind;
    assert line[0] == kind[0];
  }

  // ---------------------------------------------------------------------------
  // The record parsers' own examples

  /** The header example, `VN:Z:1.0`: the version is read whatever the tag. */
  lemma HeaderExample(tag: Tag)
    requires IsValidTag(TagBytes(tag))
    ensures ParseHeader(UnitStore(), [TagBytes(tag) + ":Z:1.0"]) == Ok(Header(Some("1.0"), ()))
  {
    var t := TagBytes(tag) + ":Z:1.0";
    TaggedParts(tag, ":Z:1.0");
    assert t[5..] == "1.0";
    ParseTextField(t);
  }

  lemma LinkExample()
    ensures ParseLink(UnitStore(), ["11", "+", "12", "-", "4M"])
            == Ok(Link("11", Forward, "12", Backward, "4M", ()))
  {
    NameWhole("11");
    NameWhole("12");
  }

  lemma ContainmentExample(tokens: seq<bytes>)
    requires |tokens| == 6 && tokens[0] == "1" && tokens[1] == "-" && tokens[2] == "2"
    requires tokens[3] == "+" && tokens[4] == "110" && tokens[5] == "100M"
    ensures ParseContainment(UnitStore(), tokens)
            == Ok(Containment("1", Backward, "2", Forward, "100M", 110, ()))
  {
    NameWhole(tokens[0]);
    NameWhole(tokens[2]);
    UsizeExample();
  }

  /** `110` reads as the position 110. */
  lemma UsizeExample()
    ensures ParseUsize("110") == Some(110)
  {
    assert ShowInt(110) == "110";
  }

  lemma PathExample()
    ensures ParsePath(UnitStore(), ["14", "11+,12-,13+", "4M,5M"])
            == Ok(Path("14", "11+,12-,13+", ["4M", "5M"], ()))
  {
    NameWhole("14");
    assert Join(["4M", "5M"], COMMA) == "4M,5M";
    SplitJoin(["4M", "5M"], COMMA);
  }

  /** A token of name bytes alone is its own name. */
  lemma NameWhole(t: bytes)
    requires |t| > 0 && IsNameStart(t[0]) && forall i :: 0 <= i < |t| ==> IsVisible(t[i])
    ensures FindName(t) == Some(t)
  {
    assert t[0..|t|] == t;
  }

  /** The optional fields of the parser's segment example, in line order, with
      the tags left open (the example uses `LN`, `SH`, `RC`, `UR`, `IJ`, `AB`). */
  function ExampleFields(tags: seq<Tag>): seq<OptField>
    requires |tags| == 6
  {
    [ OptField(tags[0], Int(123)),
      OptField(tags[1], H([0xA, 0xA, 0xC, 0xC, 0xF, 0xF, 0x0, 0x5])),
      OptField(tags[2], Int(123)),
      OptField(tags[3], Z("http://test.com/")),
      OptField(tags[4], A('x')),
      OptField(tags[5], BInt([1, 2, 3, 52124])) ]
  }

  /** The text of those fields as the segment line carries them. */
  function ExampleFieldTokens(tags: seq<Tag>): seq<bytes>
    requires |tags| == 6
  {
    [ TagBytes(tags[0]) + ":i:123", TagBytes(tags[1]) + ":H:AACCFF05",
      TagBytes(tags[2]) + ":i:123", TagBytes(tags[3]) + ":Z:http://test.com/",
      TagBytes(tags[4]) + ":A:x", TagBytes(tags[5]) + ":B:I1,2,3,52124" ]
  }

  predicate AllValidTags(tags: seq<Tag>) {
    forall i :: 0 <= i < |tags| ==> IsValidTag(TagBytes(tags[i]))
  }

  /** The six optional fields of the segment example each decode, in order. */
  lemma SegmentFieldsExample(tags: seq<Tag>)
    requires |tags| == 6 && AllValidTags(tags)
    ensures ParseFieldVec(ExampleFieldTokens(tags)) == Ok(ExampleFields(tags))
  {
    var opt := ExampleFieldTokens(tags);
    var fields := ExampleFields(tags);
    forall i | 0 <= i < |opt|
      ensures Parse(opt[i]) == Ok(fields[i])
    {
      if i == 0 || i == 2 {
        IntFieldExample(opt[i], tags[i]);
      } else if i == 1 {
        HexFieldExample(opt[i], tags[i]);
      } else if i == 3 {
        TextFieldExample(opt[i], tags[i]);
      } else if i == 4 {
        CharFieldExample(opt[i], tags[i]);
      } else {
        ArrayFieldExample(opt[i], tags[i]);
      }
    }
    ParseFieldVecAllDecoded(opt, fields);
  }

  /** The segment example from the parser's tests, under both stores: the fixed
      fields agree, and the vector store keeps all six optional fields in order. */
  lemma SegmentExample(tags: seq<Tag>)
    requires |tags| == 6 && AllValidTags(tags)
    ensures ParseSegment(UnitStore(), ["11", "ACCTT"] + ExampleFieldTokens(tags))
            == Ok(Segment("11", "ACCTT", ()))
    ensures ParseSegment(VecStore(), ["11", "ACCTT"] + ExampleFieldTokens(tags))
            == Ok(Segment("11", "ACCTT", ExampleFields(tags)))
  {
    var tokens := ["11", "ACCTT"] + ExampleFieldTokens(tags);
    NameWhole(tokens[0]);
    SequenceWhole(tokens[1]);
    assert tokens[2..] == ExampleFieldTokens(tags);
    SegmentFieldsExample(tags);
  }

  /** A token of sequence letters alone is its own sequence. */
  lemma SequenceWhole(t: bytes)
    requires |t| > 0 && forall i :: 0 <= i < |t| ==> IsSequenceChar(t[i])
    ensures FindSequence(t) == Some(t)
  {
    assert t[0] != '*';
    assert t[0..|t|] == t;
  }

  /** The string field of the segment example. */
  lemma TextFieldExample(t: bytes, tag: Tag)
    requires IsValidTag(TagBytes(tag)) && t == TagBytes(tag) + ":Z:http://test.com/"
    ensures Parse(t) == Ok(OptField(tag, Z("http://test.com/")))
  {
    TaggedParts(tag, ":Z:http://test.com/");
    assert t[5..] == "http://test.com/";
    UrlPrintable();
    ParseTextField(t);
  }

  lemma UrlPrintable()
    ensures AllPrintable("http://test.com/")
  {
  }

  /** The character field of the segment example. */
  lemma CharFieldExample(t: bytes, tag: Tag)
    requires IsValidTag(TagBytes(tag)) && t == TagBytes(tag) + ":A:x"
    ensures Parse(t) == Ok(OptField(tag, A('x')))
  {
    assert t[..2] == TagBytes(tag) && t[3] == 'A' && t[5] == 'x';
    ParseCharField(t);
  }

  /** The integer fields of the segment example. */
  lemma IntFieldExample(t: bytes, tag: Tag)
    requires IsValidTag(TagBytes(tag)) && t == TagBytes(tag) + ":i:123"
    ensures Parse(t) == Ok(OptField(tag, Int(123)))
  {
    assert t[5..] == ShowInt(123) && t[..2] == TagBytes(tag) && t[3] == 'i';
    IntValueRoundTrip(123);
    ParseFromValue(t, Int(123));
  }

  /** The hex field of the segment example. */
  lemma HexFieldExample(t: bytes, tag: Tag)
    requires IsValidTag(TagBytes(tag)) && t == TagBytes(tag) + ":H:AACCFF05"
    ensures Parse(t) == Ok(OptField(tag, H([0xA, 0xA, 0xC, 0xC, 0xF, 0xF, 0x0, 0x5])))
  {
    var digits: bytes := "AACCFF05";
    TaggedParts(tag, ":H:AACCFF05");
    assert t[5..] == digits;
    ExampleHexUpper(digits);
    var d := ParseHexText(t, digits);
    ExampleHexValues(digits, d);
  }

  /** An `H` field whose value text `c` is upper-case hex, stated on `c`. */
  lemma ParseHexText(t: bytes, c: bytes) returns (d: seq<u32>)
    requires |t| > 5 && t[3] == 'H' && IsValidTag(t[..2]) && t[5..] == c
    requires forall i :: 0 <= i < |c| ==> IsUpperHex(c[i])
    ensures Parse(t) == Ok(OptField(Tag(t[0], t[1]), H(d)))
    ensures |d| == |c| && forall i :: 0 <= i < |d| ==> d[i] as int == HexValue(c[i])
  {
    assert forall i :: 5 <= i < |t| ==> IsUpperHex(t[i]) by {
      forall i | 5 <= i < |t|
        ensures IsUpperHex(t[i])
      {
        assert t[i] == c[i - 5];
      }
    }
    d := ParseUpperHexField(t);
    assert forall i :: 0 <= i < |d| ==> d[i] as int == HexValue(c[i]) by {
      forall i | 0 <= i < |d|
        ensures d[i] as int == HexValue(c[i])
      {
        assert t[5 + i] == c[i];
      }
    }
  }

  /** The example's digits are upper-case hex digits. */
  lemma ExampleHexUpper(c: bytes)
    requires c == "AACCFF05"
    ensures forall i :: 0 <= i < |c| ==> IsUpperHex(c[i])
  {
  }

  /** The values of the example's digits. */
  lemma ExampleHexValues(c: bytes, d: seq<u32>)
    requires c == "AACCFF05"
    requires |d| == |c| && forall i :: 0 <= i < |d| ==> d[i] as int == HexValue(c[i])
    ensures d == [0xA, 0xA, 0xC, 0xC, 0xF, 0xF, 0x0, 0x5]
  {
    assert d[0] == 0xA && d[1] == 0xA && d[2] == 0xC && d[3] == 0xC;
    assert d[4] == 0xF && d[5] == 0xF && d[6] == 0x0 && d[7] == 0x5;
  }

  /** `I1,2,3,52124` is the array display of its four integers. */
  lemma ExampleArrayText()
    ensures "I1,2,3,52124" == ['I'] + Join(MapSeq<i64, bytes>([1, 2, 3, 52124], (n: i64) => ShowInt(n)), COMMA)
  {
    ExampleInts();
  }

  /** The decimal displays of the array example's integers. */
  lemma ExampleInts()
    ensures MapSeq<i64, bytes>([1, 2, 3, 52124], (n: i64) => ShowInt(n)) == ["1", "2", "3", "52124"]
  {
    assert ShowInt(1) == "1" && ShowInt(2) == "2" && ShowInt(3) == "3" && ShowInt(52124) == "52124";
  }

  /** The integer-array field of the segment example. */
  lemma ArrayFieldExample(t: bytes, tag: Tag)
    requires IsValidTag(TagBytes(tag)) && t == TagBytes(tag) + ":B:I1,2,3,52124"
    ensures Parse(t) == Ok(OptField(tag, BInt([1, 2, 3, 52124])))
  {
    var x: seq<i64> := [1, 2, 3, 52124];
    TaggedParts(tag, ":B:I1,2,3,52124");
    assert t[5..] == "I1,2,3,52124";
    ExampleArrayText();
    ShownIntsParse(x);
    ParseIntArrayField(t, 'I', MapSeq(x, (n: i64) => ShowInt(n)));
  }
}
