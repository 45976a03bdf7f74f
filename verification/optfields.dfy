/** The SAM-style optional fields `TAG:TYPE:VALUE` of `src/optfields.rs`
    (section 1.5 of the SAM v1 specification): the value codec and the two
    field stores that the line parser is generic over. */
module OptFields {
  import opened Wrappers
  import opened Bytes
  import opened Scan
  import opened Seqs
  import opened Numbers

  /** The two tag bytes of a field (Rust `[u8; 2]`). */
  datatype Tag = Tag(first: byte, second: byte)

  function TagBytes(t: Tag): (r: bytes)
    ensures |r| == 2 && r[0] == t.first && r[1] == t.second
  {
    [t.first, t.second]
  }

  /** One value per SAM type letter; `B` arrays are split by element type. A
      float is kept as the text the parser accepted, not as an `f32`. */
  datatype OptFieldVal =
    | A(ch: byte)
    | Int(number: i64)
    | Float(lexeme: bytes)
    | Z(text: bytes)
    | J(json: bytes)
    | H(digits: seq<u32>)
    | BInt(ints: seq<i64>)
    | BFloat(floats: seq<bytes>)

  datatype OptField = OptField(tag: Tag, value: OptFieldVal)

  /** The type letter a value is written with. */
  function TypeCode(v: OptFieldVal): byte {
    match v
    case A(_) => 'A'
    case Int(_) => 'i'
    case Float(_) => 'f'
    case Z(_) => 'Z'
    case J(_) => 'J'
    case H(_) => 'H'
    case BInt(_) => 'B'
    case BFloat(_) => 'B'
  }

  /** The type letters `parse` accepts. */
  predicate IsTypeCode(c: byte) {
    c == 'A' || c == 'i' || c == 'f' || c == 'Z' || c == 'J' || c == 'H' || c == 'B'
  }

  /** A tag matching `[A-Za-z][A-Za-z0-9]`. */
  predicate IsValidTag(t: bytes) {
    |t| == 2 && IsAlpha(t[0]) && IsAlnum(t[1])
  }

  // ---------------------------------------------------------------------------
  // Construction

  /** `OptField::tag`: the tag as two bytes, or a panic when the three
      assertions (length 2, alphabetic, alphanumeric) do not all hold. */
  function MakeTag(t: bytes): (r: Outcome<Tag>)
    ensures r.Ok? <==> IsValidTag(t)
    ensures r.Ok? ==> TagBytes(r.value) == t
    ensures !r.Ok? ==> r == Panic(InvalidTag)
  {
    if |t| != 2 then Panic(InvalidTag)
    else if !IsAlpha(t[0]) then Panic(InvalidTag)
    else if !IsAlnum(t[1]) then Panic(InvalidTag)
    else Ok(Tag(t[0], t[1]))
  }

  /** `OptField::new`: a field with a checked tag. */
  function New(tag: bytes, value: OptFieldVal): (r: Outcome<OptField>)
    ensures r.Ok? <==> IsValidTag(tag)
    ensures r.Ok? ==> TagBytes(r.value.tag) == tag && r.value.value == value
    ensures !r.Ok? ==> r == Panic(InvalidTag)
  {
    var t :- MakeTag(tag);
    Ok(OptField(t, value))
  }

  // ---------------------------------------------------------------------------
  // Value patterns, each a leftmost-first match

  /** `[-+]?[0-9]+` can begin at `p`. */
  predicate IntStartsAt(s: bytes, p: nat) {
    p < |s| && (IsDigit(s[p]) || (IsSign(s[p]) && p + 1 < |s| && IsDigit(s[p + 1])))
  }

  /** The leftmost match of `[-+]?[0-9]+`, the sign taken when present. */
  function IntMatch(s: bytes): (r: Option<Span>)
    ensures r.None? <==> forall p :: 0 <= p < |s| ==> !IntStartsAt(s, p)
    ensures r.Some? ==> r.value.start < r.value.end <= |s|
    ensures r.Some? ==> IntStartsAt(s, r.value.start)
    ensures r.Some? ==> forall p :: 0 <= p < r.value.start ==> !IntStartsAt(s, p)
    ensures r.Some? ==> IsIntLiteral(s[r.value.start..r.value.end])
    ensures r.Some? ==> r.value.end == |s| || !IsDigit(s[r.value.end])
  {
    var at := (k: nat) => IntStartsAt(s, k);
    var p := FirstFrom(0, |s|, at);
    assert forall k :: 0 <= k < p ==> !IntStartsAt(s, k) by {
      forall k | 0 <= k < p
        ensures !IntStartsAt(s, k)
      {
        assert !at(k);
      }
    }
    if p == |s| then None
    else
      var digits := if IsDigit(s[p]) then p else p + 1;
      var end := SkipWhile(s, digits, IsDigit);
      var t := s[p..end];
      assert IsIntLiteral(t) by {
        IntRunIsLiteral(s, p, digits, end);
      }
      Some(Span(p, end))
  }

  /** An optional sign followed by a non-empty run of digits is an integer literal. */
  lemma IntRunIsLiteral(s: bytes, p: nat, digits: nat, end: nat)
    requires p <= digits <= p + 1 && digits < end <= |s|
    requires digits == p + 1 ==> IsSign(s[p])
    requires digits == p ==> IsDigit(s[p])
    requires forall k :: digits <= k < end ==> IsDigit(s[k])
    ensures IsIntLiteral(s[p..end])
  {
    var t := s[p..end];
    if digits == p + 1 {
      forall i | 0 <= i < |t[1..]|
        ensures IsDigit(t[1..][i])
      {
        assert t[1..][i] == s[p + 1 + i];
      }
    } else {
      assert !IsSign(t[0]);
      forall i | 0 <= i < |t|
        ensures IsDigit(t[i])
      {
        assert t[i] == s[p + i];
      }
    }
  }

  /** A mantissa `[0-9]*\.?[0-9]+` can begin at `q`. */
  predicate MantissaAt(s: bytes, q: nat) {
    q < |s| && (IsDigit(s[q]) || (s[q] == '.' && q + 1 < |s| && IsDigit(s[q + 1])))
  }

  /** `[-+]?[0-9]*\.?[0-9]+([eE][-+]?[0-9]+)?` can begin at `p`. */
  predicate FloatStartsAt(s: bytes, p: nat) {
    MantissaAt(s, p) || (p < |s| && IsSign(s[p]) && MantissaAt(s, p + 1))
  }

  /** Where the mantissa starting at `q` ends: a fraction is taken only when a
      digit follows the dot, otherwise the integer digits alone match. */
  function MantissaEnd(s: bytes, q: nat): (e: nat)
    requires MantissaAt(s, q)
    ensures q < e <= |s|
    ensures e == |s| || !IsDigit(s[e])
    ensures IsDigit(s[e - 1])
  {
    var d := SkipWhile(s, q, IsDigit);
    if d + 1 < |s| && s[d] == '.' && IsDigit(s[d + 1]) then SkipWhile(s, d + 1, IsDigit) else d
  }

  /** The mantissa holds digits and at most one dot, and it stops before a
      `.digit` only when it has already taken a dot. */
  lemma MantissaShape(s: bytes, q: nat)
    requires MantissaAt(s, q)
    ensures var e := MantissaEnd(s, q);
      (forall k :: q <= k < e ==> IsDigit(s[k]) || s[k] == '.')
      && (forall i, j :: q <= i < j < e && s[i] == '.' ==> s[j] != '.')
      && (e + 1 < |s| && s[e] == '.' && IsDigit(s[e + 1]) ==> '.' in s[q..e])
  {
    var d := SkipWhile(s, q, IsDigit);
    var e := MantissaEnd(s, q);
    if e != d {
      assert s[q..e][d - q] == s[d];
    }
  }

  /** Where an optional exponent starting at `e` ends (`e` itself when there is none). */
  function ExponentEnd(s: bytes, e: nat): (x: nat)
    requires e <= |s|
    ensures e <= x <= |s|
    ensures x > e ==> IsExpMark(s[e]) && IsDigit(s[x - 1]) && (x == |s| || !IsDigit(s[x]))
    ensures x == e ==> !(e < |s| && IsExpMark(s[e])
                         && ((e + 1 < |s| && IsDigit(s[e + 1]))
                             || (e + 2 < |s| && IsSign(s[e + 1]) && IsDigit(s[e + 2]))))
  {
    if e < |s| && IsExpMark(s[e]) then
      var f := if e + 1 < |s| && IsSign(s[e + 1]) then e + 2 else e + 1;
      if f < |s| && IsDigit(s[f]) then SkipWhile(s, f, IsDigit) else e
    else e
  }

  /** The leftmost match of the float pattern. */
  function FloatMatch(s: bytes): (r: Option<Span>)
    ensures r.None? <==> forall p :: 0 <= p < |s| ==> !FloatStartsAt(s, p)
    ensures r.Some? ==> r.value.start < r.value.end <= |s|
    ensures r.Some? ==> FloatStartsAt(s, r.value.start)
    ensures r.Some? ==> forall p :: 0 <= p < r.value.start ==> !FloatStartsAt(s, p)
    ensures r.Some? ==> IsF32Literal(s[r.value.start..r.value.end])
    ensures r.Some? ==> var q := if IsSign(s[r.value.start]) then r.value.start + 1 else r.value.start;
                          MantissaAt(s, q) && r.value.end == ExponentEnd(s, MantissaEnd(s, q))
  {
    var p := FirstFloatStart(s);
    if p == |s| then None else Some(FloatSpanAt(s, p))
  }

  /** The first position where the float pattern can begin, or `|s|`. */
  function FirstFloatStart(s: bytes): (p: nat)
    ensures p <= |s|
    ensures p < |s| ==> FloatStartsAt(s, p)
    ensures forall k :: 0 <= k < p ==> !FloatStartsAt(s, k)
  {
    var at := (k: nat) => FloatStartsAt(s, k);
    var p := FirstFrom(0, |s|, at);
    assert forall k :: 0 <= k < p ==> !FloatStartsAt(s, k) by {
      forall k | 0 <= k < p
        ensures !FloatStartsAt(s, k)
      {
        assert !at(k);
      }
    }
    p
  }

  /** The match of the float pattern that begins at `p`: the optional sign,
      the mantissa, then an exponent when one follows. */
  function FloatSpanAt(s: bytes, p: nat): (sp: Span)
    requires FloatStartsAt(s, p)
    ensures sp.start == p < sp.end <= |s|
    ensures IsF32Literal(s[p..sp.end])
    ensures var q := if IsSign(s[p]) then p + 1 else p;
              MantissaAt(s, q) && sp.end == ExponentEnd(s, MantissaEnd(s, q))
  {
    var q := if IsSign(s[p]) then p + 1 else p;
    FloatMatchIsLiteral(s, p, q);
    Span(p, ExponentEnd(s, MantissaEnd(s, q)))
  }

  /** The digit state a run of digits leaves the float recognizer in. */
  function AfterDigits(st: FloatState): FloatState {
    match st
    case Start => IntDigits
    case IntDigits => IntDigits
    case LoneDot => FracDigits
    case FracDigits => FracDigits
    case ExpMark => ExpDigits
    case ExpSign => ExpDigits
    case ExpDigits => ExpDigits
    case Dead => Dead
  }

  lemma FloatRunNonEmptyDigits(st: FloatState, ds: bytes)
    requires |ds| > 0 && AllDigits(ds)
    ensures FloatRun(st, ds) == AfterDigits(st)
  {
    if AfterDigits(st) == Dead {
      FloatRunDead(ds[1..]);
    } else {
      FloatRunDigits(AfterDigits(st), ds[1..]);
    }
  }

  /** The mantissa leaves the recognizer in an accepting digit state. */
  lemma MantissaAccepted(s: bytes, q: nat)
    requires MantissaAt(s, q)
    ensures var st := FloatRun(Start, s[q..MantissaEnd(s, q)]); st == IntDigits || st == FracDigits
  {
    var d := SkipWhile(s, q, IsDigit);
    var m := MantissaEnd(s, q);
    if m == d {
      FloatRunNonEmptyDigits(Start, s[q..d]);
    } else {
      var st0 := FloatRun(Start, s[q..d]);
      assert st0 == Start || st0 == IntDigits by {
        if d > q {
          FloatRunNonEmptyDigits(Start, s[q..d]);
        } else {
          assert s[q..d] == [];
        }
      }
      assert s[q..m] == s[q..d] + ([s[d]] + s[d + 1..m]);
      FloatRunAppend(Start, s[q..d], [s[d]] + s[d + 1..m]);
      FloatRunAppend(st0, [s[d]], s[d + 1..m]);
      FloatRunNonEmptyDigits(FloatStep(st0, s[d]), s[d + 1..m]);
    }
  }

  /** An exponent, when one is taken, keeps the recognizer accepting. */
  lemma ExponentAccepted(s: bytes, m: nat, st: FloatState)
    requires m <= |s| && (st == IntDigits || st == FracDigits)
    ensures IsAccepting(FloatRun(st, s[m..ExponentEnd(s, m)]))
  {
    var x := ExponentEnd(s, m);
    if x > m {
      var f := if m + 1 < |s| && IsSign(s[m + 1]) then m + 2 else m + 1;
      assert s[m..x] == s[m..f] + s[f..x];
      FloatRunAppend(st, s[m..f], s[f..x]);
      var st1 := FloatRun(st, s[m..f]);
      assert st1 == ExpMark || st1 == ExpSign by {
        if f == m + 2 {
          assert s[m..f] == [s[m]] + [s[m + 1]];
          FloatRunAppend(st, [s[m]], [s[m + 1]]);
        } else {
          assert s[m..f] == [s[m]];
        }
      }
      FloatRunNonEmptyDigits(st1, s[f..x]);
    } else {
      assert s[m..x] == [];
    }
  }

  /** Every text the float pattern matches is accepted by Rust's `f32` parser,
      so the `.parse().ok()` after the match never fails. */
  lemma FloatMatchIsLiteral(s: bytes, p: nat, q: nat)
    requires FloatStartsAt(s, p)
    requires q == if IsSign(s[p]) then p + 1 else p
    ensures MantissaAt(s, q)
    ensures IsF32Literal(s[p..ExponentEnd(s, MantissaEnd(s, q))])
  {
    var m := MantissaEnd(s, q);
    var x := ExponentEnd(s, m);
    var t := s[p..x];
    assert (if |t| > 0 && IsSign(t[0]) then t[1..] else t) == s[q..x];
    assert s[q..x] == s[q..m] + s[m..x];
    FloatRunAppend(Start, s[q..m], s[m..x]);
    MantissaAccepted(s, q);
    ExponentAccepted(s, m, FloatRun(Start, s[q..m]));
  }

  // ---------------------------------------------------------------------------
  // Per-type value decoding

  /** Type `A`: the first visible byte of the contents, `[!-~]`. */
  function DecodeChar(c: bytes): (r: Option<byte>)
    ensures r.None? <==> forall k :: 0 <= k < |c| ==> !IsVisible(c[k])
    ensures r.Some? ==> exists k :: 0 <= k < |c| && c[k] == r.value && IsVisible(c[k])
                          && forall j :: 0 <= j < k ==> !IsVisible(c[j])
  {
    var k := SkipUntil(c, 0, IsVisible);
    if k == |c| then None else Some(c[k])
  }

  /** Type `i`: the leftmost `[-+]?[0-9]+`, read as an `i64`; a match that
      overflows is a failure, and no later match is tried. */
  function DecodeInt(c: bytes): (r: Option<i64>)
    ensures r.Some? ==> IntMatch(c).Some?
    ensures r.Some? <==> (IntMatch(c).Some? &&
      I64_MIN <= IntLiteralValue(c[IntMatch(c).value.start..IntMatch(c).value.end]) <= I64_MAX)
    ensures r.Some? ==> r.value == IntLiteralValue(c[IntMatch(c).value.start..IntMatch(c).value.end])
  {
    match IntMatch(c)
    case None => None
    case Some(sp) => ParseI64(c[sp.start..sp.end])
  }

  /** Type `f`: the leftmost float-pattern match, kept as text. */
  function DecodeFloat(c: bytes): (r: Option<bytes>)
    ensures r.None? <==> forall p :: 0 <= p < |c| ==> !FloatStartsAt(c, p)
    ensures r.Some? ==> IsF32Literal(r.value)
    ensures r.Some? ==> exists p, e :: 0 <= p < e <= |c| && FloatStartsAt(c, p) && r.value == c[p..e]
                          && forall k :: 0 <= k < p ==> !FloatStartsAt(c, k)
    ensures r.Some? <==> FloatMatch(c).Some?
    ensures r.Some? ==> r.value == c[FloatMatch(c).value.start..FloatMatch(c).value.end]
  {
    match FloatMatch(c)
    case None => None
    case Some(sp) => ParseF32(c[sp.start..sp.end])
  }

  /** Types `Z` and `J`: the leftmost longest run of `[ !-~]`. */
  function DecodeText(c: bytes): (r: Option<bytes>)
    ensures r.None? <==> forall k :: 0 <= k < |c| ==> !IsPrintable(c[k])
    ensures r.Some? ==> |r.value| > 0 && AllPrintable(r.value)
    ensures r.Some? ==> exists sp :: IsLeftmostRun(c, IsPrintable, IsPrintable, sp)
                          && r.value == c[sp.start..sp.end]
  {
    match LeftmostRun(c, IsPrintable, IsPrintable)
    case None => None
    case Some(sp) => Some(c[sp.start..sp.end])
  }

  /** Type `H`: the leftmost longest run of `[0-9A-F]`, one value per digit. */
  function DecodeHex(c: bytes): (r: Option<seq<u32>>)
    ensures r.None? <==> forall k :: 0 <= k < |c| ==> !IsUpperHex(c[k])
    ensures r.Some? ==> |r.value| > 0 && forall i :: 0 <= i < |r.value| ==> r.value[i] < 16
    ensures r.Some? ==> exists sp :: IsLeftmostRun(c, IsUpperHex, IsUpperHex, sp)
                          && |r.value| == sp.end - sp.start
                          && forall i :: 0 <= i < |r.value| ==> r.value[i] == HexValue(c[sp.start + i])
  {
    match LeftmostRun(c, IsUpperHex, IsUpperHex)
    case None => None
    case Some(sp) =>
      var run := c[sp.start..sp.end];
      Some(seq(|run|, i requires 0 <= i < |run| => HexValue(run[i]) as u32))
  }

  /** Type `B`: the first byte picks the element type (`f` for floats, anything
      else for integers); the rest is split on commas and every token that does
      not parse is dropped, so the field itself never fails. */
  function DecodeArray(c: bytes): (r: OptFieldVal)
    requires |c| > 0
    ensures r.BInt? || r.BFloat?
    ensures r.BFloat? <==> c[0] == 'f'
    ensures r.BInt? ==> |r.ints| <= |Split(c[1..], COMMA)|
    ensures r.BFloat? ==> |r.floats| <= |Split(c[1..], COMMA)|
    ensures r.BFloat? ==> forall i :: 0 <= i < |r.floats| ==> IsF32Literal(r.floats[i])
  {
    var tokens := Split(c[1..], COMMA);
    if c[0] == 'f' then
      var floats := FilterMap(tokens, ParseF32);
      assert forall i :: 0 <= i < |floats| ==> IsF32Literal(floats[i]) by {
        forall i | 0 <= i < |floats|
          ensures IsF32Literal(floats[i])
        {
          FilterMapSound(tokens, ParseF32, i);
        }
      }
      BFloat(floats)
    else BInt(FilterMap(tokens, ParseI64))
  }

  /** What every value the parser produces satisfies. */
  predicate WellFormedValue(v: OptFieldVal) {
    match v
    case A(x) => IsVisible(x)
    case Int(_) => true
    case Float(x) => IsF32Literal(x)
    case Z(x) => |x| > 0 && AllPrintable(x)
    case J(x) => |x| > 0 && AllPrintable(x)
    case H(x) => |x| > 0 && forall i :: 0 <= i < |x| ==> x[i] < 16
    case BInt(_) => true
    case BFloat(x) => forall i :: 0 <= i < |x| ==> IsF32Literal(x[i])
  }

  predicate WellFormed(f: OptField) {
    IsValidTag(TagBytes(f.tag)) && WellFormedValue(f.value)
  }

  /** The value part of `OptField::parse`, for a type letter that passed the
      membership check; the unreachable `panic!` arm is left out. */
  function DecodeValue(code: byte, c: bytes): (r: Outcome<OptFieldVal>)
    requires IsTypeCode(code)
    ensures r.Ok? ==> TypeCode(r.value) == code && WellFormedValue(r.value)
    ensures r.Panic? <==> code == 'B' && |c| == 0
    ensures r.Panic? ==> r.reason == EmptyArrayValue
    ensures code == 'B' && |c| > 0 ==> r == Ok(DecodeArray(c))
    ensures code != 'B' ==> !r.Panic?
    ensures code == 'A' ==> (r.Ok? <==> DecodeChar(c).Some?) && (r.Ok? ==> r.value == A(DecodeChar(c).value))
    ensures code == 'i' ==> (r.Ok? <==> DecodeInt(c).Some?) && (r.Ok? ==> r.value == Int(DecodeInt(c).value))
    ensures code == 'f' ==> (r.Ok? <==> DecodeFloat(c).Some?) && (r.Ok? ==> r.value == Float(DecodeFloat(c).value))
    ensures code == 'Z' ==> (r.Ok? <==> DecodeText(c).Some?) && (r.Ok? ==> r.value == Z(DecodeText(c).value))
    ensures code == 'J' ==> (r.Ok? <==> DecodeText(c).Some?) && (r.Ok? ==> r.value == J(DecodeText(c).value))
    ensures code == 'H' ==> (r.Ok? <==> DecodeHex(c).Some?) && (r.Ok? ==> r.value == H(DecodeHex(c).value))
  {
    if code == 'A' then FromOption(DecodeChar(c)).Map(x => A(x))
    else if code == 'i' then FromOption(DecodeInt(c)).Map(x => Int(x))
    else if code == 'f' then FromOption(DecodeFloat(c)).Map(x => Float(x))
    else if code == 'Z' then FromOption(DecodeText(c)).Map(x => Z(x))
    else if code == 'J' then FromOption(DecodeText(c)).Map(x => J(x))
    else if code == 'H' then FromOption(DecodeHex(c)).Map(x => H(x))
    else if |c| == 0 then Panic(EmptyArrayValue)
    else Ok(DecodeArray(c))
  }

  /** `DecodeValue` for a hex field, stated on its own. */
  lemma DecodeValueHex(c: bytes)
    ensures DecodeHex(c).Some? ==> DecodeValue('H', c) == Ok(H(DecodeHex(c).value))
  {
  }

  /** `DecodeValue` for a string field, stated on its own. */
  lemma DecodeValueText(c: bytes)
    ensures DecodeText(c).Some? ==> DecodeValue('Z', c) == Ok(Z(DecodeText(c).value))
  {
  }

  /** `DecodeValue` for a character field, stated on its own. */
  lemma DecodeValueChar(c: bytes)
    ensures DecodeChar(c).Some? ==> DecodeValue('A', c) == Ok(A(DecodeChar(c).value))
  {
  }

  // ---------------------------------------------------------------------------
  // Parsing a whole field

  /** `OptField::parse`: `None` when the input is too short to hold a tag, a type
      letter and the value position, or when the type letter is unknown; bytes 2
      and 4 are never looked at, and the value text starts at byte 5. The tag
      pattern is compiled but unused: the first two bytes go straight to
      `OptField::new`, which panics on an invalid tag once the value decoded. */
  function Parse(input: bytes): (r: Outcome<OptField>)
    ensures |input| < 5 || !IsTypeCode(input[3]) ==> r == Rejected
    ensures r.Ok? ==> TagBytes(r.value.tag) == input[..2] && TypeCode(r.value.value) == input[3]
    ensures r.Ok? ==> WellFormed(r.value)
    ensures r.Panic? ==> (r.reason == InvalidTag && !IsValidTag(input[..2]))
                         || (r.reason == EmptyArrayValue && input[3] == 'B' && |input| == 5)
    ensures |input| >= 5 && IsTypeCode(input[3]) && DecodeValue(input[3], input[5..]).Ok? ==>
              (r.Ok? <==> IsValidTag(input[..2]))
    ensures |input| >= 5 && IsTypeCode(input[3]) ==>
              match DecodeValue(input[3], input[5..])
              case Rejected => r == Rejected
              case Panic(why) => r == Panic(why)
              case Ok(v) => if IsValidTag(input[..2]) then r == Ok(OptField(Tag(input[0], input[1]), v))
                            else r == Panic(InvalidTag)
  {
    if |input| < 2 then Rejected
    else if |input| < 4 then Rejected
    else if !IsTypeCode(input[3]) then Rejected
    else if |input| < 5 then Rejected
    else
      var v :- DecodeValue(input[3], input[5..]);
      New(input[..2], v)
  }

  /** An array field whose first byte is not `f` holds exactly the comma-separated
      pieces that parse as `i64`, in order. */
  lemma IntArrayDecode(first: byte, parts: seq<bytes>)
    requires first != 'f' && |parts| > 0
    requires forall i :: 0 <= i < |parts| ==> COMMA !in parts[i]
    ensures DecodeValue('B', [first] + Join(parts, COMMA)) == Ok(BInt(FilterMap(parts, ParseI64)))
  {
    var c := [first] + Join(parts, COMMA);
    assert c[0] == first && c[1..] == Join(parts, COMMA);
    SplitJoin(parts, COMMA);
    assert DecodeArray(c) == BInt(FilterMap(parts, ParseI64));
    assert DecodeValue('B', c) == Ok(DecodeArray(c));
  }

  /** A field of type `H` whose value is a run of upper-case hex digits parses
      to one value per digit. */
  lemma ParseUpperHexField(t: bytes) returns (d: seq<u32>)
    requires |t| > 5 && t[3] == 'H' && IsValidTag(t[..2])
    requires forall i :: 5 <= i < |t| ==> IsUpperHex(t[i])
    ensures Parse(t) == Ok(OptField(Tag(t[0], t[1]), H(d)))
    ensures |d| == |t| - 5 && forall i :: 0 <= i < |d| ==> d[i] as int == HexValue(t[5 + i])
  {
    var c := t[5..];
    d := HexRunDecode(c);
    DecodeValueHex(c);
    ParseFromValue(t, H(d));
  }

  /** A string field whose value text is printable throughout keeps that text. */
  lemma ParseTextField(t: bytes)
    requires |t| > 5 && t[3] == 'Z' && IsValidTag(t[..2]) && AllPrintable(t[5..])
    ensures Parse(t) == Ok(OptField(Tag(t[0], t[1]), Z(t[5..])))
  {
    TextRoundTrip(t[5..]);
    DecodeValueText(t[5..]);
    ParseFromValue(t, Z(t[5..]));
  }

  /** A character field whose value is one visible byte keeps that byte. */
  lemma ParseCharField(t: bytes)
    requires |t| == 6 && t[3] == 'A' && IsValidTag(t[..2]) && IsVisible(t[5])
    ensures Parse(t) == Ok(OptField(Tag(t[0], t[1]), A(t[5])))
  {
    assert DecodeChar(t[5..]) == Some(t[5]) by {
      assert t[5..][0] == t[5];
    }
    DecodeValueChar(t[5..]);
    ParseFromValue(t, A(t[5]));
  }

  /** An integer-array field keeps the pieces that parse, in order. */
  lemma ParseIntArrayField(t: bytes, first: byte, parts: seq<bytes>)
    requires first != 'f' && |parts| > 0
    requires forall i :: 0 <= i < |parts| ==> COMMA !in parts[i]
    requires |t| >= 5 && t[3] == 'B' && IsValidTag(t[..2]) && t[5..] == [first] + Join(parts, COMMA)
    ensures Parse(t) == Ok(OptField(Tag(t[0], t[1]), BInt(FilterMap(parts, ParseI64))))
  {
    IntArrayDecode(first, parts);
    ParseFromValue(t, BInt(FilterMap(parts, ParseI64)));
  }

  /** A field with a valid tag, a known type letter and a value that decodes
      parses to that tag and value. */
  lemma ParseFromValue(t: bytes, v: OptFieldVal)
    requires |t| >= 5 && IsTypeCode(t[3]) && IsValidTag(t[..2])
    requires DecodeValue(t[3], t[5..]) == Ok(v)
    ensures Parse(t) == Ok(OptField(Tag(t[0], t[1]), v))
  {
  }

  /** Where the parser finds the tag, the type code and the value of `tag` followed by `rest`. */
  lemma TaggedParts(tag: Tag, rest: bytes)
    requires |rest| >= 3
    ensures var t := TagBytes(tag) + rest;
      |t| >= 5 && t[..2] == TagBytes(tag) && t[3] == rest[1] && t[5..] == rest[3..]
  {
    var t := TagBytes(tag) + rest;
    assert t[5..] == rest[3..];
  }

  /** The separator positions are not checked: any bytes there parse the same. */
  lemma SeparatorsUnchecked(input: bytes, x: byte, y: byte)
    requires |input| >= 5
    ensures Parse(input[2 := x][4 := y]) == Parse(input)
  {
    var other := input[2 := x][4 := y];
    assert other[..2] == input[..2];
    assert other[5..] == input[5..];
  }

  /** The `Option` view of `Parse` that the field stores use. */
  function Decoded(token: bytes): (r: Option<OptField>)
    ensures r.Some? <==> Parse(token).Ok?
    ensures r.Some? ==> r.value == Parse(token).value
  {
    Parse(token).ToOption()
  }

  // ---------------------------------------------------------------------------
  // Encoding (`Display for OptField`)

  /** Display indexes `x[0]` of an array value, so an empty array cannot be written. */
  predicate Encodable(f: OptField) {
    match f.value
    case BInt(x) => |x| > 0
    case BFloat(x) => |x| > 0
    case _ => true
  }

  /** The text after `TAG:`, with the hex letter case and the float-array marker
      as parameters: the source writes lower-case hex and `F`. */
  function EncodeValueWith(v: OptFieldVal, upperHex: bool, floatMarker: byte): (r: bytes)
    requires match v case BInt(x) => |x| > 0 case BFloat(x) => |x| > 0 case _ => true
    ensures |r| >= 2 && r[0] == TypeCode(v) && r[1] == ':'
  {
    match v
    case A(x) => "A:" + CharUtf8(x)
    case Int(x) => "i:" + ShowInt(x)
    case Float(x) => "f:" + x
    case Z(x) => "Z:" + x
    case J(x) => "J:" + x
    case H(x) => "H:" + HexText(x, upperHex)
    case BInt(x) => "B:I" + Join(MapSeq(x, (n: i64) => ShowInt(n)), COMMA)
    case BFloat(x) => "B:" + [floatMarker] + Join(x, COMMA)
  }

  function EncodeWith(f: OptField, upperHex: bool, floatMarker: byte): bytes
    requires Encodable(f)
  {
    CharUtf8(f.tag.first) + CharUtf8(f.tag.second) + ":" + EncodeValueWith(f.value, upperHex, floatMarker)
  }

  /** `Display for OptField` as written: lower-case `{:x}` hex digits and `B:F`. */
  function Encode(f: OptField): bytes
    requires Encodable(f)
  {
    EncodeWith(f, false, 'F')
  }

  /** The encoding the decoder expects: upper-case hex digits and `B:f`. */
  function EncodeIntended(f: OptField): bytes
    requires Encodable(f)
  {
    EncodeWith(f, true, 'f')
  }

  /** The value part of the round trip through the intended encoding. */
  lemma ValueRoundTrip(v: OptFieldVal)
    requires WellFormedValue(v) && !v.Float?
    requires match v case BInt(x) => |x| > 0 case BFloat(x) => |x| > 0 case _ => true
    ensures var e := EncodeValueWith(v, true, 'f');
      IsTypeCode(e[0]) && DecodeValue(e[0], e[2..]) == Ok(v)
  {
    var e := EncodeValueWith(v, true, 'f');
    match v
    case A(x) =>
      assert e[2..] == [x];
    case Int(x) =>
      assert e[2..] == ShowInt(x);
      IntValueRoundTrip(x);
    case Z(x) =>
      assert e[2..] == x;
      TextRoundTrip(x);
    case J(x) =>
      assert e[2..] == x;
      TextRoundTrip(x);
    case H(x) =>
      HexValueRoundTrip(x);
    case BInt(x) =>
      IntArrayRoundTrip(x);
    case BFloat(x) =>
      FloatArrayRoundTrip(x);
  }

  lemma IntValueRoundTrip(x: i64)
    ensures DecodeInt(ShowInt(x)) == Some(x)
  {
    var t := ShowInt(x);
    IntMatchWhole(t);
    assert t[0..|t|] == t;
    ShowParseI64(x);
  }

  lemma TextRoundTrip(x: bytes)
    requires |x| > 0 && AllPrintable(x)
    ensures DecodeText(x) == Some(x)
  {
    WholeRun(x, IsPrintable);
    assert x[0..|x|] == x;
  }

  lemma HexValueRoundTrip(x: seq<u32>)
    requires |x| > 0 && forall i :: 0 <= i < |x| ==> x[i] < 16
    ensures var e := EncodeValueWith(H(x), true, 'f'); DecodeValue('H', e[2..]) == Ok(H(x))
  {
    var e := EncodeValueWith(H(x), true, 'f');
    assert e[2..] == HexText(x, true);
    HexDigitsDecode(x);
  }

  lemma HexDigitsDecode(x: seq<u32>)
    requires |x| > 0 && forall i :: 0 <= i < |x| ==> x[i] < 16
    ensures DecodeValue('H', HexText(x, true)) == Ok(H(x))
  {
    HexTextDecodes(x);
    DecodeValueHex(HexText(x, true));
  }

  /** Upper-case digits written for single-digit values decode to those values. */
  lemma HexTextDecodes(x: seq<u32>)
    requires |x| > 0 && forall i :: 0 <= i < |x| ==> x[i] < 16
    ensures DecodeHex(HexText(x, true)) == Some(x)
  {
    HexTextDigits(x);
    DigitsDecode(HexText(x, true), x);
  }

  /** Upper-case digits decode to their values. */
  lemma DigitsDecode(c: bytes, x: seq<u32>)
    requires |c| == |x| > 0
    requires forall i :: 0 <= i < |c| ==> IsUpperHex(c[i]) && HexValue(c[i]) == x[i] as int
    ensures DecodeHex(c) == Some(x)
  {
    var d := HexRunDecode(c);
    SameDigitValues(c, d, x);
  }

  /** Two value lists that both give the digits' values are the same list. */
  lemma SameDigitValues(c: bytes, d: seq<u32>, x: seq<u32>)
    requires |d| == |c| == |x| && forall i :: 0 <= i < |c| ==> IsUpperHex(c[i])
    requires forall i :: 0 <= i < |c| ==> d[i] as int == HexValue(c[i])
    requires forall i :: 0 <= i < |c| ==> HexValue(c[i]) == x[i] as int
    ensures d == x
  {
    forall i | 0 <= i < |x|
      ensures d[i] == x[i]
    {
      assert d[i] as int == x[i] as int;
    }
  }

  /** A run of upper-case hex digits decodes whole, one value per digit. */
  lemma HexRunDecode(c: bytes) returns (d: seq<u32>)
    requires |c| > 0 && forall i :: 0 <= i < |c| ==> IsUpperHex(c[i])
    ensures DecodeHex(c) == Some(d)
    ensures |d| == |c| && forall i :: 0 <= i < |c| ==> d[i] as int == HexValue(c[i])
  {
    WholeRun(c, IsUpperHex);
    assert c[0..|c|] == c;
    d := seq(|c|, i requires 0 <= i < |c| => HexValue(c[i]) as u32);
  }

  /** The digits of every element in turn, as the `{:x}` loop writes them. */
  function HexText(x: seq<u32>, upper: bool): bytes {
    Flatten(MapSeq(x, (n: u32) => ShowHex(n, upper)))
  }

  /** Single-digit values are written one upper-case digit each. */
  lemma HexTextDigits(x: seq<u32>)
    requires forall i :: 0 <= i < |x| ==> x[i] < 16
    ensures |HexText(x, true)| == |x|
    ensures forall i :: 0 <= i < |x| ==> IsUpperHex(HexText(x, true)[i]) && HexValue(HexText(x, true)[i]) == x[i] as int
  {
    var parts := MapSeq(x, (n: u32) => ShowHex(n, true));
    FlattenSingletons(parts);
  }

  lemma IntArrayRoundTrip(x: seq<i64>)
    requires |x| > 0
    ensures var e := EncodeValueWith(BInt(x), true, 'f'); DecodeValue('B', e[2..]) == Ok(BInt(x))
  {
    var e := EncodeValueWith(BInt(x), true, 'f');
    var parts := MapSeq(x, (n: i64) => ShowInt(n));
    assert e[2..] == ['I'] + Join(parts, COMMA);
    ShownIntsParse(x);
    IntArrayDecode('I', parts);
  }

  /** Integers written in decimal contain no comma and parse back one for one. */
  lemma ShownIntsParse(x: seq<i64>)
    ensures var parts := MapSeq(x, (n: i64) => ShowInt(n));
      (forall i :: 0 <= i < |parts| ==> COMMA !in parts[i]) && FilterMap(parts, ParseI64) == x
  {
    var parts := MapSeq(x, (n: i64) => ShowInt(n));
    forall i | 0 <= i < |parts|
      ensures COMMA !in parts[i] && ParseI64(parts[i]) == Some(x[i])
    {
      IntLiteralHasNoComma(parts[i]);
      ShowParseI64(x[i]);
    }
    FilterMapAllSome(parts, ParseI64);
  }

  lemma FloatArrayRoundTrip(x: seq<bytes>)
    requires |x| > 0 && forall i :: 0 <= i < |x| ==> IsF32Literal(x[i])
    ensures var e := EncodeValueWith(BFloat(x), true, 'f'); DecodeValue('B', e[2..]) == Ok(BFloat(x))
  {
    var e := EncodeValueWith(BFloat(x), true, 'f');
    var c := e[2..];
    assert c == ['f'] + Join(x, COMMA);
    assert c[1..] == Join(x, COMMA);
    forall i | 0 <= i < |x|
      ensures COMMA !in x[i]
    {
      if COMMA in x[i] {
        CommaIsNotF32Literal(x[i]);
      }
    }
    SplitJoin(x, COMMA);
    FilterMapAllSome(x, ParseF32);
    assert FilterMap(x, ParseF32) == x;
  }

  /** A plain decimal `a.b`, with digits on the right of the dot, is read
      whole as a float value. */
  lemma DecimalDecodes(a: bytes, b: bytes)
    requires |b| > 0 && AllDigits(a) && AllDigits(b)
    ensures DecodeFloat(a + ['.'] + b) == Some(a + ['.'] + b)
  {
    var t: bytes := a + ['.'] + b;
    DecimalMantissa(a, b);
    FloatMatchFromStart(t);
    assert FloatMatch(t) == Some(Span(0, |t|));
    assert t[0..|t|] == t;
  }

  /** The mantissa of `a.b` is all of it. */
  lemma DecimalMantissa(a: bytes, b: bytes)
    requires |b| > 0 && AllDigits(a) && AllDigits(b)
    ensures var t := a + ['.'] + b; MantissaAt(t, 0) && !IsSign(t[0]) && MantissaEnd(t, 0) == |t|
  {
    var t: bytes := a + ['.'] + b;
    var n := |a|;
    assert t[n] == '.' && IsDigit(t[n + 1]);
    assert forall k :: 0 <= k < n ==> t[k] == a[k];
    assert forall k :: n < k < |t| ==> t[k] == b[k - n - 1];
    assert MantissaAt(t, 0) by {
      if n > 0 {
        assert IsDigit(t[0]);
      }
    }
    var d := SkipWhile(t, 0, IsDigit);
    assert d == n;
    assert SkipWhile(t, n + 1, IsDigit) == |t|;
  }

  /** A float match that can begin at the first byte, with no sign there, is
      the mantissa from that byte and the exponent after it. */
  lemma FloatMatchFromStart(t: bytes)
    requires MantissaAt(t, 0) && !IsSign(t[0])
    ensures FloatMatch(t) == Some(Span(0, ExponentEnd(t, MantissaEnd(t, 0))))
  {
    assert FloatStartsAt(t, 0);
  }

  /** An integer literal on its own is matched whole. */
  lemma IntMatchWhole(t: bytes)
    requires IsIntLiteral(t)
    ensures IntMatch(t) == Some(Span(0, |t|))
  {
    assert IntStartsAt(t, 0) by {
      if IsSign(t[0]) {
        assert t[1..][0] == t[1];
      }
    }
  }

  /** A non-empty run of one class is its own leftmost match. */
  lemma WholeRun(s: bytes, p: byte -> bool)
    requires |s| > 0 && forall k :: 0 <= k < |s| ==> p(s[k])
    ensures LeftmostRun(s, p, p) == Some(Span(0, |s|))
  {
  }

  /** Round trip through the intended encoding, for every well-formed value but
      a float, whose display goes through `f32` formatting. */
  lemma IntendedRoundTrip(f: OptField)
    requires WellFormed(f) && Encodable(f) && !f.value.Float?
    ensures Parse(EncodeIntended(f)) == Ok(f)
  {
    var ve := EncodeValueWith(f.value, true, 'f');
    var e := EncodeIntended(f);
    assert e == [f.tag.first, f.tag.second, ':'] + ve;
    assert e[..2] == TagBytes(f.tag);
    assert e[3] == ve[0];
    assert e[5..] == ve[2..];
    ValueRoundTrip(f.value);
    ParseFromValue(e, f.value);
  }

  /** Round trip through the encoding as written, for the variants it writes the
      way the decoder reads: characters, integers, strings, JSON and integer arrays. */
  lemma RoundTrip(f: OptField)
    requires WellFormed(f) && Encodable(f)
    requires f.value.A? || f.value.Int? || f.value.Z? || f.value.J? || f.value.BInt?
    ensures Parse(Encode(f)) == Ok(f)
  {
    assert Encode(f) == EncodeIntended(f);
    IntendedRoundTrip(f);
  }

  /** A hex value written as written does not read back: `{:x}` writes `a`, and
      the decoder only accepts upper-case digits. */
  lemma HexRoundTripFails()
    ensures var f := OptField(Tag('S', 'H'), H([10]));
      WellFormed(f) && Encode(f) == "SH:H:a" && Parse(Encode(f)) == Rejected
  {
    var f := OptField(Tag('S', 'H'), H([10]));
    assert MapSeq([10 as u32], (n: u32) => ShowHex(n, false)) == ["a"];
    assert Encode(f) == "SH:H:a";
    assert "SH:H:a"[5..] == "a";
    assert !IsUpperHex("a"[0]);
  }

  /** A float array written as written reads back as an empty integer array:
      the encoder writes `B:F` and the decoder tests for `f`. */
  lemma FloatArrayRoundTripFails(tag: Tag)
    requires IsValidTag(TagBytes(tag))
    ensures var f := OptField(tag, BFloat(["1.5"]));
      WellFormed(f) && Encode(f) == TagBytes(tag) + ":B:F1.5"
      && Parse(Encode(f)) == Ok(OptField(tag, BInt([])))
  {
    var f := OptField(tag, BFloat(["1.5"]));
    OneAndAHalfIsF32();
    var t := Encode(f);
    EncodedFloatArray(tag);
    TaggedParts(tag, ":B:F1.5");
    assert t[5..] == "F1.5";
    OneAndAHalfIsNoInt();
    IntArrayDecode('F', ["1.5"]);
    ParseFromValue(t, BInt([]));
  }

  lemma OneAndAHalfIsF32()
    ensures IsF32Literal("1.5")
  {
    assert IsAccepting(FloatRun(Start, "1.5"));
  }

  /** The float array `[1.5]` as `Display` writes it. */
  lemma EncodedFloatArray(tag: Tag)
    requires IsValidTag(TagBytes(tag))
    ensures Encode(OptField(tag, BFloat(["1.5"]))) == TagBytes(tag) + ":B:F1.5"
  {
  }

  /** `1.5` is not an integer literal, so an integer array drops it. */
  lemma OneAndAHalfIsNoInt()
    ensures ['F'] + Join(["1.5"], COMMA) == "F1.5"
    ensures COMMA !in "1.5" && FilterMap<bytes, i64>(["1.5"], ParseI64) == []
  {
    var t: bytes := "1.5";
    assert !IsDigit(t[1]);
    assert ParseI64(t).None?;
    assert FilterMap<bytes, i64>([t], ParseI64) == FilterMap<bytes, i64>([], ParseI64);
  }

  /** The parser accepts an array with no elements, which `Display` cannot write. */
  lemma EmptyArrayNotEncodable()
    ensures Parse("XY:B:I") == Ok(OptField(Tag('X', 'Y'), BInt([])))
    ensures !Encodable(OptField(Tag('X', 'Y'), BInt([])))
  {
    var c := "XY:B:I"[5..];
    assert c == "I" && c[1..] == [];
  }

  // ---------------------------------------------------------------------------
  // Field stores (the `OptFields` trait)

  /** An `OptFields` implementation: how it builds itself from the remaining
      tokens of a line, and how it answers `get_field` and `fields`. */
  datatype Store<!F> = Store(
    parse: seq<bytes> -> Outcome<F>,
    getField: (F, bytes) -> Option<OptField>,
    fields: F -> seq<OptField>)

  /** `impl OptFields for ()`: keeps nothing and looks at nothing. */
  function UnitStore(): Store<()> {
    Store(_ => Ok(()), (_, _) => None, _ => [])
  }

  /** `impl OptFields for Vec<OptField>`. */
  function VecStore(): Store<seq<OptField>> {
    Store(ParseFieldVec, GetField, (fs: seq<OptField>) => fs)
  }

  /** The unit store ignores its input and never holds a field. */
  lemma UnitStoreIsEmpty(tokens: seq<bytes>, tag: bytes)
    ensures UnitStore().parse(tokens) == Ok(())
    ensures UnitStore().getField((), tag) == None
    ensures UnitStore().fields(()) == []
  {
  }

  /** `Vec::parse`: every token that decodes is kept, in input order, and every
      other token is dropped; a token whose decoding panics ends the whole parse. */
  function ParseFieldVec(tokens: seq<bytes>): (r: Outcome<seq<OptField>>)
    ensures !r.Rejected?
    ensures r.Ok? <==> forall i :: 0 <= i < |tokens| ==> !Parse(tokens[i]).Panic?
    ensures r.Ok? ==> r.value == FilterMap(tokens, Decoded)
    ensures r.Panic? ==> exists i :: 0 <= i < |tokens| && Parse(tokens[i]) == Panic(r.reason)
                          && forall j :: 0 <= j < i ==> !Parse(tokens[j]).Panic?
  {
    var r := FilterMapOutcome(tokens, Parse);
    if r.Ok? then
      FilterMapOutcomeOk(tokens, Parse, Decoded);
      r
    else r
  }

  /** When every token decodes, the vector holds every decoded field, in order. */
  lemma ParseFieldVecAllDecoded(tokens: seq<bytes>, fields: seq<OptField>)
    requires |tokens| == |fields|
    requires forall i :: 0 <= i < |tokens| ==> Parse(tokens[i]) == Ok(fields[i])
    ensures ParseFieldVec(tokens) == Ok(fields)
  {
    FilterMapAllSome(tokens, Decoded);
    assert FilterMap(tokens, Decoded) == fields;
  }

  /** A malformed token never costs the other tokens their fields. */
  lemma ParseFieldVecDropsMalformed(before: seq<bytes>, bad: bytes, after: seq<bytes>)
    requires Parse(bad).Rejected?
    ensures ParseFieldVec(before + [bad] + after) == ParseFieldVec(before + after)
  {
    FilterMapOutcomeDrops(before, bad, after, Parse);
  }

  /** `Vec::get_field`: the first stored field whose tag equals `tag`. */
  function GetField(fields: seq<OptField>, tag: bytes): (r: Option<OptField>)
    ensures r.None? <==> forall i :: 0 <= i < |fields| ==> TagBytes(fields[i].tag) != tag
    ensures r.Some? ==> exists i :: 0 <= i < |fields| && fields[i] == r.value
                          && TagBytes(fields[i].tag) == tag
                          && forall j :: 0 <= j < i ==> TagBytes(fields[j].tag) != tag
  {
    var i := SkipUntil(fields, 0, (f: OptField) => TagBytes(f.tag) == tag);
    if i == |fields| then None else Some(fields[i])
  }
}
