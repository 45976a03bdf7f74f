/** Integer and float text as Rust's `FromStr` and `Display` read and write it. */
module Numbers {
  import opened Wrappers
  import opened Bytes

  const I64_MIN: int := -0x8000_0000_0000_0000
  const I64_MAX: int := 0x7FFF_FFFF_FFFF_FFFF
  const USIZE_MAX: int := 0xFFFF_FFFF_FFFF_FFFF

  /** Rust's `i64`. */
  type i64 = x: int | I64_MIN <= x <= I64_MAX

  /** Rust's `u32`. */
  type u32 = n: int | 0 <= n < 0x1_0000_0000

  /** Rust's `usize` on a 64-bit target. */
  type usize = n: int | 0 <= n <= USIZE_MAX

  function DigitValue(c: byte): (d: nat)
    requires IsDigit(c)
    ensures d < 10
  {
    c as int - '0' as int
  }

  function DigitChar(d: nat): (c: byte)
    requires d < 10
    ensures IsDigit(c) && DigitValue(c) == d
  {
    (d + '0' as int) as char
  }

  /** The number a run of decimal digits denotes. */
  function DecimalValue(ds: bytes): nat
    requires AllDigits(ds)
    decreases |ds|
  {
    if |ds| == 0 then 0 else 10 * DecimalValue(ds[..|ds| - 1]) + DigitValue(ds[|ds| - 1])
  }

  function Signed(negative: bool, n: nat): int {
    if negative then -(n as int) else n as int
  }

  /** `[-+]?[0-9]+` matched against the whole of `t`. */
  predicate IsIntLiteral(t: bytes) {
    |t| > 0 && if IsSign(t[0]) then |t| > 1 && AllDigits(t[1..]) else AllDigits(t)
  }

  /** The value of an integer literal. */
  function IntLiteralValue(t: bytes): int
    requires IsIntLiteral(t)
  {
    if IsSign(t[0]) then Signed(t[0] == '-', DecimalValue(t[1..])) else DecimalValue(t)
  }

  /** Rust's `Display` of a non-negative integer: decimal digits, no leading zero. */
  function ShowNat(n: nat): (r: bytes)
    ensures |r| > 0 && AllDigits(r)
    ensures DecimalValue(r) == n
    ensures |r| > 1 ==> r[0] != '0'
    decreases n
  {
    if n < 10 then [DigitChar(n)]
    else
      var r := ShowNat(n / 10) + [DigitChar(n % 10)];
      assert r[..|r| - 1] == ShowNat(n / 10);
      r
  }

  /** Rust's `Display` of a signed integer: a minus sign for negative values, never a plus. */
  function ShowInt(x: int): (r: bytes)
    ensures IsIntLiteral(r) && IntLiteralValue(r) == x
    ensures r[0] != '+'
  {
    if x < 0 then
      var r := ['-'] + ShowNat(-x);
      assert r[1..] == ShowNat(-x);
      r
    else ShowNat(x)
  }

  /** The digit loop of Rust's `from_str_radix`: digits from index `k` on are folded
      into `acc`, subtracting for a negative number, and the parse fails at the
      first non-digit or at the first step that leaves `min..=max`. */
  function Accumulate(ds: bytes, k: nat, acc: int, negative: bool, min: int, max: int): Option<int>
    requires k <= |ds|
    decreases |ds| - k
  {
    if k == |ds| then Some(acc)
    else if !IsDigit(ds[k]) then None
    else
      var next := if negative then 10 * acc - DigitValue(ds[k]) else 10 * acc + DigitValue(ds[k]);
      if next < min || max < next then None else Accumulate(ds, k + 1, next, negative, min, max)
  }

  /** A prefix of a digit run never denotes more than the whole run. */
  lemma {:induction false} DecimalPrefixBound(ds: bytes, k: nat)
    requires AllDigits(ds) && k <= |ds|
    ensures DecimalValue(ds[..k]) <= DecimalValue(ds)
    decreases |ds|
  {
    if k < |ds| {
      var init := ds[..|ds| - 1];
      assert init[..k] == ds[..k];
      DecimalPrefixBound(init, k);
    } else {
      assert ds[..k] == ds;
    }
  }

  /** Failing early on an overflowing prefix gives the same answer as checking the whole value. */
  lemma {:induction false} AccumulateValue(ds: bytes, k: nat, acc: int, negative: bool, min: int, max: int)
    requires k <= |ds| && AllDigits(ds[..k])
    requires acc == Signed(negative, DecimalValue(ds[..k]))
    requires min <= acc <= max
    ensures Accumulate(ds, k, acc, negative, min, max).Some? <==>
              AllDigits(ds) && min <= Signed(negative, DecimalValue(ds)) <= max
    ensures Accumulate(ds, k, acc, negative, min, max).Some? ==>
              Accumulate(ds, k, acc, negative, min, max).value == Signed(negative, DecimalValue(ds))
    decreases |ds| - k
  {
    if k == |ds| {
      assert ds[..k] == ds;
    } else if IsDigit(ds[k]) {
      var pre := ds[..k + 1];
      assert pre[..k] == ds[..k];
      assert AllDigits(pre);
      var next := Signed(negative, DecimalValue(pre));
      if next < min || max < next {
        if AllDigits(ds) {
          DecimalPrefixBound(ds, k + 1);
        }
      } else {
        AccumulateValue(ds, k + 1, next, negative, min, max);
      }
    }
  }

  /** Rust's `str::parse` for an integer type with range `min..=max`: an optional
      `+` (or `-` when `signed`), at least one digit, nothing else, and a value in range. */
  function ParseInteger(t: bytes, signed: bool, min: int, max: int): (r: Option<int>)
    requires min <= 0 <= max
    ensures r.Some? <==> IsIntLiteral(t) && (signed || t[0] != '-') && min <= IntLiteralValue(t) <= max
    ensures r.Some? ==> r.value == IntLiteralValue(t)
  {
    if |t| == 0 then None
    else
      var negative := signed && t[0] == '-';
      var ds := if t[0] == '+' || negative then t[1..] else t;
      if |ds| == 0 then None
      else
        assert ds[..0] == [];
        AccumulateValue(ds, 0, 0, negative, min, max);
        Accumulate(ds, 0, 0, negative, min, max)
  }

  /** Rust's `str::parse::<i64>`. */
  function ParseI64(t: bytes): (r: Option<i64>)
    ensures r.Some? <==> IsIntLiteral(t) && I64_MIN <= IntLiteralValue(t) <= I64_MAX
    ensures r.Some? ==> r.value == IntLiteralValue(t)
  {
    match ParseInteger(t, true, I64_MIN, I64_MAX)
    case Some(x) => Some(x)
    case None => None
  }

  /** Rust's `str::parse::<usize>`: a leading `-` is an invalid digit. */
  function ParseUsize(t: bytes): (r: Option<usize>)
    ensures r.Some? <==> IsIntLiteral(t) && t[0] != '-' && IntLiteralValue(t) <= USIZE_MAX
    ensures r.Some? ==> r.value == IntLiteralValue(t)
  {
    match ParseInteger(t, false, 0, USIZE_MAX)
    case Some(x) => Some(x)
    case None => None
  }

  /** Every `i64` survives a trip through `Display` and `str::parse`. */
  lemma ShowParseI64(x: i64)
    ensures ParseI64(ShowInt(x)) == Some(x)
  {
  }

  /** An integer literal never contains a comma. */
  lemma IntLiteralHasNoComma(t: bytes)
    requires IsIntLiteral(t)
    ensures COMMA !in t
  {
    forall i | 0 <= i < |t|
      ensures t[i] != COMMA
    {
      if i > 0 && IsSign(t[0]) {
        assert t[1..][i - 1] == t[i];
      }
    }
  }

  /** `char::to_digit(16)` on an upper-case hexadecimal digit. */
  function HexValue(c: byte): (d: nat)
    requires IsUpperHex(c)
    ensures d < 16
  {
    if IsDigit(c) then DigitValue(c) else c as int - 'A' as int + 10
  }

  function HexChar(d: nat, upper: bool): (c: byte)
    requires d < 16
    ensures upper ==> IsUpperHex(c) && HexValue(c) == d
    ensures !upper && d >= 10 ==> 'a' <= c <= 'f'
  {
    if d < 10 then DigitChar(d)
    else if upper then (d - 10 + 'A' as int) as char
    else (d - 10 + 'a' as int) as char
  }

  /** Rust's `{:x}` (lower case) or `{:X}` (upper case) of a non-negative integer. */
  function ShowHex(n: nat, upper: bool): (r: bytes)
    ensures |r| > 0
    ensures n < 16 ==> |r| == 1 && r[0] == HexChar(n, upper)
    ensures upper ==> forall i :: 0 <= i < |r| ==> IsUpperHex(r[i])
    decreases n
  {
    if n < 16 then [HexChar(n, upper)] else ShowHex(n / 16, upper) + [HexChar(n % 16, upper)]
  }

  /** States of a recognizer for the decimal part of Rust's `f32` literal grammar,
      `( Digit+ | Digit+ '.' Digit* | Digit* '.' Digit+ ) ( [eE] Sign? Digit+ )?`. */
  datatype FloatState = Start | IntDigits | LoneDot | FracDigits | ExpMark | ExpSign | ExpDigits | Dead

  predicate IsExpMark(c: byte) {
    c == 'e' || c == 'E'
  }

  function FloatStep(st: FloatState, c: byte): FloatState {
    match st
    case Start => if IsDigit(c) then IntDigits else if c == '.' then LoneDot else Dead
    case IntDigits =>
      if IsDigit(c) then IntDigits else if c == '.' then FracDigits
      else if IsExpMark(c) then ExpMark else Dead
    case LoneDot => if IsDigit(c) then FracDigits else Dead
    case FracDigits => if IsDigit(c) then FracDigits else if IsExpMark(c) then ExpMark else Dead
    case ExpMark => if IsSign(c) then ExpSign else if IsDigit(c) then ExpDigits else Dead
    case ExpSign => if IsDigit(c) then ExpDigits else Dead
    case ExpDigits => if IsDigit(c) then ExpDigits else Dead
    case Dead => Dead
  }

  function FloatRun(st: FloatState, s: bytes): FloatState
    decreases |s|
  {
    if |s| == 0 then st else FloatRun(FloatStep(st, s[0]), s[1..])
  }

  predicate IsAccepting(st: FloatState) {
    st == IntDigits || st == FracDigits || st == ExpDigits
  }

  function ToLower(c: byte): byte {
    if 'A' <= c <= 'Z' then (c as int + 32) as char else c
  }

  /** `inf`, `infinity` or `nan`, in any letter case. */
  predicate IsInfNan(u: bytes) {
    var lower := seq(|u|, i requires 0 <= i < |u| => ToLower(u[i]));
    lower == "inf" || lower == "infinity" || lower == "nan"
  }

  /** What Rust's `str::parse::<f32>` accepts: an optional sign, then either a
      special value or a decimal number with an optional exponent. */
  predicate IsF32Literal(t: bytes) {
    var u := if |t| > 0 && IsSign(t[0]) then t[1..] else t;
    IsInfNan(u) || IsAccepting(FloatRun(Start, u))
  }

  /** Rust's `str::parse::<f32>().ok()`, keeping the accepted text as the value. */
  function ParseF32(t: bytes): (r: Option<bytes>)
    ensures r.Some? <==> IsF32Literal(t)
    ensures r.Some? ==> r.value == t
  {
    if IsF32Literal(t) then Some(t) else None
  }

  lemma {:induction false} FloatRunAppend(st: FloatState, a: bytes, b: bytes)
    ensures FloatRun(st, a + b) == FloatRun(FloatRun(st, a), b)
    decreases |a|
  {
    if |a| == 0 {
      assert a + b == b;
    } else {
      FloatRunAppend(FloatStep(st, a[0]), a[1..], b);
      assert (a + b)[1..] == a[1..] + b;
    }
  }

  /** Digits keep the recognizer in an accepting digit state. */
  lemma {:induction false} FloatRunDigits(st: FloatState, ds: bytes)
    requires st == IntDigits || st == FracDigits || st == ExpDigits
    requires AllDigits(ds)
    ensures FloatRun(st, ds) == st
    decreases |ds|
  {
    if |ds| > 0 {
      FloatRunDigits(st, ds[1..]);
    }
  }

  /** A comma drives the recognizer into its dead state for good. */
  lemma {:induction false} FloatRunComma(st: FloatState, s: bytes)
    requires COMMA in s
    ensures FloatRun(st, s) == Dead
    decreases |s|
  {
    if s[0] == COMMA {
      FloatRunDead(s[1..]);
    } else {
      FloatRunComma(FloatStep(st, s[0]), s[1..]);
    }
  }

  lemma {:induction false} FloatRunDead(s: bytes)
    ensures FloatRun(Dead, s) == Dead
    decreases |s|
  {
    if |s| > 0 {
      FloatRunDead(s[1..]);
    }
  }

  /** A float literal never contains a comma, so comma-joined literals split back apart. */
  lemma CommaIsNotF32Literal(t: bytes)
    requires COMMA in t
    ensures !IsF32Literal(t)
  {
    var u := if |t| > 0 && IsSign(t[0]) then t[1..] else t;
    var i :| 0 <= i < |t| && t[i] == COMMA;
    if u != t {
      assert u[i - 1] == COMMA;
    }
    FloatRunComma(Start, u);
    var lower := seq(|u|, k requires 0 <= k < |u| => ToLower(u[k]));
    var j :| 0 <= j < |u| && u[j] == COMMA;
    assert lower[j] == COMMA;
  }
}
