/** JavaScript values as they reach the product pipeline (JSON bodies, push
    payloads, form fields), and the coercions the pipeline applies to them:
    `Number(x)`, `parseInt(x, 10)`, truthiness, `x == null`, `x ?? d`, `===`.
    Arrays never occur inside a record in this model; response bodies that may
    be arrays are a separate type where they are read. */
module JsValues {

  /** An IEEE double, seen only through what the pipeline does with it:
      finite values are exact reals, plus the two infinities and NaN. */
  datatype JsNumber = Finite(value: real) | PosInfinity | NegInfinity | NaN

  datatype JsValue =
    | Undefined
    | Null
    | Bool(b: bool)
    | Num(n: JsNumber)
    | Str(s: string)
    | Object(fields: map<string, JsValue>)

  /** `v == null`: loose equality with null holds for exactly null and undefined. */
  predicate IsNullish(v: JsValue) {
    v.Undefined? || v.Null?
  }

  /** `v ?? fallback` */
  function Coalesce(v: JsValue, fallback: JsValue): JsValue {
    if IsNullish(v) then fallback else v
  }

  /** `!!v` / `Boolean(v)` / `filter(Boolean)` */
  predicate Truthy(v: JsValue) {
    match v
    case Undefined => false
    case Null => false
    case Bool(b) => b
    case Num(n) => !(n.NaN? || n == Finite(0.0))
    case Str(s) => s != ""
    case Object(_) => true
  }

  /** `v[key]` and `v?.[key]` for the record keys the pipeline reads: an
      object's own property, and `undefined` for every primitive (and for null
      or undefined under optional chaining). */
  function Get(v: JsValue, key: string): JsValue {
    if v.Object? && key in v.fields then v.fields[key] else Undefined
  }

  /** `{...v}`: the own enumerable properties of a plain object; a number,
      boolean, null or undefined spreads to nothing. */
  function Spread(v: JsValue): map<string, JsValue> {
    if v.Object? then v.fields else map[]
  }

  /** `Number.isFinite(n)` */
  predicate IsFinite(n: JsNumber) {
    n.Finite?
  }

  /** `a === b` on two numbers: NaN equals nothing, not even itself. */
  predicate NumEq(a: JsNumber, b: JsNumber) {
    a == b && !a.NaN?
  }

  /** `a === b`. Two object values are never identical here: every object the
      pipeline compares comes from a separate JSON parse or literal. */
  predicate StrictEq(a: JsValue, b: JsValue) {
    match (a, b)
    case (Undefined, Undefined) => true
    case (Null, Null) => true
    case (Bool(x), Bool(y)) => x == y
    case (Num(x), Num(y)) => NumEq(x, y)
    case (Str(x), Str(y)) => x == y
    case _ => false
  }

  /** `a > b` on numbers, which is also "the comparator `a - b` is positive". */
  predicate Greater(a: JsNumber, b: JsNumber) {
    match (a, b)
    case (Finite(x), Finite(y)) => x > y
    case (PosInfinity, Finite(_)) => true
    case (PosInfinity, NegInfinity) => true
    case (Finite(_), NegInfinity) => true
    case _ => false
  }

  lemma GreaterIsStrictOrder(a: JsNumber, b: JsNumber, c: JsNumber)
    ensures Greater(a, b) ==> !Greater(b, a)
    ensures Greater(a, b) && Greater(b, c) ==> Greater(a, c)
    ensures a != b && !a.NaN? && !b.NaN? ==> Greater(a, b) || Greater(b, a)
  {
  }

  function Negate(n: JsNumber): JsNumber {
    match n
    case Finite(x) => Finite(-x)
    case PosInfinity => NegInfinity
    case NegInfinity => PosInfinity
    case NaN => NaN
  }

  /** `Number(v)` */
  function ToNumber(v: JsValue): JsNumber {
    match v
    case Undefined => NaN
    case Null => Finite(0.0)
    case Bool(b) => Finite(if b then 1.0 else 0.0)
    case Num(n) => n
    case Str(s) => StringToNumber(s)
    case Object(_) => NaN
  }

  // ---------------------------------------------------------------- strings

  /** The white-space and line-terminator characters that `Number` and
      `parseInt` skip: the ASCII ones, no-break space, the byte-order mark,
      the line and paragraph separators, and the Unicode space separators. */
  predicate IsWhiteSpace(c: char) {
    c == ' ' || c == '\t' || c == '\n' || c == '\r' || c as int == 0x0B || c as int == 0x0C
    || c as int == 0xA0 || c as int == 0xFEFF || c as int == 0x2028 || c as int == 0x2029
    || c as int == 0x1680 || 0x2000 <= c as int <= 0x200A
    || c as int == 0x202F || c as int == 0x205F || c as int == 0x3000
  }

  predicate IsDigit(c: char) {
    '0' <= c <= '9'
  }

  predicate AllDigits(s: string) {
    forall i :: 0 <= i < |s| ==> IsDigit(s[i])
  }

  function TrimStart(s: string): (r: string)
    ensures |r| <= |s|
    ensures r == s[|s| - |r|..]
    ensures r != [] ==> !IsWhiteSpace(r[0])
  {
    if s != [] && IsWhiteSpace(s[0]) then TrimStart(s[1..]) else s
  }

  function TrimEnd(s: string): (r: string)
    ensures |r| <= |s|
    ensures r == s[..|r|]
    ensures r != [] ==> !IsWhiteSpace(r[|r| - 1])
  {
    if s != [] && IsWhiteSpace(s[|s| - 1]) then TrimEnd(s[..|s| - 1]) else s
  }

  function DigitsValue(s: string): nat
    requires AllDigits(s)
  {
    if s == [] then 0 else DigitsValue(s[..|s| - 1]) * 10 + (s[|s| - 1] as int - '0' as int)
  }

  function Pow10(n: nat): (r: nat)
    ensures r > 0
  {
    if n == 0 then 1 else 10 * Pow10(n - 1)
  }

  /** The longest prefix of `s` made of decimal digits. */
  function DigitPrefix(s: string): (r: string)
    ensures |r| <= |s|
    ensures r == s[..|r|] && AllDigits(r)
    ensures |r| < |s| ==> !IsDigit(s[|r|])
  {
    if s != [] && IsDigit(s[0]) then [s[0]] + DigitPrefix(s[1..]) else []
  }

  /** An unsigned decimal literal: `Infinity`, or digits with at most one
      decimal point and at least one digit. */
  function UnsignedDecimal(t: string): JsNumber {
    if t == "Infinity" then PosInfinity
    else
      var whole := DigitPrefix(t);
      var rest := t[|whole|..];
      if rest == [] then
        (if whole == [] then NaN else Finite(DigitsValue(whole) as real))
      else if rest[0] == '.' && AllDigits(rest[1..]) && |whole| + |rest| > 1 then
        var frac := rest[1..];
        Finite(DigitsValue(whole) as real + DigitsValue(frac) as real / Pow10(|frac|) as real)
      else NaN
  }

  /** `Number(s)` for a string: surrounding white space is ignored, the empty
      string is 0, and a signed decimal literal or `Infinity` is its value;
      anything else is NaN. */
  function StringToNumber(s: string): JsNumber {
    TrimmedToNumber(TrimEnd(TrimStart(s)))
  }

  /** `Number` of text with no surrounding white space. */
  function TrimmedToNumber(t: string): JsNumber {
    if t == "" then Finite(0.0)
    else if t[0] == '-' then Negate(UnsignedDecimal(t[1..]))
    else if t[0] == '+' then UnsignedDecimal(t[1..])
    else UnsignedDecimal(t)
  }

  /** A white-space character before the text changes neither `Number` nor
      `parseInt`. */
  lemma NumberIgnoresLeadingSpace(c: char, s: string)
    requires IsWhiteSpace(c)
    ensures StringToNumber([c] + s) == StringToNumber(s)
    ensures ParseIntString([c] + s) == ParseIntString(s)
  {
    TrimStartSkipsSpace(c, s);
  }

  lemma TrimStartSkipsSpace(c: char, s: string)
    requires IsWhiteSpace(c)
    ensures TrimStart([c] + s) == TrimStart(s)
  {
    assert ([c] + s)[1..] == s;
  }

  /** A white-space character after the text does not change `Number`. */
  lemma NumberIgnoresTrailingSpace(s: string, c: char)
    requires IsWhiteSpace(c)
    ensures StringToNumber(s + [c]) == StringToNumber(s)
  {
    TrimStartAppendSpace(s, c);
    var t := TrimStart(s);
    if t != [] {
      TrimEndDropsSpace(t, c);
    }
  }

  lemma TrimEndDropsSpace(t: string, c: char)
    requires IsWhiteSpace(c)
    ensures TrimEnd(t + [c]) == TrimEnd(t)
  {
    assert (t + [c])[..|t|] == t;
  }

  lemma {:induction false} TrimStartAppendSpace(s: string, c: char)
    requires IsWhiteSpace(c)
    ensures TrimStart(s + [c]) == (if TrimStart(s) == [] then [] else TrimStart(s) + [c])
  {
    if s == [] {
      TrimStartOfSpace(c);
    } else if IsWhiteSpace(s[0]) {
      TrimStartAppendSpace(s[1..], c);
      TrimStartSkipsFirst(s, c);
    } else {
      assert (s + [c])[0] == s[0];
    }
  }

  lemma TrimStartOfSpace(c: char)
    requires IsWhiteSpace(c)
    ensures TrimStart([c]) == []
  {
    assert TrimStart([c]) == TrimStart([c][1..]);
  }

  lemma TrimStartSkipsFirst(s: string, c: char)
    requires s != [] && IsWhiteSpace(s[0])
    ensures TrimStart(s + [c]) == TrimStart(s[1..] + [c])
    ensures TrimStart(s) == TrimStart(s[1..])
  {
    assert (s + [c])[0] == s[0];
    assert (s + [c])[1..] == s[1..] + [c];
  }

  /** `parseInt(s, 10)` for a string: leading white space, an optional sign,
      then the longest run of digits; NaN when there is no digit. */
  function ParseIntString(s: string): (r: JsNumber)
    ensures r.NaN? || (r.Finite? && r.value == r.value.Floor as real)
  {
    ParseIntTrimmed(TrimStart(s))
  }

  /** `parseInt` of text with no leading white space. */
  function ParseIntTrimmed(t: string): (r: JsNumber)
    ensures r.NaN? || (r.Finite? && r.value == r.value.Floor as real)
  {
    var negative := t != [] && t[0] == '-';
    var body := if t != [] && (t[0] == '-' || t[0] == '+') then t[1..] else t;
    var digits := DigitPrefix(body);
    if digits == [] then NaN
    else
      var magnitude: int := DigitsValue(digits);
      var k: int := if negative then -magnitude else magnitude;
      Finite(k as real)
  }

  /** Truncation toward zero, which is what `parseInt(String(x), 10)` gives for
      a finite number `String` writes without an exponent. */
  function Truncate(x: real): int {
    if x >= 0.0 then x.Floor else -((-x).Floor)
  }

  /** `String(x)` writes a finite non-zero `x` in exponent form (`1e+21`,
      `5e-7`) when its magnitude is at least 10^21 or below 10^-6. */
  const ExponentFormFrom: real := Pow10(21) as real
  const ExponentFormBelow: real := 0.000001

  predicate PlainForm(x: real) {
    x == 0.0 || (ExponentFormBelow <= x < ExponentFormFrom) || (ExponentFormBelow <= -x < ExponentFormFrom)
  }

  /** The first significant decimal digit of a magnitude of at least 1. */
  function LeadingDigitDown(y: real): (d: nat)
    requires y >= 1.0
    ensures 1 <= d <= 9
    ensures y < 10.0 ==> d == y.Floor
    decreases y.Floor
  {
    if y < 10.0 then y.Floor
    else
      assert (y / 10.0).Floor < y.Floor;
      LeadingDigitDown(y / 10.0)
  }

  /** The first significant decimal digit of a positive magnitude. */
  function LeadingDigit(y: real): (d: nat)
    requires y > 0.0
    ensures 1 <= d <= 9
    ensures 1.0 <= y < 10.0 ==> d == y.Floor
    decreases if y >= 1.0 then 0 else (1.0 / y).Floor
  {
    if y >= 1.0 then LeadingDigitDown(y)
    else
      ScaleUpShrinksReciprocal(y);
      LeadingDigit(y * 10.0)
  }

  lemma ScaleUpShrinksReciprocal(y: real)
    requires 0.0 < y < 1.0
    ensures y * 10.0 >= 1.0 || 0 <= (1.0 / (y * 10.0)).Floor < (1.0 / y).Floor
  {
    var w := 1.0 / y;
    assert w * y == 1.0;
    assert w > 1.0;
    if y * 10.0 < 1.0 {
      assert 1.0 / (y * 10.0) == w / 10.0;
      assert w >= 10.0;
    }
  }

  /** `parseInt(x, 10)` for a finite number: `String(x)` is parsed up to its
      first character that is not a digit, so a number in plain form is
      truncated, and one in exponent form gives its signed leading digit. */
  function ParseIntNumber(x: real): (k: int)
    ensures PlainForm(x) ==> k == Truncate(x)
    ensures !PlainForm(x) ==> 1 <= (if x < 0.0 then -k else k) <= 9
  {
    if PlainForm(x) then Truncate(x)
    else if x > 0.0 then LeadingDigit(x)
    else -(LeadingDigit(-x) as int)
  }

  /** `parseInt(v, 10)`: the argument is first converted to a string. null,
      undefined, booleans, objects, NaN and the infinities all print as words,
      which hold no leading digit. */
  function ParseInt(v: JsValue): (r: JsNumber)
    ensures r.NaN? || (r.Finite? && r.value == r.value.Floor as real)
  {
    match v
    case Str(s) => ParseIntString(s)
    case Num(Finite(x)) => Finite(ParseIntNumber(x) as real)
    case _ => NaN
  }

  /** Truncation leaves an integer where it is. */
  lemma TruncateInteger(k: int)
    ensures Truncate(k as real) == k
  {
    if k < 0 {
      assert (-(k as real)).Floor == -k;
    }
  }

  /** A whole number of magnitude below 10^21 is `parseInt` of itself; one of
      10^21 or more is written in exponent form and parses to its leading
      digit instead. */
  lemma ParseIntWholeNumber(k: int)
    ensures ParseInt(Num(Finite(k as real))) == Finite(k as real) <==>
      -ExponentFormFrom < k as real < ExponentFormFrom
  {
    var x := k as real;
    if PlainForm(x) {
      TruncateInteger(k);
    } else if k != 0 {
      assert x >= ExponentFormFrom || -x >= ExponentFormFrom;
    }
  }

  /** `parseInt(parseInt(v, 10), 10)` is `parseInt(v, 10)` exactly when the
      first result is NaN or a whole number below 10^21 in magnitude. */
  lemma ParseIntIdempotent(v: JsValue)
    ensures ParseInt(Num(ParseInt(v))) == ParseInt(v) <==>
      ParseInt(v).NaN? || -ExponentFormFrom < ParseInt(v).value < ExponentFormFrom
  {
    var r := ParseInt(v);
    if r.Finite? {
      ParseIntWholeNumber(r.value.Floor);
    }
  }

  /** "1" followed by `n` zeros, for `n` of 21 or more, parses to 10^n;
      parsing that number again gives 1. */
  lemma ParseIntTwiceOfHugeText(n: nat)
    requires n >= 21
    ensures ParseInt(Str("1" + Zeros(n))) == Finite(Pow10(n) as real)
    ensures ParseInt(Num(Finite(Pow10(n) as real))) == Finite(1.0)
  {
    ParseIntOneThenZeros(n);
    ParseIntOfHugePow10(n);
  }

  lemma ParseIntOneThenZeros(n: nat)
    ensures ParseIntString("1" + Zeros(n)) == Finite(Pow10(n) as real)
  {
    var t := "1" + Zeros(n);
    assert t[0] == '1' && !IsWhiteSpace(t[0]);
    assert TrimStart(t) == t;
    OneThenZerosValue(n);
    DigitPrefixOfDigits(t);
  }

  lemma ParseIntOfHugePow10(n: nat)
    requires n >= 21
    ensures ParseIntNumber(Pow10(n) as real) == 1
  {
    Pow10Grows(21, n);
    assert !PlainForm(Pow10(n) as real);
    LeadingDigitOfPow10(n);
  }

  /** `n` zero characters. */
  function Zeros(n: nat): (r: string)
    ensures |r| == n && AllDigits(r)
  {
    seq(n, _ => '0')
  }

  lemma {:induction false} DigitPrefixOfDigits(s: string)
    requires AllDigits(s)
    ensures DigitPrefix(s) == s
  {
    if s != [] {
      DigitPrefixOfDigits(s[1..]);
    }
  }

  lemma {:induction false} OneThenZerosValue(n: nat)
    ensures AllDigits("1" + Zeros(n)) && DigitsValue("1" + Zeros(n)) == Pow10(n)
  {
    if n > 0 {
      OneThenZerosValue(n - 1);
      var t := "1" + Zeros(n);
      assert t[..|t| - 1] == "1" + Zeros(n - 1);
    }
  }

  lemma {:induction false} Pow10Grows(m: nat, n: nat)
    requires m <= n
    ensures Pow10(m) <= Pow10(n)
  {
    if m < n {
      Pow10Grows(m, n - 1);
    }
  }

  lemma {:induction false} LeadingDigitOfPow10(n: nat)
    ensures LeadingDigit(Pow10(n) as real) == 1
  {
    if n > 0 {
      LeadingDigitOfPow10(n - 1);
      assert (Pow10(n) as real) / 10.0 == Pow10(n - 1) as real;
      assert Pow10(n) as real >= 10.0 by {
        Pow10Grows(1, n);
      }
    }
  }

  /** The decimal digits of `n`. */
  function DigitText(n: nat): string
    decreases n
  {
    if n < 10 then [('0' as int + n) as char] else DigitText(n / 10) + [('0' as int + n % 10) as char]
  }

  function HexDigit(d: nat): (c: char)
    requires d < 16
    ensures d < 10 ==> c as int == '0' as int + d
    ensures d >= 10 ==> c as int == 'a' as int + d - 10
  {
    if d < 10 then ('0' as int + d) as char else ('a' as int + d - 10) as char
  }

  /** `width` lower-case hex digits of `n`. */
  function HexText(n: nat, width: nat): (r: string)
    ensures |r| == width
  {
    if width == 0 then "" else HexText(n / 16, width - 1) + [HexDigit(n % 16)]
  }

  function Pow16(n: nat): (r: nat)
    ensures r > 0
  {
    if n == 0 then 1 else 16 * Pow16(n - 1)
  }

  /** Numbers below 16^width have different hex texts of that width. */
  lemma {:induction false} HexTextInjective(a: nat, b: nat, width: nat)
    requires a < Pow16(width) && b < Pow16(width) && HexText(a, width) == HexText(b, width)
    ensures a == b
  {
    if width > 0 {
      var ta := HexText(a, width);
      var tb := HexText(b, width);
      assert ta[width - 1] == tb[width - 1];
      assert a % 16 == b % 16;
      assert ta[..width - 1] == HexText(a / 16, width - 1);
      assert tb[..width - 1] == HexText(b / 16, width - 1);
      HexTextInjective(a / 16, b / 16, width - 1);
    }
  }

  /** An ObjectId as JSON writes it: 24 lower-case hex digits. A generated id
      stands for the serial number of the document it was created for. */
  function ObjectIdText(serial: nat): (r: string)
    ensures |r| == 24
  {
    HexText(serial, 24)
  }

  /** Two serials below 16^24 never share their ObjectId text. */
  lemma ObjectIdTextInjective(a: nat, b: nat)
    requires a < Pow16(24) && b < Pow16(24) && a != b
    ensures ObjectIdText(a) != ObjectIdText(b)
  {
    if ObjectIdText(a) == ObjectIdText(b) {
      HexTextInjective(a, b, 24);
    }
  }

  /** `String(v)`. A fractional number is written as its integer part and a
      point only: its digits after the point are not modelled. */
  function JsString(v: JsValue): string {
    match v
    case Undefined => "undefined"
    case Null => "null"
    case Bool(b) => if b then "true" else "false"
    case Str(s) => s
    case Object(_) => "[object Object]"
    case Num(NaN) => "NaN"
    case Num(PosInfinity) => "Infinity"
    case Num(NegInfinity) => "-Infinity"
    case Num(Finite(x)) =>
      var k := Truncate(x);
      (if x < 0.0 then "-" else "") + DigitText(if k < 0 then -k else k)
        + (if x == x.Floor as real then "" else ".")
  }

  // ------------------------------------------------------------------ JSON

  /** What a value inside a JSON body becomes once `JSON.stringify` has
      written it and `JSON.parse` has read it back: NaN and the infinities
      are written as null, and an object's keys holding `undefined` are
      dropped. Finite numbers keep their value (a double's shortest text
      reads back as the same double). */
  function OnWire(v: JsValue): (r: JsValue)
    ensures r.Object? <==> v.Object?
    ensures v.Object? ==> forall k :: k in r.fields <==> k in v.fields && !v.fields[k].Undefined?
    ensures v.Num? ==> r.Num? || r.Null?
    ensures !v.Object? && !v.Num? ==> r == v
  {
    match v
    case Num(n) => if n.Finite? then v else Null
    case Object(m) => Object(map k | k in m && !m[k].Undefined? :: OnWire(m[k]))
    case _ => v
  }

  /** A value JSON writes as it is: no NaN or infinity, and no object key
      holding `undefined`. */
  predicate JsonSafe(v: JsValue) {
    match v
    case Num(n) => n.Finite?
    case Object(m) => forall k :: k in m ==> !m[k].Undefined? && JsonSafe(m[k])
    case _ => true
  }

  /** The encoding lands on JSON-safe values, and leaves exactly those
      unchanged: applying it twice is applying it once. */
  lemma {:induction false} OnWireIsJsonSafe(v: JsValue)
    ensures JsonSafe(OnWire(v))
    ensures OnWire(v) == v <==> JsonSafe(v)
    ensures OnWire(OnWire(v)) == OnWire(v)
  {
    match v
    case Object(m) =>
      var r := OnWire(v);
      forall k | k in r.fields
        ensures !r.fields[k].Undefined? && JsonSafe(r.fields[k])
        ensures OnWire(r.fields[k]) == r.fields[k]
      {
        OnWireIsJsonSafe(m[k]);
      }
      assert OnWire(r) == r;
      if JsonSafe(v) {
        forall k | k in m ensures OnWire(m[k]) == m[k] {
          OnWireIsJsonSafe(m[k]);
        }
        assert r.fields == m;
      }
      if r == v {
        assert JsonSafe(r);
      }
    case _ =>
  }

  /** Reading a key after the round trip reads the encoded value: a dropped
      `undefined` key reads as `undefined` anyway. */
  lemma GetOnWire(v: JsValue, key: string)
    ensures Get(OnWire(v), key) == OnWire(Get(v, key))
  {
  }

  // ---------------------------------------------------------------- lists

  /** `s.filter(p)` */
  function Filter<T>(s: seq<T>, p: T -> bool): (r: seq<T>)
    ensures |r| <= |s|
    ensures forall i :: 0 <= i < |r| ==> r[i] in s && p(r[i])
    ensures forall i :: 0 <= i < |s| && p(s[i]) ==> s[i] in r
  {
    if s == [] then [] else (if p(s[0]) then [s[0]] else []) + Filter(s[1..], p)
  }

  /** Filtering keeps every element that passes, so it changes nothing when
      all of them do. */
  lemma {:induction false} FilterAllPass<T>(s: seq<T>, p: T -> bool)
    requires forall i :: 0 <= i < |s| ==> p(s[i])
    ensures Filter(s, p) == s
  {
    if s != [] {
      FilterAllPass(s[1..], p);
    }
  }

  /** Filtering is idempotent. */
  lemma FilterIdempotent<T>(s: seq<T>, p: T -> bool)
    ensures Filter(Filter(s, p), p) == Filter(s, p)
  {
    FilterAllPass(Filter(s, p), p);
  }

  /** Filtering keeps relative order, so any relation that holds between every
      earlier and later element still holds afterwards. */
  lemma {:induction false} FilterKeepsPairwise<T>(s: seq<T>, p: T -> bool, rel: (T, T) -> bool)
    requires forall i, j :: 0 <= i < j < |s| ==> rel(s[i], s[j])
    ensures forall i, j :: 0 <= i < j < |Filter(s, p)| ==> rel(Filter(s, p)[i], Filter(s, p)[j])
  {
    if s != [] {
      var tail := s[1..];
      FilterKeepsPairwise(tail, p, rel);
      var r := Filter(tail, p);
      forall j | 0 <= j < |r|
        ensures rel(s[0], r[j])
      {
        assert r[j] in tail;
        var k :| 0 <= k < |tail| && tail[k] == r[j];
        assert s[k + 1] == r[j];
      }
    }
  }

  /** Two tests that agree on every element filter a list alike. */
  lemma {:induction false} FilterCongruent<T>(s: seq<T>, p: T -> bool, q: T -> bool)
    requires forall i :: 0 <= i < |s| ==> p(s[i]) == q(s[i])
    ensures Filter(s, p) == Filter(s, q)
  {
    if s != [] {
      FilterCongruent(s[1..], p, q);
    }
  }
}
