/** The handful of JavaScript values a catalog record's fields can hold, and
    the coercions (`!!v`, `String(v)`, `Number(v)`, `||`, `??`, `+`) the
    catalog code applies to them. */
module JsValues {
  import opened Chars
  import opened Strings

  /** A text field: a string, or `undefined` when a record read back from
      storage or from an imported file does not carry the field. */
  datatype Text = Absent | Str(s: string)

  /** `!!t` for a text field: only a non-empty string is truthy. */
  predicate Truthy(t: Text) {
    t.Str? && t.s != []
  }

  /** `String(t)`: `undefined` prints as the text "undefined". */
  function ToStr(t: Text): (r: string)
    ensures t.Str? ==> r == t.s
  {
    match t
    case Absent => "undefined"
    case Str(s) => s
  }

  /** `t || d`: the string itself when truthy, the default otherwise. */
  function OrElse(t: Text, d: string): (r: string)
    ensures Truthy(t) ==> r == t.s
    ensures !Truthy(t) ==> r == d
  {
    if Truthy(t) then t.s else d
  }

  /** `t ?? d`: only `undefined` is replaced; an empty string is kept. */
  function Coalesce(t: Text, d: string): (r: string)
    ensures t.Str? ==> r == t.s
    ensures t.Absent? ==> r == d
  {
    match t
    case Absent => d
    case Str(s) => s
  }

  /** A JavaScript number restricted to the integers, plus `NaN`. */
  datatype Number = NaN | Int(i: int)

  /** The `+` operator on numbers: `NaN` absorbs everything. */
  function Plus(a: Number, b: Number): (r: Number)
    ensures r.Int? <==> a.Int? && b.Int?
    ensures r.Int? ==> r.i == a.i + b.i
  {
    if a.Int? && b.Int? then Int(a.i + b.i) else NaN
  }

  /** `!!n` for a number: zero and `NaN` are falsy. */
  predicate NumberTruthy(n: Number) {
    n.Int? && n.i != 0
  }

  /** `String(n)`. */
  function NumberToString(n: Number): string {
    match n
    case NaN => "NaN"
    case Int(i) => DecimalString(i)
  }

  /** The `pages` field of a record: missing, `null`, or a number. */
  datatype Pages = PagesUndefined | PagesNull | PagesNumber(n: Number)

  /** `!!p`. */
  predicate PagesTruthy(p: Pages) {
    p.PagesNumber? && NumberTruthy(p.n)
  }

  /** `Number(p)`: `undefined` becomes `NaN`, `null` becomes 0. */
  function PagesToNumber(p: Pages): (r: Number)
    ensures p.PagesUndefined? ==> r == NaN
    ensures p.PagesNull? ==> r == Int(0)
    ensures p.PagesNumber? ==> r == p.n
  {
    match p
    case PagesUndefined => NaN
    case PagesNull => Int(0)
    case PagesNumber(n) => n
  }

  /** `String(p)`. */
  function PagesToString(p: Pages): string {
    match p
    case PagesUndefined => "undefined"
    case PagesNull => "null"
    case PagesNumber(n) => NumberToString(n)
  }

  /** `Number(s)` restricted to whole numbers: surrounding whitespace is
      ignored, blank text is 0 and an optional sign may precede the digits.
      Every other text is mapped to `NaN` here, although JavaScript also reads
      decimals ("12.5"), exponents ("1e3"), hexadecimal, octal and binary
      literals ("0x1F") and "Infinity" as numbers; this model has no
      non-integer numbers and does not cover those forms. */
  function StringToNumber(s: string): (n: Number)
    ensures Trim(s) == [] ==> n == Int(0)
  {
    var t := Trim(s);
    if t == [] then Int(0)
    else if AllDigits(t) then Int(DigitsValue(t))
    else if |t| > 1 && t[0] == '-' && AllDigits(t[1..]) then Int(-(DigitsValue(t[1..]) as int))
    else if |t| > 1 && t[0] == '+' && AllDigits(t[1..]) then Int(DigitsValue(t[1..]))
    else NaN
  }

  /** A digit string has no whitespace at either end, so `trim` keeps it. */
  lemma DigitsTrimmed(d: string)
    requires AllDigits(d)
    ensures Trim(d) == d
  {
    if d != [] {
      assert IsDigit(d[0]) && IsDigit(d[|d| - 1]);
    }
    TrimFixpoint(d);
  }

  /** `Number` of a run of digits is its value. */
  lemma DigitsNumber(d: string)
    requires d != [] && AllDigits(d)
    ensures StringToNumber(d) == Int(DigitsValue(d))
  {
    DigitsTrimmed(d);
  }

  /** `Number` of a minus sign before a run of digits is the negated value. */
  lemma NegatedDigitsNumber(d: string)
    requires d != [] && AllDigits(d)
    ensures StringToNumber("-" + d) == Int(-(DigitsValue(d) as int))
  {
    var s := "-" + d;
    assert s[1..] == d;
    assert s[0] == '-' && s[|s| - 1] == d[|d| - 1];
    assert !IsSpace(s[0]) && !IsSpace(s[|s| - 1]);
    TrimFixpoint(s);
    assert !IsDigit(s[0]);
  }

  /** Reading back `String(n)` gives `n`. */
  lemma StringToNumberRoundTrip(n: int)
    ensures StringToNumber(DecimalString(n)) == Int(n)
  {
    var m: nat := if n < 0 then -n else n;
    NatStringRoundTrip(m);
    if n < 0 {
      NegatedDigitsNumber(NatString(m));
    } else {
      DigitsNumber(NatString(m));
    }
  }
}
