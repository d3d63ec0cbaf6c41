/**
 * The slice of JavaScript's value semantics the admin panel and the app rely
 * on: primitive values as they arrive from JSON or the database, truthiness,
 * `Number(...)`, `String(...)`, `||` and `??`, and plain objects as
 * insertion-ordered key/value lists.
 */
module JsValues {
  import opened Base
  import opened Chars
  import opened Strings
  import opened Assoc

  /** A JavaScript number: an integer, or any other value (NaN, a fraction, an infinity),
      which the model treats like NaN. */
  datatype JsNum = Int(i: int) | NonInt

  /** A primitive JavaScript value. A missing property reads as `Undefined`. */
  datatype JsValue = Undefined | Null | Bool(b: bool) | Num(n: JsNum) | Str(s: string)

  /** A plain object: its own enumerable properties in insertion order. */
  type JsObject = seq<(string, JsValue)>

  /** JavaScript truthiness. */
  predicate Truthy(v: JsValue) {
    match v
    case Undefined => false
    case Null => false
    case Bool(b) => b
    case Num(n) => n.Int? && n.i != 0
    case Str(s) => |s| > 0
  }

  /** `v === null || v === undefined`. */
  predicate IsNullish(v: JsValue) { v.Undefined? || v.Null? }

  /** `v === null || v === undefined || v === ''`. */
  predicate IsBlank(v: JsValue) { IsNullish(v) || v == Str("") }

  /** `a || b`. */
  function Or(a: JsValue, b: JsValue): (r: JsValue)
    ensures Truthy(a) ==> r == a
    ensures !Truthy(a) ==> r == b
  {
    if Truthy(a) then a else b
  }

  /** `a ?? b`. */
  function Coalesce(a: JsValue, b: JsValue): (r: JsValue)
    ensures !IsNullish(a) ==> r == a
    ensures IsNullish(a) ==> r == b
  {
    if IsNullish(a) then b else a
  }

  /** `Number(s)` on a string: surrounding whitespace is ignored, the empty string is 0,
      and an optional sign before unsigned decimal text gives its value. */
  function StringToNumber(s: string): (n: JsNum)
    ensures JsTrim(s) == "" ==> n == Int(0)
    ensures AllAsciiDigits(JsTrim(s)) && JsTrim(s) != "" ==> n == Int(DigitsValue(JsTrim(s)))
  {
    var t := JsTrim(s);
    if t == "" then Int(0)
    else if t[0] == '+' then UnsignedToNumber(t[1..])
    else if t[0] == '-' then Negate(UnsignedToNumber(t[1..]))
    else UnsignedToNumber(t)
  }

  /** `Number` on unsigned decimal text: digits, optionally a point and more digits, with
      at least one digit in all. A fractional part of zeros (`12.`, `12.0`, `.0`) leaves an
      integer; any other fraction is a `NonInt`, and so is any other text. */
  function UnsignedToNumber(u: string): (n: JsNum)
  {
    if '.' !in u then
      if u != "" && AllAsciiDigits(u) then Int(DigitsValue(u)) else NonInt
    else
      var p := IndexOfChar(u, '.');
      if |u| > 1 && AllAsciiDigits(u[..p]) && All(u[p + 1..], IsZeroDigit) then Int(DigitsValue(u[..p]))
      else NonInt
  }

  predicate IsZeroDigit(c: char) { c == '0' }

  /** Unary minus; the negative zero of `-0` is the integer 0. */
  function Negate(n: JsNum): (r: JsNum)
    ensures r.Int? <==> n.Int?
    ensures n.Int? ==> r.i == -n.i
  {
    match n
    case Int(i) => Int(-i)
    case NonInt => NonInt
  }

  /** A digit run followed by a point and zeros reads as the digit run's integer, with or
      without a plus sign: `Number("12.0") === 12`, `Number("+12.") === 12`,
      `Number(".0") === 0`. A minus sign is `NegatedText`. */
  lemma StringToNumberZeroFraction(d: string, z: string)
    requires AllAsciiDigits(d) && All(z, IsZeroDigit) && |d| + |z| > 0
    ensures StringToNumber(d + "." + z) == Int(DigitsValue(d))
    ensures StringToNumber("+" + (d + "." + z)) == Int(DigitsValue(d))
  {
    ZeroFractionEnds(d, z);
    SignedText(d + "." + z);
    UnsignedZeroFraction(d, z);
  }

  /** A minus sign before text that reads as `k` reads as `-k`. */
  lemma NegatedText(u: string, k: int)
    requires |u| > 0 && !IsJsSpace(u[0]) && !IsJsSpace(u[|u| - 1]) && u[0] != '+' && u[0] != '-'
    requires UnsignedToNumber(u) == Int(k)
    ensures StringToNumber("-" + u) == Int(-k)
  {
    SignedTextOf('-', u);
    assert "-" + u == ['-'] + u;
  }

  /** Decimal text with a point has no blank or sign at either end. */
  lemma ZeroFractionEnds(d: string, z: string)
    requires AllAsciiDigits(d) && All(z, IsZeroDigit)
    ensures var u := d + "." + z; |u| > 0 && !IsJsSpace(u[0]) && !IsJsSpace(u[|u| - 1]) && u[0] != '+' && u[0] != '-'
  {
    var u := d + "." + z;
    assert u[0] == '.' || IsAsciiDigit(u[0]);
    assert u[|u| - 1] == '.' || u[|u| - 1] == '0';
  }

  /** `Number` of a text that has no blank at either end reads an optional sign and then
      the unsigned text. */
  lemma SignedText(u: string)
    requires |u| > 0 && !IsJsSpace(u[0]) && !IsJsSpace(u[|u| - 1]) && u[0] != '+' && u[0] != '-'
    ensures StringToNumber(u) == UnsignedToNumber(u)
    ensures StringToNumber("+" + u) == UnsignedToNumber(u)
    ensures StringToNumber("-" + u) == Negate(UnsignedToNumber(u))
  {
    assert JsTrim(u) == u;
    SignedTextOf('+', u);
    SignedTextOf('-', u);
  }

  lemma SignedTextOf(c: char, u: string)
    requires |u| > 0 && !IsJsSpace(u[|u| - 1]) && (c == '+' || c == '-')
    ensures JsTrim([c] + u) == [c] + u && ([c] + u)[0] == c && ([c] + u)[1..] == u
  {
    var t := [c] + u;
    assert t[|t| - 1] == u[|u| - 1];
    assert t[1..] == u;
  }

  /** The unsigned half of `StringToNumberZeroFraction`. */
  lemma UnsignedZeroFraction(d: string, z: string)
    requires AllAsciiDigits(d) && All(z, IsZeroDigit) && |d| + |z| > 0
    ensures UnsignedToNumber(d + "." + z) == Int(DigitsValue(d))
  {
    var u := d + "." + z;
    PointAfterDigits(d, z);
    assert u[..|d|] == d;
    assert u[|d| + 1..] == z;
  }

  /** A fraction with a non-zero digit after the point is not an integer:
      `Number.isInteger(Number("12.5"))` is false. */
  lemma UnsignedFraction(d: string, f: string, k: nat)
    requires AllAsciiDigits(d) && AllAsciiDigits(f) && k < |f| && f[k] != '0'
    ensures UnsignedToNumber(d + "." + f) == NonInt
  {
    var u := d + "." + f;
    PointAfterDigits(d, f);
    assert u[|d| + 1..] == f;
  }

  /** The first point of a digit run, a point and anything is the point after the run. */
  lemma PointAfterDigits(d: string, rest: string)
    requires AllAsciiDigits(d)
    ensures var u := d + "." + rest; '.' in u && IndexOfChar(u, '.') == |d|
  {
    var u := d + "." + rest;
    assert u[|d|] == '.';
    assert forall i :: 0 <= i < |d| ==> u[i] == d[i];
  }

  /** `Number(v)`. */
  function ToNumber(v: JsValue): (n: JsNum)
    ensures v.Num? ==> n == v.n
    ensures v.Undefined? ==> n == NonInt
    ensures v.Null? ==> n == Int(0)
  {
    match v
    case Undefined => NonInt
    case Null => Int(0)
    case Bool(b) => Int(if b then 1 else 0)
    case Num(n) => n
    case Str(s) => StringToNumber(s)
  }

  /** `String(n)` for a number. */
  function NumToString(n: JsNum): (s: string)
    ensures |s| >= 1
  {
    match n
    case Int(i) => IntToString(i)
    case NonInt => "NaN"
  }

  /** `String(v)`, also the value of `${v}` in a template literal. */
  function ToStr(v: JsValue): string {
    match v
    case Undefined => "undefined"
    case Null => "null"
    case Bool(b) => if b then "true" else "false"
    case Num(n) => NumToString(n)
    case Str(s) => s
  }

  /** `String(v || '')`: the text of a truthy value, otherwise the empty string. */
  function TextOf(v: JsValue): (s: string)
    ensures v.Str? ==> s == v.s
    ensures !Truthy(v) ==> s == ""
  {
    if Truthy(v) then ToStr(v) else ""
  }

  /** `Number.isInteger(v)`: no coercion, only numbers qualify. */
  predicate IsIntegerValue(v: JsValue) { v.Num? && v.n.Int? }

  /** The property `k` of an object, `undefined` when absent. */
  function Prop(o: JsObject, k: string): (v: JsValue)
    ensures v != Undefined ==> HasKey(o, k)
  {
    match Get(o, k)
    case Some(v) => v
    case None => Undefined
  }

  /** `{ ...a, ...b }`: `b`'s properties overwrite `a`'s in place, new ones are appended. */
  function Spread(a: JsObject, b: JsObject): (r: JsObject)
    ensures forall p :: p in r ==> p in a || p in b
    decreases |b|
  {
    if |b| == 0 then a
    else
      var init := Spread(a, b[..|b| - 1]);
      Put(init, b[|b| - 1].0, b[|b| - 1].1)
  }

  /** A spread object reads every property from `b` when `b` has it, and from `a` otherwise. */
  lemma {:induction false} SpreadGet(a: JsObject, b: JsObject, k: string)
    requires UniqueKeys(b)
    ensures Prop(Spread(a, b), k) == if HasKey(b, k) then Prop(b, k) else Prop(a, k)
    decreases |b|
  {
    if |b| > 0 {
      var n := |b| - 1;
      var init := b[..n];
      assert UniqueKeys(init);
      SpreadGet(a, init, k);
      PutGet(Spread(a, init), b[n].0, b[n].1, k);
      assert Keys(b) == Keys(init) + [b[n].0];
      if k == b[n].0 {
        GetOfMember(b, n);
      } else if HasKey(init, k) {
        var j :| 0 <= j < n && init[j].0 == k;
        GetOfMember(b, j);
        GetOfMember(init, j);
      } else {
        assert !HasKey(b, k);
      }
    }
  }

  /** Decimal text read back by `Number`: the two agree on every integer. */
  lemma StringToNumberOfIntToString(i: int)
    ensures StringToNumber(IntToString(i)) == Int(i)
  {
    var n: nat := if i < 0 then -i else i;
    NatToStringValue(n);
    var d := NatToString(n);
    DigitsText(d);
    if i < 0 {
      NegatedText(d, n);
    } else {
      SignedText(d);
    }
  }

  /** A digit run has no blank or sign at its ends and reads as its value. */
  lemma DigitsText(d: string)
    requires |d| > 0 && AllAsciiDigits(d)
    ensures !IsJsSpace(d[0]) && !IsJsSpace(d[|d| - 1]) && d[0] != '+' && d[0] != '-'
    ensures UnsignedToNumber(d) == Int(DigitsValue(d))
  {
    assert IsAsciiDigit(d[0]) && IsAsciiDigit(d[|d| - 1]);
    assert '.' !in d by {
      forall k | 0 <= k < |d| ensures d[k] != '.' { assert IsAsciiDigit(d[k]); }
    }
  }

  /** `Number(String(n))` gives back `n`. */
  lemma NumToStringRoundTrip(n: JsNum)
    ensures StringToNumber(NumToString(n)) == n
  {
    match n
    case Int(i) => StringToNumberOfIntToString(i);
    case NonInt =>
      assert IsTrimmed("NaN", IsJsSpace);
      assert !IsAsciiDigit('N');
  }

  /** The text of a number never contains a colon. */
  lemma NumToStringNoColon(n: JsNum)
    ensures ':' !in NumToString(n)
  {
    if n.Int? && n.i < 0 {
      assert NumToString(n) == "-" + NatToString(-n.i);
    }
  }

  /** The template `${a}:${b}` on two numbers. */
  function PairKey(a: JsNum, b: JsNum): (k: string)
    ensures ':' in k
  {
    NumToString(a) + ":" + NumToString(b)
  }

  /** The first colon of `x + ":" + u` is the one after `x` when `x` has none. */
  lemma FirstColon(x: string, u: string)
    requires ':' !in x
    ensures IndexOfChar(x + ":" + u, ':') == |x|
  {
    var k := x + ":" + u;
    assert k[..|x|] == x;
    assert k[|x|] == ':';
    assert k[..|x| + 1] == k[..|x|] + [':'];
  }

  /** Two number pairs share a `${a}:${b}` key exactly when they are equal. */
  lemma PairKeyInjective(a: JsNum, b: JsNum, c: JsNum, d: JsNum)
    ensures PairKey(a, b) == PairKey(c, d) <==> a == c && b == d
  {
    if PairKey(a, b) == PairKey(c, d) {
      var x, y := NumToString(a), NumToString(c);
      var k := PairKey(a, b);
      NumToStringNoColon(a);
      NumToStringNoColon(c);
      FirstColon(x, NumToString(b));
      FirstColon(y, NumToString(d));
      assert x == k[..|x|] == y;
      assert NumToString(b) == k[|x| + 1..] == NumToString(d);
      NumToStringRoundTrip(a);
      NumToStringRoundTrip(c);
      NumToStringRoundTrip(b);
      NumToStringRoundTrip(d);
    }
  }
}
