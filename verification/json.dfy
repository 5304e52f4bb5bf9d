/** JavaScript values as the pipeline sees them: spreadsheet cells (numbers,
    strings, booleans, dates), the arrays and plain objects built from them, and the
    conversions the source applies implicitly or explicitly: truthiness, loose
    equality with `''`, `String(v)`, `Number(v)` and `parseInt(v)`. */
module Json {
  import opened Strings

  /** A JavaScript value. Numbers are integers; `Date` carries the calendar day of
      its UTC instant (`YYYY-MM-DD`), its `toString()` text and its time value. */
  datatype Value =
    | Undefined
    | Null
    | Bool(b: bool)
    | Num(n: int)
    | NaN
    | Str(s: string)
    | Date(day: string, text: string, time: int)
    | Arr(items: seq<Value>)
    | Obj(fields: Object)

  /** A plain object: own enumerable properties by name. */
  type Object = map<string, Value>

  /** `o[k]`: the property, or `undefined` when `o` has no such key. */
  function Get(o: Object, k: string): Value {
    if k in o then o[k] else Undefined
  }

  /** `!!v` */
  predicate Truthy(v: Value) {
    match v
    case Undefined => false
    case Null => false
    case NaN => false
    case Bool(b) => b
    case Num(n) => n != 0
    case Str(s) => s != ""
    case _ => true
  }

  /** `typeof v === 'number'` */
  predicate IsNumber(v: Value) {
    v.Num? || v.NaN?
  }

  /** `String(v)`, which is also `v.toString()` for every value that has one, the
      template-literal rendering `${v}`, and the property key `o[v]` addresses. */
  function ToStr(v: Value): string {
    match v
    case Undefined => "undefined"
    case Null => "null"
    case Bool(b) => if b then "true" else "false"
    case Num(n) => IntToString(n)
    case NaN => "NaN"
    case Str(s) => s
    case Date(_, text, _) => text
    case Arr(items) =>
      Join(seq(|items|, i requires 0 <= i < |items| =>
             if items[i].Undefined? || items[i].Null? then "" else ToStr(items[i])), ',')
    case Obj(_) => "[object Object]"
  }

  /** `v == undefined || v == null || v == ''` under loose equality: `undefined`,
      `null`, and every value whose primitive form converts to the empty string or
      to the number 0 when compared with `''`. */
  predicate LooselyEmpty(v: Value) {
    match v
    case Undefined => true
    case Null => true
    case Bool(b) => !b
    case Num(n) => n == 0
    case NaN => false
    case Str(s) => s == ""
    case Date(_, text, _) => text == ""
    case Arr(_) => ToStr(v) == ""
    case Obj(_) => false
  }

  /** `Number(s)` for a string: surrounding spaces ignored, the empty string is 0,
      an optionally signed decimal integer is its value, anything else is NaN. */
  function StringToNumber(s: string): Value {
    NumeralValue(Trim(s))
  }

  /** The number a trimmed string denotes. */
  function NumeralValue(t: string): Value {
    if t == "" then Num(0)
    else if (t[0] == '-' || t[0] == '+') && |t| > 1 && AllDigits(t[1..]) then
      Num(if t[0] == '-' then -(DigitsValue(t[1..]) as int) else DigitsValue(t[1..]))
    else if AllDigits(t) then Num(DigitsValue(t))
    else NaN
  }

  /** `Number(v)` */
  function ToNumber(v: Value): Value {
    match v
    case Undefined => NaN
    case Null => Num(0)
    case Bool(b) => Num(if b then 1 else 0)
    case Num(_) => v
    case NaN => v
    case Str(s) => StringToNumber(s)
    case Date(_, _, time) => Num(time)
    case Arr(_) => StringToNumber(ToStr(v))
    case Obj(_) => NaN
  }

  /** `parseInt(v)`: leading spaces skipped, an optional sign, then the longest run
      of decimal digits; NaN when there is none. */
  function ParseInt(v: Value): Value {
    LeadingInteger(TrimStart(ToStr(v)))
  }

  /** The integer an optional sign and the longest run of digits after it denote. */
  function LeadingInteger(t: string): Value {
    var negative := |t| > 0 && t[0] == '-';
    var unsigned := if |t| > 0 && (t[0] == '-' || t[0] == '+') then t[1..] else t;
    var digits := LeadingDigits(unsigned);
    if digits == "" then NaN
    else Num(if negative then -(DigitsValue(digits) as int) else DigitsValue(digits))
  }

  /** `Str(s) == v` under loose equality. */
  predicate LooseEqualsString(s: string, v: Value) {
    match v
    case Undefined => false
    case Null => false
    case NaN => false
    case Bool(b) => StringToNumber(s) == Num(if b then 1 else 0)
    case Num(n) => StringToNumber(s) == Num(n)
    case Str(t) => s == t
    case _ => s == ToStr(v)
  }

  /** A rendered integer reads back as itself under `Number`. */
  lemma NumberOfIntString(n: int)
    ensures ToNumber(Str(IntToString(n))) == Num(n)
  {
    var s := IntToString(n);
    var m: nat := if n < 0 then -n else n;
    NatToStringRoundTrip(m);
    NoSpaceInNumeral(s);
    assert Trim(s) == s;
    if n < 0 {
      NegativeNumeral(NatToString(m));
      assert s == "-" + NatToString(m);
    } else {
      NatNumeral(NatToString(m));
    }
  }

  lemma NatNumeral(u: string)
    requires Canonical(u)
    ensures NumeralValue(u) == Num(DigitsValue(u))
  {
    assert IsDigit(u[0]);
  }

  lemma NegativeNumeral(u: string)
    requires Canonical(u)
    ensures NumeralValue("-" + u) == Num(-(DigitsValue(u) as int))
  {
    assert ("-" + u)[1..] == u;
  }

  /** `parseInt(n) === n` for an integer `n`. */
  lemma ParseIntOfNum(n: int)
    ensures ParseInt(Num(n)) == Num(n)
  {
    var s := IntToString(n);
    var m: nat := if n < 0 then -n else n;
    NatToStringRoundTrip(m);
    NoSpaceInNumeral(s);
    assert TrimStart(s) == s;
    if n < 0 {
      NegativeLeadingInteger(NatToString(m));
      assert s == "-" + NatToString(m);
    } else {
      NatLeadingInteger(NatToString(m));
    }
  }

  lemma NatLeadingInteger(u: string)
    requires Canonical(u)
    ensures LeadingInteger(u) == Num(DigitsValue(u))
  {
    assert IsDigit(u[0]);
    LeadingDigitsOfDigits(u, "");
    assert u + "" == u;
  }

  lemma NegativeLeadingInteger(u: string)
    requires Canonical(u)
    ensures LeadingInteger("-" + u) == Num(-(DigitsValue(u) as int))
  {
    assert ("-" + u)[1..] == u;
    LeadingDigitsOfDigits(u, "");
    assert u + "" == u;
  }

  lemma NoSpaceInNumeral(s: string)
    requires |s| > 0 && (s[0] == '-' || IsDigit(s[0])) && IsDigit(s[|s| - 1])
    ensures TrimStart(s) == s && TrimEnd(s) == s
  {
    assert !IsSpace(s[0]);
    assert !IsSpace(s[|s| - 1]);
  }
}
