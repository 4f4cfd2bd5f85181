/** The JavaScript values a spreadsheet row can hold once read as raw arrays,
    with the coercions the row pipeline applies to them: truthiness, `Number(v)`
    and `String(v)`. */
module JsValues {
  import opened Wrappers
  import opened Text

  /** A cell: a hole or missing cell is `Undefined`; numbers are integral here. */
  datatype Value = Undefined | Null | Num(n: int) | Str(s: string) | Bool(b: bool)

  /** JavaScript truthiness (ToBoolean): `undefined`, `null`, `0`, `''` and `false` are falsy. */
  predicate Truthy(v: Value) {
    match v
    case Undefined => false
    case Null => false
    case Num(n) => n != 0
    case Str(s) => s != ""
    case Bool(b) => b
  }

  /** The outcome of `Number(v)`. `NumericText(t)` is `Number` applied to trimmed text
      that is not an optionally signed decimal integer (a fraction, an exponent, a
      hexadecimal literal, `Infinity`, or text that gives NaN); its value is not computed. */
  datatype JsNumber = Int(value: int) | NaN | NumericText(text: string)

  /** `Number(s)` for a string (StringToNumber): surrounding white space is ignored and
      empty text is `0`. */
  function NumberOfText(s: string): (r: JsNumber)
    ensures r.NumericText? ==> r.text == Trim(s) && r.text != ""
  {
    var t := Trim(s);
    if t == "" then Int(0)
    else match ParseInteger(t)
      case Some(i) => Int(i)
      case None => NumericText(t)
  }

  /** `Number(v)`. */
  function ToNumber(v: Value): JsNumber {
    match v
    case Undefined => NaN
    case Null => Int(0)
    case Num(n) => Int(n)
    case Str(s) => NumberOfText(s)
    case Bool(b) => Int(if b then 1 else 0)
  }

  /** `String(v)`. */
  function ToString(v: Value): string {
    match v
    case Undefined => "undefined"
    case Null => "null"
    case Num(n) => IntToString(n)
    case Str(s) => s
    case Bool(b) => if b then "true" else "false"
  }

  /** A number cell and a text cell holding its decimal text coerce to the same number,
      and printing a number cell and coercing the text back gives the number. */
  lemma NumberOfPrintedInteger(n: int)
    ensures ToNumber(Str(ToString(Num(n)))) == ToNumber(Num(n)) == Int(n)
  {
    var t := IntToString(n);
    IntegerRoundTrip(n);
    assert t[0] == '-' || IsDigit(t[0]);
    TrimOfTrimmed(t);
  }
}
