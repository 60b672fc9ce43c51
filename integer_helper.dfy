/**
 * IntegerHelper.parse(s) and parse(s, radix). Only their tests are part of this
 * model: parse(null) is null, "test" is refused with a parse error, "123" is 123
 * and "FF" in radix 16 is 255. The rules below are those of
 * java.math.BigInteger(String, int), which the tests agree with: an optional
 * sign, then one or more digits of the radix, letters in either case; a radix
 * outside 2..36 is refused.
 */
module IntegerHelper {
  import opened Wrappers

  const MinRadix: int := 2
  const MaxRadix: int := 36

  /** permafrost.tundra.io.ParseException, naming the refused input. */
  datatype ParseError = ParseError(input: string, radix: int)

  /** The value of a letter or digit in the largest radix (Character.digit for ASCII). */
  function DigitValue(c: char): (d: Option<nat>)
    ensures d.Some? ==> d.value < MaxRadix
  {
    if '0' <= c <= '9' then Some(c as int - '0' as int)
    else if 'a' <= c <= 'z' then Some(c as int - 'a' as int + 10)
    else if 'A' <= c <= 'Z' then Some(c as int - 'A' as int + 10)
    else None
  }

  /** The value of `c` as a digit of `radix`, or None if it is not one. */
  function Digit(c: char, radix: int): (d: Option<nat>)
    ensures d.Some? ==> d.value < radix
  {
    match DigitValue(c)
    case Some(v) => if v < radix then Some(v) else None
    case None => None
  }

  predicate AllDigits(s: string, radix: int) {
    forall i :: 0 <= i < |s| ==> Digit(s[i], radix).Some?
  }

  /** The value of a digit string, most significant digit first. */
  function DigitsValue(s: string, radix: nat): nat
    requires AllDigits(s, radix)
  {
    if s == [] then 0
    else
      assert forall i :: 0 <= i < |s| - 1 ==> s[..|s| - 1][i] == s[i];
      DigitsValue(s[..|s| - 1], radix) * radix + Digit(s[|s| - 1], radix).value
  }

  /** The sign-free part of a numeral: drops one leading '-' or '+'. */
  function Magnitude(s: string): string {
    if |s| > 0 && (s[0] == '-' || s[0] == '+') then s[1..] else s
  }

  /** parse(s, radix): null gives null; otherwise the numeral's value or a parse error. */
  function Parse(s: Option<string>, radix: int): Result<Option<int>, ParseError>
  {
    match s
    case None => Ok(None)
    case Some(text) =>
      var digits := Magnitude(text);
      if radix < MinRadix || radix > MaxRadix || digits == [] || !AllDigits(digits, radix) then
        Err(ParseError(text, radix))
      else
        var v: int := DigitsValue(digits, radix);
        Ok(Some(if text[0] == '-' then -v else v))
  }

  /** parse(s): the decimal case. */
  function ParseDecimal(s: Option<string>): Result<Option<int>, ParseError> {
    Parse(s, 10)
  }

  /** The lower-case digit character of value `d`. */
  function DigitChar(d: nat): (c: char)
    requires d < MaxRadix
    ensures DigitValue(c) == Some(d)
  {
    if d < 10 then ('0' as int + d) as char else ('a' as int + d - 10) as char
  }

  lemma DivShrinks(n: nat, radix: int)
    requires MinRadix <= radix <= n
    ensures 0 <= n / radix < n && 0 <= n % radix < radix
  {
  }

  /** The radix numeral of a natural number, without leading zeros (the printer parse inverts). */
  function ToDigits(n: nat, radix: int): (s: string)
    requires MinRadix <= radix <= MaxRadix
    ensures s != [] && AllDigits(s, radix) && s[0] != '-' && s[0] != '+'
    decreases n
  {
    if n < radix then [DigitChar(n)]
    else
      DivShrinks(n, radix);
      var front := ToDigits(n / radix, radix);
      var t := front + [DigitChar(n % radix)];
      assert forall i | 0 <= i < |t| :: t[i] == if i < |front| then front[i] else DigitChar(n % radix);
      t
  }

  /** The numeral of any integer: a '-' for negatives, then the digits of the magnitude. */
  function Emit(n: int, radix: int): string
    requires MinRadix <= radix <= MaxRadix
  {
    if n < 0 then "-" + ToDigits(-n, radix) else ToDigits(n, radix)
  }

  lemma {:induction false} ToDigitsValue(n: nat, radix: int)
    requires MinRadix <= radix <= MaxRadix
    ensures DigitsValue(ToDigits(n, radix), radix) == n
    decreases n
  {
    if n >= radix {
      DivShrinks(n, radix);
      var q, d := n / radix, n % radix;
      ToDigitsValue(q, radix);
      DigitsValueSnoc(ToDigits(q, radix), DigitChar(d), radix);
      DivMod(n, radix);
    }
  }

  /** Appending one digit multiplies the value by the radix and adds the digit. */
  lemma DigitsValueSnoc(t: string, c: char, radix: int)
    requires MinRadix <= radix <= MaxRadix && AllDigits(t, radix) && Digit(c, radix).Some?
    ensures AllDigits(t + [c], radix)
    ensures DigitsValue(t + [c], radix) == DigitsValue(t, radix) * radix + Digit(c, radix).value
  {
    assert (t + [c])[..|t|] == t;
    assert forall i :: 0 <= i < |t| ==> (t + [c])[i] == t[i];
  }

  lemma DivMod(n: nat, radix: int)
    requires MinRadix <= radix
    ensures (n / radix) * radix + n % radix == n
  {
  }

  /** Parsing inverts printing, in every radix and for every integer. */
  lemma ParseEmit(n: int, radix: int)
    requires MinRadix <= radix <= MaxRadix
    ensures Parse(Some(Emit(n, radix)), radix) == Ok(Some(n))
  {
    if n < 0 {
      assert Magnitude(Emit(n, radix)) == ToDigits(-n, radix);
      ToDigitsValue(-n, radix);
    } else {
      ToDigitsValue(n, radix);
    }
  }

  /** A character that is not a digit of the radix, after the sign, makes parse fail. */
  lemma ParseRejectsNonDigit(text: string, radix: int, i: nat)
    requires i < |Magnitude(text)| && Digit(Magnitude(text)[i], radix).None?
    ensures Parse(Some(text), radix).Err?
  {
  }

  /** A successful parse reads a non-empty digit string whose value is the magnitude. */
  lemma ParseOk(text: string, radix: int)
    requires Parse(Some(text), radix).Ok?
    ensures MinRadix <= radix <= MaxRadix && Magnitude(text) != []
    ensures AllDigits(Magnitude(text), radix)
    ensures var v: int := DigitsValue(Magnitude(text), radix);
      Parse(Some(text), radix).value == Some(if text[0] == '-' then -v else v)
  {
  }

  lemma TwoDigitsValue(a: char, b: char, radix: int)
    requires MinRadix <= radix <= MaxRadix && Digit(a, radix).Some? && Digit(b, radix).Some?
    ensures AllDigits([a, b], radix)
    ensures DigitsValue([a, b], radix) == Digit(a, radix).value * radix + Digit(b, radix).value
  {
    assert [a][..0] == [];
    DigitsValueSnoc([a], b, radix);
    assert [a] + [b] == [a, b];
  }

  /** A non-empty digit string without a sign parses to its value. */
  lemma ParseDigits(t: string, radix: int)
    requires MinRadix <= radix <= MaxRadix && t != [] && AllDigits(t, radix)
    ensures Parse(Some(t), radix) == Ok(Some(DigitsValue(t, radix) as int))
  {
    assert Digit(t[0], radix).Some?;
  }

  lemma ParseTestCases()
    ensures ParseDecimal(None) == Ok(None)
    ensures ParseDecimal(Some("test")).Err?
    ensures ParseDecimal(Some("123")) == Ok(Some(123))
    ensures Parse(Some("FF"), 16) == Ok(Some(255))
  {
    ParseRejectsNonDigit("test", 10, 0);
    TwoDigitsValue('1', '2', 10);
    DigitsValueSnoc("12", '3', 10);
    assert "12" + ['3'] == "123";
    ParseDigits("123", 10);
    TwoDigitsValue('F', 'F', 16);
    ParseDigits("FF", 16);
  }
}
