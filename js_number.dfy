/** `isNaN` applied to a string, as the action applies it to the first
    piece of a ref. `isNaN(s)` converts `s` with ToNumber, which parses the
    StringNumericLiteral grammar of ECMA-262 (section 7.1.4.1.1,
    StringToNumber) and yields NaN exactly when that parse fails. The
    grammar is recognised here left to right by a finite automaton. */
module JsNumber {
  import opened Wrappers

  /** The Zs (space separator) characters of Unicode. */
  predicate IsSpaceSeparator(c: char) {
    c == ' ' || c == '\U{00A0}' || c == '\U{1680}' || ('\U{2000}' <= c <= '\U{200A}')
    || c == '\U{202F}' || c == '\U{205F}' || c == '\U{3000}'
  }

  /** StrWhiteSpaceChar: WhiteSpace or LineTerminator. */
  predicate IsStrWhiteSpaceChar(c: char) {
    c == '\t' || c == '\U{000B}' || c == '\U{000C}' || c == '\U{FEFF}' || IsSpaceSeparator(c)
    || c == '\n' || c == '\r' || c == '\U{2028}' || c == '\U{2029}'
  }

  predicate IsDecimalDigit(c: char) {
    '0' <= c <= '9'
  }

  predicate IsSign(c: char) {
    c == '+' || c == '-'
  }

  predicate IsExponentIndicator(c: char) {
    c == 'e' || c == 'E'
  }

  /** A digit of a `0b` (radix 2), `0o` (radix 8) or `0x` (radix 16) literal. */
  predicate IsRadixDigit(c: char, radix: nat) {
    if radix == 2 then c == '0' || c == '1'
    else if radix == 8 then '0' <= c <= '7'
    else IsDecimalDigit(c) || ('a' <= c <= 'f') || ('A' <= c <= 'F')
  }

  const Infinity: string := "Infinity"

  /** Where the recogniser is in the grammar after a prefix of the input. */
  datatype Position =
    | Leading                  // only white space so far
    | Signed                   // after a leading `+` or `-`
    | Zero                     // an unsigned `0`: decimal, or the start of `0b`/`0o`/`0x`
    | Digits                   // DecimalDigits
    | PointAfterDigits         // DecimalDigits `.`
    | LonePoint                // `.` with no digit before it
    | Fraction                 // digits after the point
    | ExponentMark             // after `e` or `E`
    | ExponentSign             // after the exponent's sign
    | ExponentDigits           // digits of the exponent
    | RadixPrefix(radix: nat)  // `0b`, `0o` or `0x`
    | RadixDigits(radix: nat)  // digits after that prefix
    | InInfinity(matched: nat) // the first `matched` letters of `Infinity`
    | Trailing                 // white space after a complete literal

  /** The positions where the input read so far is a StringNumericLiteral. */
  predicate IsComplete(p: Position) {
    p.Leading? || p.Zero? || p.Digits? || p.PointAfterDigits? || p.Fraction? ||
    p.ExponentDigits? || p.RadixDigits? || p.Trailing? || p == InInfinity(|Infinity|)
  }

  /** The position after reading `c` at `p`, or `None` when no
      StringNumericLiteral continues that way. */
  function Step(p: Position, c: char): Option<Position> {
    match p
    case Leading =>
      if IsStrWhiteSpaceChar(c) then Some(Leading)
      else if IsSign(c) then Some(Signed)
      else if c == '0' then Some(Zero)
      else if IsDecimalDigit(c) then Some(Digits)
      else if c == '.' then Some(LonePoint)
      else if c == Infinity[0] then Some(InInfinity(1))
      else None
    case Signed =>
      if IsDecimalDigit(c) then Some(Digits)
      else if c == '.' then Some(LonePoint)
      else if c == Infinity[0] then Some(InInfinity(1))
      else None
    case Zero =>
      if c == 'b' || c == 'B' then Some(RadixPrefix(2))
      else if c == 'o' || c == 'O' then Some(RadixPrefix(8))
      else if c == 'x' || c == 'X' then Some(RadixPrefix(16))
      else AfterDigits(c)
    case Digits => AfterDigits(c)
    case PointAfterDigits => AfterFractionDigit(c)
    case LonePoint => if IsDecimalDigit(c) then Some(Fraction) else None
    case Fraction => AfterFractionDigit(c)
    case ExponentMark =>
      if IsSign(c) then Some(ExponentSign)
      else if IsDecimalDigit(c) then Some(ExponentDigits)
      else None
    case ExponentSign => if IsDecimalDigit(c) then Some(ExponentDigits) else None
    case ExponentDigits =>
      if IsDecimalDigit(c) then Some(ExponentDigits)
      else if IsStrWhiteSpaceChar(c) then Some(Trailing)
      else None
    case RadixPrefix(radix) => if IsRadixDigit(c, radix) then Some(RadixDigits(radix)) else None
    case RadixDigits(radix) =>
      if IsRadixDigit(c, radix) then Some(RadixDigits(radix))
      else if IsStrWhiteSpaceChar(c) then Some(Trailing)
      else None
    case InInfinity(k) =>
      if k < |Infinity| then (if c == Infinity[k] then Some(InInfinity(k + 1)) else None)
      else if IsStrWhiteSpaceChar(c) then Some(Trailing)
      else None
    case Trailing => if IsStrWhiteSpaceChar(c) then Some(Trailing) else None
  }

  /** After one or more integer digits: more digits, the point, an exponent or the end. */
  function AfterDigits(c: char): Option<Position> {
    if IsDecimalDigit(c) then Some(Digits)
    else if c == '.' then Some(PointAfterDigits)
    else if IsExponentIndicator(c) then Some(ExponentMark)
    else if IsStrWhiteSpaceChar(c) then Some(Trailing)
    else None
  }

  /** After the point or a fraction digit: more digits, an exponent or the end. */
  function AfterFractionDigit(c: char): Option<Position> {
    if IsDecimalDigit(c) then Some(Fraction)
    else if IsExponentIndicator(c) then Some(ExponentMark)
    else if IsStrWhiteSpaceChar(c) then Some(Trailing)
    else None
  }

  /** Reading `s` from `p` ends at a position where a literal is complete. */
  predicate Accepts(p: Position, s: string)
    decreases |s|
  {
    if s == [] then IsComplete(p)
    else match Step(p, s[0])
      case None => false
      case Some(q) => Accepts(q, s[1..])
  }

  /** StringNumericLiteral: optional white space around an optional literal. */
  predicate IsStringNumericLiteral(s: string) {
    Accepts(Leading, s)
  }

  /** `isNaN(s)` for a string `s`. */
  predicate IsNaN(s: string) {
    !IsStringNumericLiteral(s)
  }

  lemma {:induction false} DigitsContinue(s: string)
    requires forall i :: 0 <= i < |s| ==> IsDecimalDigit(s[i])
    ensures Accepts(Digits, s)
    decreases |s|
  {
    if s != [] {
      DigitsContinue(s[1..]);
    }
  }

  /** A run of decimal digits, such as a pull-request number, is a number. */
  lemma DigitsAreNumbers(s: string)
    requires s != [] && forall i :: 0 <= i < |s| ==> IsDecimalDigit(s[i])
    ensures !IsNaN(s)
  {
    DigitsContinue(s[1..]);
    if s[0] == '0' {
      assert Step(Leading, s[0]) == Some(Zero);
      if |s| > 1 {
        DigitsContinue(s[2..]);
        assert Step(Zero, s[1]) == Some(Digits);
        assert s[1..][1..] == s[2..];
      }
      assert Accepts(Zero, s[1..]);
    } else {
      assert Step(Leading, s[0]) == Some(Digits);
    }
  }

  /** Empty and blank strings convert to 0, so `isNaN` calls them numbers. */
  lemma {:induction false} BlankIsNumber(s: string)
    requires forall i :: 0 <= i < |s| ==> IsStrWhiteSpaceChar(s[i])
    ensures !IsNaN(s)
    decreases |s|
  {
    if s != [] {
      BlankIsNumber(s[1..]);
    }
  }

  /** A string that opens with anything other than white space, a sign, a
      digit, a point or the `I` of `Infinity` is not a number, such as a
      branch name like `feature`. */
  lemma WordsAreNaN(s: string)
    requires s != []
    requires !IsStrWhiteSpaceChar(s[0]) && !IsSign(s[0]) && !IsDecimalDigit(s[0])
    requires s[0] != '.' && s[0] != 'I'
    ensures IsNaN(s)
  {
    assert Step(Leading, s[0]).None?;
  }

  /** `isNaN` accepts hexadecimal literals and surrounding white space. */
  lemma HexAndPaddedAreNumbers()
    ensures !IsNaN("0x1F") && !IsNaN(" 7 ")
  {
    assert Accepts(RadixDigits(16), "F");
    assert Accepts(RadixPrefix(16), "1F");
    assert Accepts(Zero, "x1F");
    assert Accepts(Trailing, " ");
    assert Accepts(Digits, "7 ");
  }

  /** Digits followed by a letter are not a number. */
  lemma TrailingLetterIsNaN()
    ensures IsNaN("12a")
  {
    assert !Accepts(Digits, "a");
    assert !Accepts(Digits, "2a");
  }
}
