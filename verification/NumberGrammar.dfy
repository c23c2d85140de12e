/** The two floating-point recognisers behind `parseNumber`, over the grammars of strtod
    (section 7.22.1.3 of ISO C11, "C" locale) and of std::from_chars with chars_format::general
    (section 20.19.3 of ISO C++20). */
module NumberGrammar {
  import opened Options
  import TextSplit

  // ---------------------------------------------------------------- the grammar

  predicate IsHexDigit(c: char) {
    TextSplit.IsDigit(c) || 'a' <= c <= 'f' || 'A' <= c <= 'F'
  }

  /** isspace() in the "C" locale. */
  predicate IsSpace(c: char) {
    c == ' ' || c == '\t' || c == '\n' || c == '\U{000B}' || c == '\U{000C}' || c == '\r'
  }

  predicate IsWordChar(c: char) {
    TextSplit.IsDigit(c) || 'a' <= c <= 'z' || 'A' <= c <= 'Z' || c == '_'
  }

  predicate AllOf(s: string, ok: char -> bool) {
    forall i :: 0 <= i < |s| ==> ok(s[i])
  }

  /** Digits with at most one radix character among them, and at least one digit. */
  predicate IsMantissaSplit(s: string, dot: int, digit: char -> bool) {
    if dot == |s| then |s| > 0 && AllOf(s, digit)
    else 0 <= dot < |s| && s[dot] == '.' && |s| > 1 && AllOf(s[..dot], digit) && AllOf(s[dot + 1..], digit)
  }

  ghost predicate IsMantissa(s: string, digit: char -> bool) {
    exists dot :: IsMantissaSplit(s, dot, digit)
  }

  /** An optional exponent part after the marker `lower` or `upper`. */
  predicate IsExponent(s: string, lower: char, upper: char) {
    s == "" ||
    ((s[0] == lower || s[0] == upper) &&
     var sign := if |s| > 1 && (s[1] == '+' || s[1] == '-') then 2 else 1;
     |s| > sign && AllOf(s[sign..], TextSplit.IsDigit))
  }

  ghost predicate IsDecimalSplit(s: string, i: int) {
    0 <= i <= |s| && IsMantissa(s[..i], TextSplit.IsDigit) && IsExponent(s[i..], 'e', 'E')
  }

  ghost predicate IsDecimal(s: string) {
    exists i :: IsDecimalSplit(s, i)
  }

  predicate HasHexPrefix(s: string) {
    |s| > 1 && s[0] == '0' && (s[1] == 'x' || s[1] == 'X')
  }

  ghost predicate IsHexSplit(s: string, i: int) {
    HasHexPrefix(s) && 2 <= i <= |s| && IsMantissa(s[2..i], IsHexDigit) && IsExponent(s[i..], 'p', 'P')
  }

  ghost predicate IsHex(s: string) {
    exists i :: IsHexSplit(s, i)
  }

  function Lower(c: char): char {
    if 'A' <= c <= 'Z' then c - 'A' + 'a' else c
  }

  predicate EqualsIgnoringCase(s: string, word: string) {
    |s| == |word| && forall i :: 0 <= i < |s| ==> Lower(s[i]) == word[i]
  }

  predicate IsInfinity(s: string) {
    EqualsIgnoringCase(s, "inf") || EqualsIgnoringCase(s, "infinity")
  }

  predicate IsNan(s: string) {
    |s| >= 3 && EqualsIgnoringCase(s[..3], "nan") &&
    (|s| == 3 || (|s| >= 5 && s[3] == '(' && s[|s| - 1] == ')' && AllOf(s[4..|s| - 1], IsWordChar)))
  }

  /** What may follow the sign. */
  ghost predicate IsBody(s: string, hex: bool) {
    IsDecimal(s) || (hex && IsHex(s)) || IsInfinity(s) || IsNan(s)
  }

  /** strtod's subject sequence. */
  ghost predicate IsStrtodSubject(s: string) {
    IsBody(s, true) || (|s| > 0 && (s[0] == '+' || s[0] == '-') && IsBody(s[1..], true))
  }

  /** The pattern of from_chars: the only sign is a minus, and there is no hexadecimal form. */
  ghost predicate IsFromCharsPattern(s: string) {
    IsBody(s, false) || (|s| > 0 && s[0] == '-' && IsBody(s[1..], false))
  }

  // ---------------------------------------------------------------- the library functions

  /** The length of the longest non-empty prefix in the language, or 0. */
  ghost function LongestPrefix(s: string, lang: string -> bool): (n: nat)
    ensures n <= |s| && (n > 0 ==> lang(s[..n]))
    ensures forall m :: n < m <= |s| ==> !lang(s[..m])
  {
    LongestUpTo(s, lang, |s|)
  }

  ghost function LongestUpTo(s: string, lang: string -> bool, bound: nat): (n: nat)
    requires bound <= |s|
    ensures n <= bound && (n > 0 ==> lang(s[..n]))
    ensures forall m :: n < m <= bound ==> !lang(s[..m])
  {
    if bound == 0 || lang(s[..bound]) then bound else LongestUpTo(s, lang, bound - 1)
  }

  function LeadingSpaces(s: string): (n: nat)
    ensures n <= |s| && forall i :: 0 <= i < n ==> IsSpace(s[i])
    ensures n < |s| ==> !IsSpace(s[n])
  {
    if s == "" || !IsSpace(s[0]) then 0 else 1 + LeadingSpaces(s[1..])
  }

  /** Where strtod's end pointer goes: the start of the text when nothing is converted. */
  ghost function StrtodEnd(text: string): (end: nat)
    ensures end <= |text|
  {
    var n := LongestPrefix(text[LeadingSpaces(text)..], (s: string) => IsStrtodSubject(s));
    if n == 0 then 0 else LeadingSpaces(text) + n
  }

  /** Where the pointer that from_chars returns goes; 0 reports invalid_argument. */
  ghost function FromCharsEnd(text: string): (end: nat)
    ensures end <= |text|
  {
    LongestPrefix(text, (s: string) => IsFromCharsPattern(s))
  }

  // ---------------------------------------------------------------- the source's functions

  function HasFromCharsPrefix(text: string): bool {
    var digits := if |text| > 0 && text[0] == '-' then 1 else 0;
    if |text| <= digits then false
    else if IsSpace(text[digits]) || text[digits] == '+' then false
    else !(|text| > digits + 1 && text[digits] == '0' && (text[digits + 1] == 'x' || text[digits + 1] == 'X'))
  }

  /** `value` and `outOfRange` are the library's conversion of a matched sequence; the two
      functions share them. */
  ghost function ParseFloatingViaStrtod<V>(text: string, value: string -> V, outOfRange: string -> bool): Option<V> {
    if !HasFromCharsPrefix(text) then None
    else if StrtodEnd(text) != |text| || outOfRange(text[LeadingSpaces(text)..]) then None
    else Some(value(text[LeadingSpaces(text)..]))
  }

  ghost function ParseFloatingViaFromChars<V>(text: string, value: string -> V, outOfRange: string -> bool): Option<V> {
    var end := FromCharsEnd(text);
    if end == 0 || outOfRange(text[..end]) || end != |text| then None
    else Some(value(text[..end]))
  }

  // ---------------------------------------------------------------- the languages apart

  /** The characters that can open a body. */
  predicate OpensBody(c: char) {
    TextSplit.IsDigit(c) || c == '.' || Lower(c) == 'i' || Lower(c) == 'n'
  }

  lemma MantissaOpens(s: string, dot: int, digit: char -> bool)
    requires IsMantissaSplit(s, dot, digit)
    ensures |s| > 0 && (s[0] == '.' || digit(s[0]))
  {
    if 0 < dot < |s| {
      assert s[..dot][0] == s[0];
    }
  }

  lemma DecimalChars(s: string, i: int)
    requires IsDecimalSplit(s, i)
    ensures |s| > 0 && (s[0] == '.' || TextSplit.IsDigit(s[0])) && !HasHexPrefix(s)
  {
    var dot :| IsMantissaSplit(s[..i], dot, TextSplit.IsDigit);
    MantissaOpens(s[..i], dot, TextSplit.IsDigit);
    if |s| > 1 && i > 1 {
      assert s[..i][1] == s[1];
      if dot == i {
        assert TextSplit.IsDigit(s[1]);
      } else if dot > 1 {
        assert s[..i][..dot][1] == s[1];
      } else if dot == 0 {
        assert s[..i][1..][0] == s[1];
      }
    }
  }

  /** No body starts with white space or a sign, and only a hexadecimal one with 0x. */
  lemma BodyOpens(s: string, hex: bool)
    requires IsBody(s, hex)
    ensures |s| > 0 && OpensBody(s[0])
    ensures HasHexPrefix(s) <==> IsHex(s)
    ensures HasHexPrefix(s) ==> hex
  {
    if IsDecimal(s) {
      var i :| IsDecimalSplit(s, i);
      DecimalChars(s, i);
    } else if IsNan(s) {
      assert s[..3][0] == s[0];
      assert Lower(s[0]) == 'n';
    } else if IsInfinity(s) {
      assert Lower(s[0]) == 'i';
    }
  }

  lemma OpeningCharacters(c: char)
    requires OpensBody(c)
    ensures !IsSpace(c) && c != '+' && c != '-'
  {
  }

  /** strtod consumes a whole non-empty text exactly when the text past its leading white space
      is a subject sequence; it also "consumes" the empty text, without converting anything. */
  lemma StrtodConsumesWhole(text: string)
    ensures StrtodEnd(text) == |text| <==>
      text == "" || IsStrtodSubject(text[LeadingSpaces(text)..])
  {
    var rest := text[LeadingSpaces(text)..];
    assert rest[..|rest|] == rest;
    if rest == "" {
      if IsStrtodSubject(rest) {
        BodyOpens(rest, true);
        assert false;
      }
    }
  }

  lemma FromCharsConsumesWhole(text: string)
    ensures FromCharsEnd(text) == |text| > 0 <==> IsFromCharsPattern(text)
  {
    assert text[..|text|] == text;
    if IsFromCharsPattern(text) {
      if IsBody(text, false) {
        BodyOpens(text, false);
      }
    }
  }

  /** The text after a leading minus. */
  function Unsigned(text: string): string {
    if |text| > 0 && text[0] == '-' then text[1..] else text
  }

  /** A body without a hexadecimal prefix is a body of from_chars. */
  lemma BodyWithoutHex(s: string)
    ensures IsBody(s, true) && !HasHexPrefix(s) <==> IsBody(s, false)
  {
    if IsBody(s, true) {
      BodyOpens(s, true);
    }
    if IsBody(s, false) {
      BodyOpens(s, false);
    }
  }

  /** What the prefix check refuses, spelled out. */
  lemma PrefixCheckMeans(text: string)
    ensures HasFromCharsPrefix(text) <==>
      var u := Unsigned(text);
      u != "" && !IsSpace(u[0]) && u[0] != '+' && !HasHexPrefix(u)
  {
  }

  lemma SignedSubject(text: string)
    requires |text| > 0 && text[0] == '-'
    ensures IsStrtodSubject(text) <==> IsBody(text[1..], true)
    ensures IsFromCharsPattern(text) <==> IsBody(text[1..], false)
  {
    if IsBody(text, true) {
      BodyOpens(text, true);
      assert false;
    }
    if IsBody(text, false) {
      BodyOpens(text, false);
      assert false;
    }
  }

  /** Of the texts that strtod consumes whole, the prefix check keeps exactly those that
      from_chars consumes whole: it removes leading white space, a plus sign, the hexadecimal
      form and the empty text, and nothing else. */
  lemma PrefixCheckIsExact(text: string)
    ensures HasFromCharsPrefix(text) && StrtodEnd(text) == |text| <==> FromCharsEnd(text) == |text| > 0
    ensures HasFromCharsPrefix(text) && StrtodEnd(text) == |text| ==> LeadingSpaces(text) == 0
  {
    StrtodConsumesWhole(text);
    FromCharsConsumesWhole(text);
    PrefixCheckMeans(text);
    var u := Unsigned(text);
    if u != "" && IsBody(u, false) {
      BodyOpens(u, false);
      OpeningCharacters(u[0]);
    }
    BodyWithoutHex(u);
    if |text| > 0 && text[0] == '-' {
      assert text[0..] == text;
      SignedSubject(text);
    } else if HasFromCharsPrefix(text) {
      UnsignedWhole(text);
    }
  }

  /** Exactly what strtod would take whole and the prefix check throws out. */
  lemma WhatThePrefixCheckRemoves(text: string)
    ensures StrtodEnd(text) == |text| && !HasFromCharsPrefix(text) <==>
      text == "" ||
      (IsStrtodSubject(text[LeadingSpaces(text)..]) &&
       (LeadingSpaces(text) > 0 || text[0] == '+' || HasHexPrefix(Unsigned(text))))
  {
    StrtodConsumesWhole(text);
    PrefixCheckMeans(text);
    if text != "" && LeadingSpaces(text) == 0 {
      assert text[0..] == text;
      if text[0] == '-' {
        SignedSubject(text);
        if IsBody(text[1..], true) {
          BodyOpens(text[1..], true);
          OpeningCharacters(text[1]);
        }
      }
    }
  }

  lemma UnsignedWhole(text: string)
    requires text == "" || text[0] != '-'
    requires HasFromCharsPrefix(text)
    ensures LeadingSpaces(text) == 0 && text[0..] == text
    ensures IsStrtodSubject(text) <==> IsBody(text, true)
    ensures IsFromCharsPattern(text) <==> IsBody(text, false)
  {
  }

  /** The fallback and the reference agree on every text, value for value. */
  lemma RecognisersAgree<V>(text: string, value: string -> V, outOfRange: string -> bool)
    ensures ParseFloatingViaStrtod(text, value, outOfRange) == ParseFloatingViaFromChars(text, value, outOfRange)
  {
    PrefixCheckIsExact(text);
    assert text[..|text|] == text;
    if LeadingSpaces(text) == 0 {
      assert text[0..] == text;
    }
  }

  /** And both accept exactly the texts of the from_chars pattern whose value is in range. */
  lemma AcceptedTexts<V>(text: string, value: string -> V, outOfRange: string -> bool)
    ensures ParseFloatingViaStrtod(text, value, outOfRange) ==
            if IsFromCharsPattern(text) && !outOfRange(text) then Some(value(text)) else None
  {
    RecognisersAgree(text, value, outOfRange);
    FromCharsConsumesWhole(text);
    assert text[..|text|] == text;
  }

  /** The infinities are numbers to both recognisers, by name. */
  lemma InfinityIsANumber<V>(value: string -> V, outOfRange: string -> bool)
    requires !outOfRange("inf")
    ensures ParseFloatingViaFromChars("inf", value, outOfRange) == Some(value("inf"))
  {
    assert IsInfinity("inf");
    assert IsFromCharsPattern("inf");
    AcceptedTexts("inf", value, outOfRange);
    RecognisersAgree("inf", value, outOfRange);
  }

  predicate AreDigits(s: string) {
    s != "" && AllOf(s, TextSplit.IsDigit)
  }

  /** The shapes of a plain number: digits, with a point before, among or after them, and perhaps
      an exponent of either case, with or without a sign of its own. */
  lemma PlainNumbers(whole: string, part: string, power: string, marker: char, sign: string)
    requires AreDigits(whole) && AreDigits(part) && AreDigits(power)
    requires (marker == 'e' || marker == 'E') && (sign == "" || sign == "+" || sign == "-")
    ensures IsFromCharsPattern(whole) && IsFromCharsPattern("-" + whole)
    ensures IsFromCharsPattern(whole + ".") && IsFromCharsPattern("." + part)
    ensures IsFromCharsPattern(whole + "." + part)
    ensures IsFromCharsPattern(whole + "." + part + ([marker] + sign + power))
  {
    PointIsMantissa(whole, "");
    PointIsMantissa("", part);
    PointIsMantissa(whole, part);
    assert IsMantissaSplit(whole, |whole|, TextSplit.IsDigit);
    MantissaIsDecimal(whole, "");
    MantissaIsDecimal(whole + "." + "", "");
    MantissaIsDecimal("" + "." + part, "");
    MantissaIsDecimal(whole + "." + part, "");
    assert ("-" + whole)[1..] == whole;
    assert whole + "" == whole && whole + "." + "" + "" == whole + "." && "" + "." + part + "" == "." + part;
    assert whole + "." + part + "" == whole + "." + part;
    PowerIsExponent(power, marker, sign);
    MantissaIsDecimal(whole + "." + part, [marker] + sign + power);
  }

  lemma PowerIsExponent(power: string, marker: char, sign: string)
    requires AreDigits(power) && (marker == 'e' || marker == 'E') && (sign == "" || sign == "+" || sign == "-")
    ensures IsExponent([marker] + sign + power, 'e', 'E')
  {
    var s := [marker] + sign + power;
    assert s[0] == marker && s[1 + |sign|..] == power;
    if sign == "" {
      assert s[1] == power[0];
    } else {
      assert s[1] == sign[0];
    }
  }

  lemma PointIsMantissa(whole: string, part: string)
    requires whole + part != "" && AllOf(whole, TextSplit.IsDigit) && AllOf(part, TextSplit.IsDigit)
    ensures IsMantissa(whole + "." + part, TextSplit.IsDigit)
  {
    var s := whole + "." + part;
    assert s[..|whole|] == whole && s[|whole| + 1..] == part;
    assert IsMantissaSplit(s, |whole|, TextSplit.IsDigit);
  }

  lemma MantissaIsDecimal(mantissa: string, exponent: string)
    requires IsMantissa(mantissa, TextSplit.IsDigit) && IsExponent(exponent, 'e', 'E')
    ensures IsDecimal(mantissa + exponent)
  {
    var s := mantissa + exponent;
    assert s[..|mantissa|] == mantissa && s[|mantissa|..] == exponent;
    assert IsDecimalSplit(s, |mantissa|);
  }

  /** The numbers that are words, in either case. */
  lemma NamedNumbers()
    ensures IsFromCharsPattern("inf") && IsFromCharsPattern("-INF") && IsFromCharsPattern("Infinity")
    ensures IsFromCharsPattern("nan") && IsFromCharsPattern("NaN") && IsFromCharsPattern("-nan(1_a)")
  {
    assert IsInfinity("inf") && IsInfinity("-INF"[1..]) && IsInfinity("Infinity");
    assert IsNan("nan") && IsNan("NaN");
    NanWithPayload("1_a");
    assert "-nan(1_a)"[1..] == "nan(" + "1_a" + ")";
  }

  lemma NanWithPayload(payload: string)
    requires AllOf(payload, IsWordChar)
    ensures IsNan("nan(" + payload + ")")
  {
    var s := "nan(" + payload + ")";
    assert s[..3] == "nan" && s[4..|s| - 1] == payload;
  }

  /** The hexadecimal form, which strtod alone reads. */
  lemma HexNumbers(digits: string, power: string)
    requires digits != "" && AllOf(digits, IsHexDigit) && AreDigits(power)
    ensures IsStrtodSubject("0x" + digits + ("p-" + power)) && !HasFromCharsPrefix("0x" + digits + ("p-" + power))
  {
    var s := "0x" + digits + ("p-" + power);
    assert ("p-" + power)[2..] == power;
    assert IsMantissaSplit(digits, |digits|, IsHexDigit);
    HexAt(s, digits, "p-" + power);
  }

  lemma HexAt(s: string, digits: string, exponent: string)
    requires s == "0x" + digits + exponent && IsMantissa(digits, IsHexDigit) && IsExponent(exponent, 'p', 'P')
    ensures IsHex(s)
  {
    assert HasHexPrefix(s);
    var i := 2 + |digits|;
    assert s[2..i] == digits && s[i..] == exponent;
    assert IsHexSplit(s, i);
  }

  /** The white space that strtod skips: tab to carriage return, and the blank. */
  lemma WhiteSpaceIs(c: char)
    ensures IsSpace(c) <==> c as int in {9, 10, 11, 12, 13, 32}
  {
  }

  /** What a number can end in: so an exponent needs digits. */
  predicate MayEnd(c: char) {
    TextSplit.IsDigit(c) || c == '.' || c == ')' || Lower(c) == 'f' || Lower(c) == 'y' || Lower(c) == 'n'
  }

  lemma DecimalEnds(s: string, i: int)
    requires IsDecimalSplit(s, i)
    ensures s != "" && (TextSplit.IsDigit(s[|s| - 1]) || s[|s| - 1] == '.')
  {
    var dot :| IsMantissaSplit(s[..i], dot, TextSplit.IsDigit);
    if i == |s| {
      assert s[..i] == s;
    } else {
      assert s[i..][|s| - i - 1] == s[|s| - 1];
    }
  }

  lemma NumbersEnd(s: string)
    requires IsFromCharsPattern(s)
    ensures s != "" && MayEnd(s[|s| - 1])
  {
    if IsBody(s, false) {
      BodyEnds(s);
    } else {
      BodyEnds(s[1..]);
    }
  }

  lemma BodyEnds(s: string)
    requires IsBody(s, false)
    ensures s != "" && MayEnd(s[|s| - 1])
  {
    if IsDecimal(s) {
      var i :| IsDecimalSplit(s, i);
      DecimalEnds(s, i);
    } else if IsNan(s) {
      assert |s| == 3 ==> s[..3] == s;
    }
  }

  /** An exponent without digits is no number. */
  lemma ExponentNeedsDigits(mantissa: string)
    ensures !IsFromCharsPattern(mantissa + "e") && !IsFromCharsPattern(mantissa + "e-")
  {
    if IsFromCharsPattern(mantissa + "e") {
      NumbersEnd(mantissa + "e");
    }
    if IsFromCharsPattern(mantissa + "e-") {
      NumbersEnd(mantissa + "e-");
    }
  }
}
