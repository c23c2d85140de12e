/** Splitting text at separator characters, and decimal integers. */
module TextSplit {
  import opened Options
  import opened Sequences

  // ---------------------------------------------------------------- fields

  /** The first separator from `start` on, or the length when there is none. */
  function SeparatorFrom(s: string, sep: char -> bool, start: nat): (c: nat)
    requires start <= |s|
    ensures start <= c <= |s| && (forall i :: start <= i < c ==> !sep(s[i])) && (c < |s| ==> sep(s[c]))
    decreases |s| - start
  {
    if start == |s| || sep(s[start]) then start else SeparatorFrom(s, sep, start + 1)
  }

  function FieldsFrom(s: string, sep: char -> bool, start: nat): (r: seq<string>)
    requires start <= |s|
    ensures r != []
    decreases |s| - start
  {
    var c := SeparatorFrom(s, sep, start);
    if c == |s| then [s[start..c]] else [s[start..c]] + FieldsFrom(s, sep, c + 1)
  }

  /** The fields that separators part; there is always one more than separators. */
  function Fields(s: string, sep: char -> bool): seq<string> {
    FieldsFrom(s, sep, 0)
  }

  predicate Free(s: string, sep: char -> bool) {
    forall i :: 0 <= i < |s| ==> !sep(s[i])
  }

  function Join(tokens: seq<string>, c: char): string {
    if tokens == [] then ""
    else if |tokens| == 1 then tokens[0]
    else tokens[0] + [c] + Join(tokens[1..], c)
  }

  lemma {:induction false} SeparatorShift(before: string, s: string, sep: char -> bool, start: nat)
    requires start <= |s|
    ensures SeparatorFrom(before + s, sep, |before| + start) == |before| + SeparatorFrom(s, sep, start)
    decreases |s| - start
  {
    if start < |s| {
      assert (before + s)[|before| + start] == s[start];
      SeparatorShift(before, s, sep, start + 1);
    }
  }

  /** Text before the starting position does not matter. */
  lemma {:induction false} FieldsShift(before: string, s: string, sep: char -> bool, start: nat)
    requires start <= |s|
    ensures FieldsFrom(before + s, sep, |before| + start) == FieldsFrom(s, sep, start)
    decreases |s| - start
  {
    var c := SeparatorFrom(s, sep, start);
    SeparatorShift(before, s, sep, start);
    assert (before + s)[|before| + start..|before| + c] == s[start..c];
    if c < |s| {
      FieldsShift(before, s, sep, c + 1);
    }
  }

  lemma FieldsStep(t: string, c: char, rest: string, sep: char -> bool)
    requires Free(t, sep) && sep(c)
    ensures Fields(t + [c] + rest, sep) == [t] + Fields(rest, sep)
  {
    var before := t + [c];
    var s := before + rest;
    assert s[|t|] == c && forall i :: 0 <= i < |t| ==> s[i] == t[i];
    assert SeparatorFrom(s, sep, 0) == |t|;
    assert s[0..|t|] == t;
    FieldsShift(before, rest, sep, 0);
  }

  lemma FieldsOfOne(t: string, sep: char -> bool)
    requires Free(t, sep)
    ensures Fields(t, sep) == [t]
  {
    assert SeparatorFrom(t, sep, 0) == |t|;
    assert t[0..|t|] == t;
  }

  /** Splitting a join of separator-free texts gives them back. */
  lemma {:induction false} FieldsOfJoin(tokens: seq<string>, c: char, sep: char -> bool)
    requires tokens != [] && sep(c) && forall i :: 0 <= i < |tokens| ==> Free(tokens[i], sep)
    ensures Fields(Join(tokens, c), sep) == tokens
  {
    if |tokens| == 1 {
      FieldsOfOne(tokens[0], sep);
    } else {
      FieldsOfJoin(tokens[1..], c, sep);
      FieldsStep(tokens[0], c, Join(tokens[1..], c), sep);
    }
  }

  /** Joining the fields of any text gives the text back. */
  lemma {:induction false} JoinOfFields(s: string, c: char, sep: char -> bool, start: nat)
    requires start <= |s| && forall d :: sep(d) ==> d == c
    ensures Join(FieldsFrom(s, sep, start), c) == s[start..]
    decreases |s| - start
  {
    var k := SeparatorFrom(s, sep, start);
    if k < |s| {
      JoinOfFields(s, c, sep, k + 1);
      JoinFirst(s, c, sep, start, k);
    } else {
      JoinOnly(s, c, sep, start);
    }
  }

  lemma JoinFirst(s: string, c: char, sep: char -> bool, start: nat, k: nat)
    requires start <= k < |s| && SeparatorFrom(s, sep, start) == k && s[k] == c
    requires Join(FieldsFrom(s, sep, k + 1), c) == s[k + 1..]
    ensures Join(FieldsFrom(s, sep, start), c) == s[start..]
  {
    SplitAround(s, start, k);
    JoinCons(s[start..k], FieldsFrom(s, sep, k + 1), c);
  }

  lemma JoinOnly(s: string, c: char, sep: char -> bool, start: nat)
    requires start <= |s| && SeparatorFrom(s, sep, start) == |s|
    ensures Join(FieldsFrom(s, sep, start), c) == s[start..]
  {
    assert s[start..|s|] == s[start..];
  }

  lemma JoinCons(t: string, rest: seq<string>, c: char)
    requires rest != []
    ensures Join([t] + rest, c) == t + [c] + Join(rest, c)
  {
    assert ([t] + rest)[1..] == rest;
  }

  /** No field has a separator. */
  lemma {:induction false} FieldsAreFree(s: string, sep: char -> bool, start: nat, i: nat)
    requires start <= |s| && i < |FieldsFrom(s, sep, start)|
    ensures Free(FieldsFrom(s, sep, start)[i], sep)
    decreases |s| - start
  {
    if i > 0 {
      FieldsAreFree(s, sep, SeparatorFrom(s, sep, start) + 1, i - 1);
    }
  }

  lemma SplitAround(s: string, start: nat, k: nat)
    requires start <= k < |s|
    ensures s[start..] == s[start..k] + [s[k]] + s[k + 1..]
  {
  }

  lemma {:induction false} SeparatorInAppend(a: string, c: char, b: string, sep: char -> bool, start: nat)
    requires start <= |a| && sep(c)
    ensures SeparatorFrom(a + [c] + b, sep, start) == SeparatorFrom(a, sep, start)
    decreases |a| - start
  {
    if start < |a| {
      assert (a + [c] + b)[start] == a[start];
      SeparatorInAppend(a, c, b, sep, start + 1);
    } else {
      assert (a + [c] + b)[start] == c;
    }
  }

  /** A separator splits the fields of any text in two. */
  lemma {:induction false} FieldsOfAppend(a: string, c: char, b: string, sep: char -> bool, start: nat)
    requires start <= |a| && sep(c)
    ensures FieldsFrom(a + [c] + b, sep, start) == FieldsFrom(a, sep, start) + Fields(b, sep)
    decreases |a| - start
  {
    var s, k := a + [c] + b, SeparatorFrom(a, sep, start);
    SeparatorInAppend(a, c, b, sep, start);
    assert s[start..k] == a[start..k];
    if k < |a| {
      FieldsOfAppend(a, c, b, sep, k + 1);
      PrependAppend(a[start..k], FieldsFrom(a, sep, k + 1), Fields(b, sep));
    } else {
      assert s == (a + [c]) + b;
      FieldsShift(a + [c], b, sep, 0);
    }
  }

  lemma PrependAppend<T>(x: T, middle: seq<T>, end: seq<T>)
    ensures [x] + (middle + end) == [x] + middle + end
  {
  }

  // ---------------------------------------------------------------- words

  /** Python's `str.isspace` for one character. */
  predicate IsSpace(c: char) {
    '\t' <= c <= '\r' || '\U{001C}' <= c <= ' ' || c == '\U{0085}' || c == '\U{00A0}' || c == '\U{1680}' ||
    '\U{2000}' <= c <= '\U{200A}' || c == '\U{2028}' || c == '\U{2029}' || c == '\U{202F}' || c == '\U{205F}' ||
    c == '\U{3000}'
  }

  function NonEmpty(fields: seq<string>): seq<string> {
    if fields == [] then []
    else (if fields[0] == "" then [] else [fields[0]]) + NonEmpty(fields[1..])
  }

  /** `s.split()`: the runs of non-space characters. */
  function Words(s: string): seq<string> {
    NonEmpty(Fields(s, IsSpace))
  }

  lemma {:induction false} NonEmptyKeeps(fields: seq<string>)
    requires forall i :: 0 <= i < |fields| ==> fields[i] != ""
    ensures NonEmpty(fields) == fields
  {
    if fields != [] {
      NonEmptyKeeps(fields[1..]);
    }
  }

  /** The white space of ASCII: tab to carriage return, the four separators, and the blank. */
  lemma AsciiSpaces(c: char)
    requires c < '\U{0080}'
    ensures IsSpace(c) <==> c as int in {9, 10, 11, 12, 13, 28, 29, 30, 31, 32}
  {
  }

  lemma NonEmptyCons(x: string, rest: seq<string>)
    ensures NonEmpty([x] + rest) == (if x == "" then [] else [x]) + NonEmpty(rest)
  {
    assert ([x] + rest)[1..] == rest;
  }

  lemma {:induction false} NonEmptyAppend(a: seq<string>, b: seq<string>)
    ensures NonEmpty(a + b) == NonEmpty(a) + NonEmpty(b)
  {
    if a == [] {
      assert a + b == b;
    } else {
      var x, rest := a[0], a[1..];
      assert a == [x] + rest && a + b == [x] + (rest + b);
      NonEmptyAppend(rest, b);
      NonEmptyCons(x, rest);
      NonEmptyCons(x, rest + b);
      Associate(if x == "" then [] else [x], NonEmpty(rest), NonEmpty(b));
    }
  }

  /** White space of any kind, and any amount of it, only separates words. */
  lemma WordsOfAppend(a: string, c: char, b: string)
    requires IsSpace(c)
    ensures Words(a + [c] + b) == Words(a) + Words(b)
  {
    FieldsOfAppend(a, c, b, IsSpace, 0);
    NonEmptyAppend(Fields(a, IsSpace), Fields(b, IsSpace));
  }

  /** And a text without white space is one word, or none when it is empty. */
  lemma WordsOfOne(s: string)
    requires Free(s, IsSpace)
    ensures Words(s) == if s == "" then [] else [s]
  {
    FieldsOfOne(s, IsSpace);
    NonEmptyCons(s, []);
    assert [s] + [] == [s];
  }

  predicate IsWord(s: string) {
    s != "" && Free(s, IsSpace)
  }

  lemma WordsOfJoin(tokens: seq<string>)
    requires tokens != [] && forall i :: 0 <= i < |tokens| ==> IsWord(tokens[i])
    ensures Words(Join(tokens, ' ')) == tokens
  {
    FieldsOfJoin(tokens, ' ', IsSpace);
    NonEmptyKeeps(tokens);
  }

  // ---------------------------------------------------------------- decimal integers

  function Digit(d: int): char
    requires 0 <= d < 10
  {
    ('0' as int + d) as char
  }

  predicate IsDigit(c: char) {
    '0' <= c <= '9'
  }

  function PrintNat(n: nat): string {
    (if n < 10 then "" else PrintNat(n / 10)) + [Digit(n % 10)]
  }

  /** `str(n)`. */
  function PrintInt(n: int): string {
    if n < 0 then "-" + PrintNat(-n) else PrintNat(n)
  }

  function DigitValue(c: char): nat
    requires IsDigit(c)
  {
    c as int - '0' as int
  }

  function NatValue(s: string): nat
    requires forall i :: 0 <= i < |s| ==> IsDigit(s[i])
  {
    if s == "" then 0 else NatValue(s[..|s| - 1]) * 10 + DigitValue(s[|s| - 1])
  }

  predicate IsNumeral(s: string) {
    s != "" && forall i :: 0 <= i < |s| ==> IsDigit(s[i])
  }

  /** `int(s)` on ASCII text without underscores: an optional sign and digits. */
  function ParseInt(s: string): Option<int> {
    var signed := s != "" && (s[0] == '-' || s[0] == '+');
    var digits := if signed then s[1..] else s;
    if !IsNumeral(digits) then None
    else
      var n: int := NatValue(digits);
      Some(if s[0] == '-' then -n else n)
  }

  lemma {:induction false} NatPrintsBack(n: nat)
    ensures IsNumeral(PrintNat(n)) && NatValue(PrintNat(n)) == n
  {
    var s := PrintNat(n);
    if n >= 10 {
      NatPrintsBack(n / 10);
      assert s[..|s| - 1] == PrintNat(n / 10);
    } else {
      assert s[..0] == "";
    }
  }

  /** Integers of any size and sign survive printing and parsing. */
  lemma IntPrintsBack(n: int)
    ensures ParseInt(PrintInt(n)) == Some(n)
  {
    NatPrintsBack(if n < 0 then -n else n);
    if n < 0 {
      assert PrintInt(n)[1..] == PrintNat(-n);
    }
  }

  lemma {:induction false} LeadingZero(digits: string)
    requires IsNumeral(digits)
    ensures IsNumeral("0" + digits) && NatValue("0" + digits) == NatValue(digits)
  {
    var s, last := "0" + digits, |digits| - 1;
    assert s[..|s| - 1] == "0" + digits[..last];
    if last == 0 {
      assert "0" + digits[..last] == "0" && "0"[..0] == "";
    } else {
      LeadingZero(digits[..last]);
    }
  }

  /** A plus sign and leading zeros do not change an integer, and a minus sign negates it. */
  lemma SignsAndZeros(digits: string)
    requires IsNumeral(digits)
    ensures ParseInt(digits).Some? && ParseInt("+" + digits) == ParseInt(digits)
    ensures ParseInt("0" + digits) == ParseInt(digits)
    ensures ParseInt("-" + digits) == Some(-ParseInt(digits).value)
  {
    LeadingZero(digits);
    assert ("+" + digits)[1..] == digits && ("-" + digits)[1..] == digits;
    assert ("0" + digits)[0] == '0' && IsDigit(digits[0]);
  }

  predicate IntChar(c: char) {
    IsDigit(c) || c == '-'
  }

  lemma IntChars(n: int)
    ensures PrintInt(n) != "" && forall i :: 0 <= i < |PrintInt(n)| ==> IntChar(PrintInt(n)[i])
  {
    NatPrintsBack(if n < 0 then -n else n);
  }

  lemma IntIsWord(n: int)
    ensures IsWord(PrintInt(n)) && Fields(PrintInt(n), (c: char) => c == '/') == [PrintInt(n)]
  {
    IntChars(n);
    FieldsOfOne(PrintInt(n), (c: char) => c == '/');
  }
}
