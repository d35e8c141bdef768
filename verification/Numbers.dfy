/** Number syntax: the C library's `strtol` as the server uses it, and number printing. */
module Numbers {
  import opened Octets

  const INT32_MAX := 0x7FFF_FFFF
  const LONG_MAX := 0x7FFF_FFFF_FFFF_FFFF

  // incs/RequestContext.hpp
  const CONTENT_LENGTH_INVALID := -2
  const CONTENT_LENGTH_TOO_LARGE := -1

  /** Two's complement wrap-around of int32_t. */
  function Int32(n: int): (r: int)
    ensures -0x8000_0000 <= r <= INT32_MAX
    ensures -0x8000_0000 <= n <= INT32_MAX ==> r == n
  {
    (n + 0x8000_0000) % 0x1_0000_0000 - 0x8000_0000
  }

  predicate IsSpace(c: char) {
    c == ' ' || '\t' <= c <= '\r'
  }

  /** The radix of a number, as `strtol` takes it; kept apart so that scaling stays linear. */
  datatype Radix = Decimal | Hexadecimal {
    function Base(): (b: nat)
      ensures 2 <= b <= 16
    {
      if this.Decimal? then 10 else 16
    }

    function Scale(v: nat): (r: nat) {
      if this.Decimal? then 10 * v else 16 * v
    }

    function Rest(n: nat): (r: nat)
      ensures n >= Base() ==> r < n
      ensures n < Base() ==> r == 0
    {
      if this.Decimal? then n / 10 else n / 16
    }

    function Last(n: nat): (r: nat)
      ensures r < Base()
      ensures n == Scale(Rest(n)) + r
    {
      if this.Decimal? then n % 10 else n % 16
    }
  }

  /** Value of a digit, -1 for any other character. */
  function Digit(c: char, radix: Radix): (d: int)
    ensures -1 <= d < radix.Base()
  {
    var d := if '0' <= c <= '9' then c as int - '0' as int
             else if 'a' <= c <= 'f' then c as int - 'a' as int + 10
             else if 'A' <= c <= 'F' then c as int - 'A' as int + 10
             else -1;
    if d < radix.Base() then d else -1
  }

  predicate AllDigits(s: octets, radix: Radix) {
    forall k :: 0 <= k < |s| ==> Digit(s[k], radix) >= 0
  }

  predicate IsNumeral(s: octets, radix: Radix) {
    s != "" && AllDigits(s, radix)
  }

  /** Value of a digit string, most significant digit first. */
  function Value(s: octets, radix: Radix): (v: nat)
    requires AllDigits(s, radix)
  {
    if s == "" then 0 else radix.Scale(Value(s[..|s| - 1], radix)) + Digit(s[|s| - 1], radix)
  }

  /** `c_str()`: the string as C sees it, up to its first NUL. */
  function CString(s: octets): (r: octets)
    ensures r <= s && '\0' !in r
    ensures r != s ==> s[|r|] == '\0'
  {
    if s == "" || s[0] == '\0' then "" else [s[0]] + CString(s[1..])
  }

  function SkipSpaces(s: octets, i: nat): (r: nat)
    requires i <= |s|
    ensures i <= r <= |s|
    ensures forall k :: i <= k < r ==> IsSpace(s[k])
    ensures r < |s| ==> !IsSpace(s[r])
    decreases |s| - i
  {
    if i < |s| && IsSpace(s[i]) then SkipSpaces(s, i + 1) else i
  }

  function SkipDigits(s: octets, i: nat, radix: Radix): (r: nat)
    requires i <= |s|
    ensures i <= r <= |s|
    ensures forall k :: i <= k < r ==> Digit(s[k], radix) >= 0
    ensures r < |s| ==> Digit(s[r], radix) < 0
    decreases |s| - i
  {
    if i < |s| && Digit(s[i], radix) >= 0 then SkipDigits(s, i + 1, radix) else i
  }

  function SkipSign(s: octets, i: nat): (r: nat)
    requires i <= |s|
    ensures i <= r <= |s|
  {
    if i < |s| && (s[i] == '-' || s[i] == '+') then i + 1 else i
  }

  /** The `0x` that may stand before a hexadecimal digit. */
  function SkipPrefix(s: octets, j: nat, radix: Radix): (r: nat)
    requires j <= |s|
    ensures j <= r <= |s|
  {
    if radix.Hexadecimal? && j + 2 < |s| && s[j] == '0' && (s[j + 1] == 'x' || s[j + 1] == 'X')
       && Digit(s[j + 2], radix) >= 0 then j + 2 else j
  }

  function Saturated(negative: bool, v: nat): (r: int)
    ensures -LONG_MAX - 1 <= r <= LONG_MAX
  {
    if negative then (if v > LONG_MAX then -LONG_MAX - 1 else 0 - v)
    else if v > LONG_MAX then LONG_MAX else v
  }

  /** `strtol`: the value, saturated to the range of `long`, and the offset where parsing stopped. */
  function Strtol(s: octets, radix: Radix): (r: (int, nat))
    ensures r.1 <= |s|
    ensures -LONG_MAX - 1 <= r.0 <= LONG_MAX
  {
    var i := SkipSpaces(s, 0);
    var k := SkipPrefix(s, SkipSign(s, i), radix);
    var e := SkipDigits(s, k, radix);
    if e == k then (0, 0) else (Saturated(i < |s| && s[i] == '-', Value(s[k..e], radix)), e)
  }

  /** `sToContentLength` (srcs/utils.cpp). */
  function ToContentLength(str: octets, chunked: bool): (n: int)
    ensures CONTENT_LENGTH_INVALID <= n <= INT32_MAX
  {
    var c := CString(str);
    var (value, end) := Strtol(c, if chunked then Hexadecimal else Decimal);
    if end != |c| || value < 0 then CONTENT_LENGTH_INVALID
    else if value > INT32_MAX then CONTENT_LENGTH_TOO_LARGE
    else value
  }

  lemma CStringOfPlain(s: octets)
    requires '\0' !in s
    ensures CString(s) == s
  {
    var r := CString(s);
    assert |r| < |s| ==> s[|r|] != '\0';
  }

  /** A digit is neither white space, nor a sign, nor the `x` of a `0x` prefix, nor NUL. */
  lemma DigitsArePlain(s: octets, radix: Radix, k: nat)
    requires IsNumeral(s, radix) && k < |s|
    ensures Digit(s[k], radix) >= 0
    ensures !IsSpace(s[k]) && s[k] != '-' && s[k] != '+' && s[k] != 'x' && s[k] != 'X' && s[k] != '\0' && s[k] != '\r'
  {
  }

  lemma NothingSkipped(s: octets, radix: Radix)
    requires IsNumeral(s, radix)
    ensures SkipSpaces(s, 0) == 0 && SkipSign(s, 0) == 0 && SkipPrefix(s, 0, radix) == 0 && s[0] != '-'
  {
    DigitsArePlain(s, radix, 0);
    if |s| > 1 { DigitsArePlain(s, radix, 1); }
    hide Digit, IsSpace;
  }

  lemma StrtolNumeral(s: octets, radix: Radix)
    requires IsNumeral(s, radix)
    ensures Strtol(s, radix) == (if Value(s, radix) > LONG_MAX then LONG_MAX else Value(s, radix), |s|)
  {
    hide Value, Digit, SkipSpaces, SkipSign, SkipPrefix;
    NothingSkipped(s, radix);
    assert s[0..|s|] == s;
  }

  /** A numeral of any length stands for its value, or for "too large" when no int32_t holds it. */
  lemma NumeralLength(s: octets, chunked: bool)
    requires IsNumeral(s, if chunked then Hexadecimal else Decimal)
    ensures var v := Value(s, if chunked then Hexadecimal else Decimal);
            ToContentLength(s, chunked) == if v <= INT32_MAX then v else CONTENT_LENGTH_TOO_LARGE
  {
    var radix := if chunked then Hexadecimal else Decimal;
    if '\0' in s {
      var k :| 0 <= k < |s| && s[k] == '\0';
      DigitsArePlain(s, radix, k);
    }
    CStringOfPlain(s);
    StrtolNumeral(s, radix);
  }

  function DigitChar(d: nat): (c: char)
    requires d < 16
    ensures Digit(c, Hexadecimal) == d && (d < 10 ==> Digit(c, Decimal) == d)
  {
    if d < 10 then '0' + d as char else 'a' + (d - 10) as char
  }

  /** Shortest numeral of `n`, digits above 9 in lower case: the reference printer. */
  function Numeral(n: nat, radix: Radix): (s: octets)
    ensures s != ""
  {
    (if n < radix.Base() then "" else Numeral(radix.Rest(n), radix)) + [DigitChar(radix.Last(n))]
  }

  lemma ValueStep(s: octets, c: char, radix: Radix)
    requires AllDigits(s, radix)
    requires Digit(c, radix) >= 0
    ensures IsNumeral(s + [c], radix)
    ensures Value(s + [c], radix) == radix.Scale(Value(s, radix)) + Digit(c, radix)
  {
    var t := s + [c];
    assert t[..|t| - 1] == s && t[|t| - 1] == c;
  }

  /** Printing a number and reading its digits back gives the number. */
  lemma {:induction false} NumeralValue(n: nat, radix: Radix)
    ensures IsNumeral(Numeral(n, radix), radix) && Value(Numeral(n, radix), radix) == n
  {
    if n < radix.Base() {
      ValueStep("", DigitChar(radix.Last(n)), radix);
    } else {
      NumeralValue(radix.Rest(n), radix);
      ValueStep(Numeral(radix.Rest(n), radix), DigitChar(radix.Last(n)), radix);
    }
  }

  // ---- The tables of digits and spaces

  const LOWER_DIGITS: octets := "0123456789abcdef"
  const UPPER_DIGITS: octets := "0123456789ABCDEF"

  /** A digit is worth its place in one of the tables, up to the radix, and no other character is a digit. */
  lemma DigitTable(c: char, k: nat)
    requires k < 16
    ensures Digit(LOWER_DIGITS[k], Hexadecimal) == Digit(UPPER_DIGITS[k], Hexadecimal) == k
    ensures Digit(LOWER_DIGITS[k], Decimal) == Digit(UPPER_DIGITS[k], Decimal) == if k < 10 then k else -1
    ensures c !in LOWER_DIGITS && c !in UPPER_DIGITS ==> Digit(c, Hexadecimal) == Digit(c, Decimal) == -1
    ensures DigitChar(k) == LOWER_DIGITS[k]
  {
    if Digit(c, Hexadecimal) >= 0 {
      var d := Digit(c, Hexadecimal);
      assert c == LOWER_DIGITS[d] || c == UPPER_DIGITS[d];
    }
  }

  /** White space is blank, tabulator, line feed, vertical tabulator, form feed and carriage return. */
  lemma SpaceTable(c: char)
    ensures IsSpace(c) <==> c as int in {32, 9, 10, 11, 12, 13}
  {}

  lemma NumeralTable(s: octets)
    ensures IsNumeral(s, Hexadecimal) <==> s != "" && forall c <- s :: c in LOWER_DIGITS || c in UPPER_DIGITS
    ensures IsNumeral(s, Decimal) <==> s != "" && forall c <- s :: c in LOWER_DIGITS[..10]
  {
    forall c ensures Digit(c, Hexadecimal) >= 0 <==> c in LOWER_DIGITS || c in UPPER_DIGITS { InTables(c); }
    forall c ensures Digit(c, Decimal) >= 0 <==> c in LOWER_DIGITS[..10] { InTables(c); }
    hide Digit;
    assert forall c <- s :: exists k :: 0 <= k < |s| && s[k] == c;
  }

  lemma InTables(c: char)
    ensures Digit(c, Hexadecimal) >= 0 <==> c in LOWER_DIGITS || c in UPPER_DIGITS
    ensures Digit(c, Decimal) >= 0 <==> c in LOWER_DIGITS[..10]
  {
    DigitTable(c, 0);
    if k :| 0 <= k < 16 && (c == LOWER_DIGITS[k] || c == UPPER_DIGITS[k]) {
      DigitTable(c, k);
      assert k < 10 ==> LOWER_DIGITS[..10][k] == LOWER_DIGITS[k];
    }
    if k :| 0 <= k < 10 && c == LOWER_DIGITS[..10][k] { DigitTable(c, k); }
  }

  /** Values are positional: one more digit scales by the radix and adds its place in the table. */
  lemma ValueOfNext(s: octets, k: nat)
    requires k < 16
    ensures Value("", Decimal) == Value("", Hexadecimal) == 0
    ensures AllDigits(s, Hexadecimal) ==>
              && AllDigits(s + [LOWER_DIGITS[k]], Hexadecimal) && AllDigits(s + [UPPER_DIGITS[k]], Hexadecimal)
              && Value(s + [LOWER_DIGITS[k]], Hexadecimal) == Value(s + [UPPER_DIGITS[k]], Hexadecimal)
                 == 16 * Value(s, Hexadecimal) + k
    ensures AllDigits(s, Decimal) && k < 10 ==>
              AllDigits(s + [LOWER_DIGITS[k]], Decimal) && Value(s + [LOWER_DIGITS[k]], Decimal) == 10 * Value(s, Decimal) + k
  {
    DigitTable('0', k);
    hide Digit;
    if AllDigits(s, Hexadecimal) {
      ValueStep(s, LOWER_DIGITS[k], Hexadecimal);
      ValueStep(s, UPPER_DIGITS[k], Hexadecimal);
    }
    if AllDigits(s, Decimal) && k < 10 { ValueStep(s, LOWER_DIGITS[k], Decimal); }
  }

  /** `t` is the lower-case numeral `s`, with any of its letters in upper case. */
  predicate InAnyCase(t: octets, s: octets) {
    |t| == |s| && forall i :: 0 <= i < |s| ==> CaseOf(t[i], s[i])
  }

  predicate CaseOf(c: char, lower: char) {
    exists k :: 0 <= k < 16 && lower == LOWER_DIGITS[k] && (c == lower || c == UPPER_DIGITS[k])
  }

  /** A printed number is read as that number in any case, and with any zeros before it. */
  lemma {:induction false} NumeralInAnyCase(n: nat, t: octets, zeros: octets)
    requires InAnyCase(t, Numeral(n, Hexadecimal)) && forall c <- zeros :: c == '0'
    ensures IsNumeral(zeros + t, Hexadecimal) && Value(zeros + t, Hexadecimal) == n
    decreases n
  {
    var s, d := Numeral(n, Hexadecimal), Hexadecimal.Last(n);
    var m := |t| - 1;
    var front := if n < 16 then "" else Numeral(n / 16, Hexadecimal);
    assert s == front + [DigitChar(d)] && t == t[..m] + [t[m]];
    assert CaseOf(t[m], s[m]) && s[m] == DigitChar(d);
    DigitTable('0', d);
    var k :| 0 <= k < 16 && s[m] == LOWER_DIGITS[k] && (t[m] == s[m] || t[m] == UPPER_DIGITS[k]);
    DigitTable('0', k);
    hide Digit;
    if n < 16 {
      ZerosAreNothing(zeros);
      assert zeros + t == zeros + [t[m]];
      ValueStep(zeros, t[m], Hexadecimal);
    } else {
      forall i | 0 <= i < m ensures CaseOf(t[..m][i], front[i]) { assert CaseOf(t[i], s[i]) && s[i] == front[i]; }
      hide CaseOf;
      NumeralInAnyCase(n / 16, t[..m], zeros);
      Assoc(zeros, t[..m], [t[m]]);
      ValueStep(zeros + t[..m], t[m], Hexadecimal);
    }
  }

  lemma {:induction false} ZerosAreNothing(zeros: octets)
    requires forall c <- zeros :: c == '0'
    ensures AllDigits(zeros, Hexadecimal) && Value(zeros, Hexadecimal) == 0
  {
    if zeros != "" {
      var m := |zeros| - 1;
      assert zeros[m] in zeros && zeros == zeros[..m] + [zeros[m]];
      assert forall c <- zeros[..m] :: c in zeros;
      ZerosAreNothing(zeros[..m]);
      ValueStep(zeros[..m], zeros[m], Hexadecimal);
    }
  }

  /** The printer itself writes lower case. */
  lemma {:induction false} NumeralIsLower(n: nat)
    ensures InAnyCase(Numeral(n, Hexadecimal), Numeral(n, Hexadecimal))
  {
    var s, d := Numeral(n, Hexadecimal), Hexadecimal.Last(n);
    DigitTable('0', d);
    assert CaseOf(DigitChar(d), DigitChar(d));
    hide CaseOf;
    if n >= 16 {
      NumeralIsLower(n / 16);
    }
    var front := if n < 16 then "" else Numeral(n / 16, Hexadecimal);
    assert s == front + [DigitChar(d)];
    forall i | 0 <= i < |s| ensures CaseOf(s[i], s[i]) {
      if i < |front| { assert s[i] == front[i]; }
    }
  }

  // ---- What is read as a length

  /** White space, a sign, perhaps `0x`, and digits: the spellings of a number that `strtol` reads to the end. */
  predicate Spells(c: octets, radix: Radix, space: octets, sign: octets, mark: octets, digits: octets) {
    && c == space + sign + mark + digits
    && (forall k :: 0 <= k < |space| ==> IsSpace(space[k]))
    && (sign == "" || sign == "+" || sign == "-")
    && (mark == "" || (radix.Hexadecimal? && (mark == "0x" || mark == "0X")))
    && IsNumeral(digits, radix)
  }

  lemma SpaceEnds(c: octets, i: nat)
    requires i < |c| && !IsSpace(c[i]) && forall n :: 0 <= n < i ==> IsSpace(c[n])
    ensures SkipSpaces(c, 0) == i
  {
    hide IsSpace;
  }

  lemma DigitsEnd(c: octets, k: nat, radix: Radix)
    requires k <= |c| && AllDigits(c[k..], radix)
    ensures SkipDigits(c, k, radix) == |c|
  {
    hide Digit;
    assert forall n :: k <= n < |c| ==> c[n] == c[k..][n - k];
  }

  lemma MarkEnds(c: octets, j: nat, radix: Radix, mark: octets, digits: octets)
    requires j <= |c| && c[j..] == mark + digits && IsNumeral(digits, radix)
    requires mark == "" || (radix.Hexadecimal? && (mark == "0x" || mark == "0X"))
    ensures SkipPrefix(c, j, radix) == j + |mark|
  {
    var rest := c[j..];
    DigitsArePlain(digits, radix, 0);
    if |digits| > 1 { DigitsArePlain(digits, radix, 1); }
    hide Digit, IsSpace;
    assert mark == "" ==> rest == digits && (|digits| > 1 ==> c[j + 1] == digits[1]);
    assert mark != "" ==> c[j] == mark[0] && c[j + 1] == mark[1] && c[j + 2] == digits[0];
  }

  /** The character behind the white space. */
  lemma FirstBehindSpace(radix: Radix, sign: octets, mark: octets, digits: octets)
    requires sign == "" || sign == "+" || sign == "-"
    requires mark == "" || mark == "0x" || mark == "0X"
    requires IsNumeral(digits, radix)
    ensures var first := (sign + mark + digits)[0]; !IsSpace(first) && (first == '-' <==> sign == "-")
    ensures SkipSign(sign + mark + digits, 0) == |sign|
  {
    DigitsArePlain(digits, radix, 0);
    var rest := sign + mark + digits;
    assert rest[0] == if sign != "" then sign[0] else if mark != "" then mark[0] else digits[0];
  }

  lemma FourParts(a: octets, b: octets, c: octets, d: octets)
    requires d != ""
    ensures var s := a + b + c + d;
            && (forall n :: 0 <= n < |a| ==> s[n] == a[n]) && s[|a|] == (b + c + d)[0]
            && s[|a + b|..] == c + d && s[|a + b + c|..] == d == s[|a + b + c|..|s|]
  {}

  lemma SpelledSkips(c: octets, radix: Radix, space: octets, sign: octets, mark: octets, digits: octets)
    requires Spells(c, radix, space, sign, mark, digits)
    ensures SkipSpaces(c, 0) == |space| && SkipSign(c, |space|) == |space + sign|
    ensures SkipPrefix(c, |space + sign|, radix) == |space + sign + mark|
    ensures SkipDigits(c, |space + sign + mark|, radix) == |c| && c[|space + sign + mark|..|c|] == digits
    ensures c[|space|] == '-' <==> sign == "-"
  {
    hide Digit, IsSpace, SkipSpaces, SkipPrefix, SkipDigits, AllDigits;
    FirstBehindSpace(radix, sign, mark, digits);
    FourParts(space, sign, mark, digits);
    SpaceEnds(c, |space|);
    MarkEnds(c, |space + sign|, radix, mark, digits);
    DigitsEnd(c, |space + sign + mark|, radix);
  }

  lemma SpelledValue(c: octets, radix: Radix, space: octets, sign: octets, mark: octets, digits: octets)
    requires Spells(c, radix, space, sign, mark, digits)
    ensures Strtol(c, radix) == (Saturated(sign == "-", Value(digits, radix)), |c|)
  {
    SpelledSkips(c, radix, space, sign, mark, digits);
    hide Spells, Value, SkipSpaces, SkipSign, SkipPrefix, SkipDigits, Saturated;
  }

  lemma SignSkipped(c: octets, i: nat)
    requires i <= |c|
    ensures var sign := c[i..SkipSign(c, i)]; sign == "" || sign == "+" || sign == "-"
  {
    if SkipSign(c, i) == i + 1 { assert c[i..i + 1] == [c[i]]; }
  }

  lemma MarkSkipped(c: octets, j: nat, radix: Radix)
    requires j <= |c|
    ensures var mark := c[j..SkipPrefix(c, j, radix)];
            mark == "" || (radix.Hexadecimal? && (mark == "0x" || mark == "0X"))
  {
    hide Digit;
    if SkipPrefix(c, j, radix) == j + 2 { assert c[j..j + 2] == [c[j], c[j + 1]]; }
  }

  lemma DigitsSkipped(c: octets, k: nat, radix: Radix)
    requires k < |c| && SkipDigits(c, k, radix) == |c|
    ensures IsNumeral(c[k..], radix)
  {
    hide Digit;
    var digits := c[k..];
    assert forall n :: 0 <= n < |digits| ==> digits[n] == c[k + n];
  }

  lemma SpacesSkipped(c: octets)
    ensures forall n :: 0 <= n < SkipSpaces(c, 0) ==> IsSpace(c[..SkipSpaces(c, 0)][n])
  {
    hide IsSpace;
  }

  lemma CutInFour(c: octets, i: nat, j: nat, k: nat)
    requires i <= j <= k <= |c|
    ensures c == c[..i] + c[i..j] + c[j..k] + c[k..]
  {
    assert c[..i] + c[i..j] == c[..j];
    assert c[..j] + c[j..k] == c[..k];
  }

  /** A number that was read to the end was spelled so. */
  lemma ReadIsSpelled(c: octets, radix: Radix) returns (space: octets, sign: octets, mark: octets, digits: octets)
    requires c != "" && Strtol(c, radix).1 == |c|
    ensures Spells(c, radix, space, sign, mark, digits)
  {
    hide IsNumeral, IsSpace, SkipSpaces, SkipDigits, SkipSign, SkipPrefix, Value, Saturated;
    var i := SkipSpaces(c, 0);
    var j := SkipSign(c, i);
    var k := SkipPrefix(c, j, radix);
    assert SkipDigits(c, k, radix) == |c| && k < |c|;
    SpacesSkipped(c);
    SignSkipped(c, i);
    MarkSkipped(c, j, radix);
    DigitsSkipped(c, k, radix);
    space, sign, mark, digits := c[..i], c[i..j], c[j..k], c[k..];
    CutInFour(c, i, j, k);
  }

  /** The spellings of lengths: of a number that is not negative, or nothing at all. */
  ghost predicate IsLength(c: octets, radix: Radix) {
    c == "" || exists space, sign, mark, digits ::
      Spells(c, radix, space, sign, mark, digits) && (sign == "-" ==> Value(digits, radix) == 0)
  }

  /** A string is refused as a length exactly if it, up to its first NUL, does not spell one. The empty
      string counts as zero, and white space, a plus sign and, for chunks, `0x` may stand before the digits. */
  lemma LengthExactly(str: octets, chunked: bool)
    ensures ToContentLength(str, chunked) != CONTENT_LENGTH_INVALID
            <==> IsLength(CString(str), if chunked then Hexadecimal else Decimal)
  {
    var c, radix := CString(str), if chunked then Hexadecimal else Decimal;
    if c == "" {
      assert Strtol(c, radix) == (0, 0);
    } else if ToContentLength(str, chunked) != CONTENT_LENGTH_INVALID {
      var space, sign, mark, digits := ReadIsSpelled(c, radix);
      SpelledValue(c, radix, space, sign, mark, digits);
    } else if IsLength(c, radix) {
      var space, sign, mark, digits :|
        Spells(c, radix, space, sign, mark, digits) && (sign == "-" ==> Value(digits, radix) == 0);
      SpelledValue(c, radix, space, sign, mark, digits);
    }
  }

  /** And one that is accepted is worth the value of its digits, or too large for an int32_t. */
  lemma LengthValue(str: octets, chunked: bool, space: octets, sign: octets, mark: octets, digits: octets)
    requires Spells(CString(str), if chunked then Hexadecimal else Decimal, space, sign, mark, digits)
    ensures var v := Value(digits, if chunked then Hexadecimal else Decimal);
            ToContentLength(str, chunked) ==
            if sign == "-" && v > 0 then CONTENT_LENGTH_INVALID
            else if v > INT32_MAX then CONTENT_LENGTH_TOO_LARGE else v
    ensures ToContentLength("", chunked) == 0
  {
    var radix := if chunked then Hexadecimal else Decimal;
    assert Strtol("", radix) == (0, 0) && CString("") == "";
    hide Strtol, Value, Spells;
    SpelledValue(CString(str), radix, space, sign, mark, digits);
  }
}
