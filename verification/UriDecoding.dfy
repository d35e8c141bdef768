/** Percent-decoding (srcs/ft.cpp:21-46; section 2.1 of RFC 3986). */
module UriDecoding {
  import opened Octets
  import opened Numbers

  /** `hexToDec`: any character that is no hexadecimal digit counts as zero. */
  function HexToDec(c: char): (r: nat)
    ensures r < 16
    ensures Digit(c, Hexadecimal) >= 0 ==> r == Digit(c, Hexadecimal)
  {
    if '0' <= c <= '9' then c as int - '0' as int
    else if 'A' <= c <= 'F' then c as int - 'A' as int + 10
    else if 'a' <= c <= 'f' then c as int - 'a' as int + 10
    else 0
  }

  function Decoded(uri: octets): octets {
    if uri == "" then ""
    else if uri[0] == '%' && |uri| > 2 then
      [(HexToDec(uri[1]) * 16 + HexToDec(uri[2])) as char] + Decoded(uri[3..])
    else [uri[0]] + Decoded(uri[1..])
  }

  lemma DecodedStep(uri: octets, i: nat)
    requires i < |uri|
    ensures Decoded(uri[i..])
            == if uri[i] == '%' && i + 2 < |uri| then
                 [(HexToDec(uri[i + 1]) * 16 + HexToDec(uri[i + 2])) as char] + Decoded(uri[i + 3..])
               else [uri[i]] + Decoded(uri[i + 1..])
  {
    var rest := uri[i..];
    assert rest[1..] == uri[i + 1..] && (|rest| > 2 ==> rest[3..] == uri[i + 3..]);
    hide HexToDec;
  }

  method DecodeURI(uri: octets) returns (decoded: octets)
    ensures decoded == Decoded(uri)
  {
    assert uri[0..] == uri && uri[|uri|..] == "" && Decoded("") == "";
    hide Decoded, HexToDec;
    decoded := "";
    var i := 0;
    while i < |uri|
      invariant 0 <= i <= |uri| && decoded + Decoded(uri[i..]) == Decoded(uri)
    {
      ghost var before := decoded;
      DecodedStep(uri, i);
      if uri[i] == '%' && i + 2 < |uri| {
        decoded := decoded + [(HexToDec(uri[i + 1]) * 16 + HexToDec(uri[i + 2])) as char];
        i := i + 2;
      } else {
        decoded := decoded + [uri[i]];
      }
      i := i + 1;
      Assoc(before, [decoded[|before|]], Decoded(uri[i..]));
    }
  }

  /** Digits of either case, and everything else as zero; a percent sign takes any two characters behind it, and
      stands for itself when there are fewer. */
  lemma DecodesEverything(c: char, k: nat, a: char, b: char, rest: octets)
    requires k < 16
    ensures HexToDec(LOWER_DIGITS[k]) == HexToDec(UPPER_DIGITS[k]) == k
    ensures c !in LOWER_DIGITS && c !in UPPER_DIGITS ==> HexToDec(c) == 0
    ensures Decoded(['%', a, b] + rest) == [(HexToDec(a) * 16 + HexToDec(b)) as char] + Decoded(rest)
    ensures Decoded("%") == "%" && Decoded(['%', a]) == ['%'] + Decoded([a])
    ensures c != '%' ==> Decoded([c] + rest) == [c] + Decoded(rest)
  {
    DigitTable(c, k);
    InTables(c);
    assert (['%', a, b] + rest)[3..] == rest && ([c] + rest)[1..] == rest && ['%', a][1..] == [a] && "%"[1..] == "";
  }

  /** A character as it travels: itself, or its number in two hexadecimal digits of either case. */
  datatype Letter = Plain(c: char) | Escaped(high: char, low: char) {
    predicate WellFormed() {
      match this
      case Plain(c) => c != '%'
      case Escaped(high, low) => Digit(high, Hexadecimal) >= 0 && Digit(low, Hexadecimal) >= 0
    }

    function Print(): octets {
      match this
      case Plain(c) => [c]
      case Escaped(high, low) => ['%', high, low]
    }

    function Meaning(): char
      requires WellFormed()
    {
      match this
      case Plain(c) => c
      case Escaped(high, low) => (Digit(high, Hexadecimal) * 16 + Digit(low, Hexadecimal)) as char
    }
  }

  predicate AllWellFormed(letters: seq<Letter>) {
    forall l <- letters :: l.WellFormed()
  }

  function PrintAll(letters: seq<Letter>): octets {
    if letters == [] then "" else letters[0].Print() + PrintAll(letters[1..])
  }

  function MeaningAll(letters: seq<Letter>): octets
    requires AllWellFormed(letters)
  {
    if letters == [] then "" else [letters[0].Meaning()] + MeaningAll(letters[1..])
  }

  /** However a string is spelled, with any of its characters escaped, decoding gives the string. */
  lemma {:induction false} RoundTrip(letters: seq<Letter>)
    requires AllWellFormed(letters)
    ensures Decoded(PrintAll(letters)) == MeaningAll(letters)
  {
    if letters != [] {
      var l, rest := letters[0], PrintAll(letters[1..]);
      assert l in letters && l.WellFormed();
      var s := l.Print() + rest;
      assert s[|l.Print()|..] == rest;
      RoundTrip(letters[1..]);
    }
  }

  /** Every string can be spelled with all of its octets escaped. */
  lemma {:induction false} Escapable(s: octets) returns (letters: seq<Letter>)
    requires forall c <- s :: c as int < 256
    ensures AllWellFormed(letters) && MeaningAll(letters) == s && |PrintAll(letters)| == 3 * |s|
  {
    if s == "" {
      letters := [];
    } else {
      assert s[0] in s && forall c <- s[1..] :: c in s;
      var rest := Escapable(s[1..]);
      var n := s[0] as int;
      var l := Escaped(DigitChar(n / 16), DigitChar(n % 16));
      letters := [l] + rest;
      assert letters[1..] == rest;
    }
  }

  lemma {:induction false} PlainStays(s: octets)
    requires '%' !in s
    ensures Decoded(s) == s
  {
    if s != "" {
      PlainStays(s[1..]);
      assert s == [s[0]] + s[1..];
    }
  }
}
