/** Printing and parsing of unsigned numbers as the C++ run-time library does it: `std::to_string`, and
    `std::stoul`/`std::stoull` with base 0, which CommandMap::SetVariable calls. */
module Numbers {
  import opened Text

  /** `std::to_string` of an unsigned number. */
  function ToString(n: nat): (s: string)
    ensures s != ""
  {
    if n < 10 then ['0' + n as char] else ToString(n / 10) + ['0' + (n % 10) as char]
  }

  /** The digit a character stands for in bases up to 36, as `strtoul` reads it; 36 if none. */
  function DigitValue(c: char): (d: nat)
    ensures d <= 36
  {
    if '0' <= c <= '9' then (c - '0') as nat
    else if 'a' <= c <= 'z' then (c - 'a') as nat + 10
    else if 'A' <= c <= 'Z' then (c - 'A') as nat + 10
    else 36
  }

  /** Reads digits for as long as there are any. */
  function ReadDigits(s: string, radix: nat, sofar: nat): nat {
    if s == "" || DigitValue(s[0]) >= radix then sofar
    else ReadDigits(s[1..], radix, sofar * radix + DigitValue(s[0]))
  }

  function SkipSpaces(s: string): string {
    if s != "" && IsSpace(s[0]) then SkipSpaces(s[1..]) else s
  }

  /** The radix that base 0 chooses, and the digits that follow the prefix. A lone `0x` is the number 0. */
  function ChooseRadix(s: string): (nat, string) {
    if |s| >= 3 && s[0] == '0' && s[1] in {'x', 'X'} && DigitValue(s[2]) < 16 then (16, s[2..])
    else if s != "" && s[0] == '0' then (8, s)
    else (10, s)
  }

  /** `std::stoul(s, 0, 0)` for a type with `modulus` values. `None` is either of its two exceptions: no digits
      (`invalid_argument`) or a number that does not fit (`out_of_range`). A minus sign negates modulo. */
  function ParseUnsigned(s: string, modulus: nat): (r: Option<nat>)
    requires modulus > 0
    ensures r.Some? ==> r.value < modulus
  {
    var t := SkipSpaces(s);
    var negative := t != "" && t[0] == '-';
    var (radix, digits) := ChooseRadix(if t != "" && t[0] in {'-', '+'} then t[1..] else t);
    var n := ReadDigits(digits, radix, 0);
    if digits == "" || DigitValue(digits[0]) >= radix || n >= modulus then None
    else Some(if negative && n > 0 then modulus - n else n)
  }

  predicate Decimal(s: string) {
    forall c <- s :: '0' <= c <= '9'
  }

  lemma {:induction false} ToStringIsDecimal(n: nat)
    ensures Decimal(ToString(n)) && (ToString(n)[0] == '0' ==> n == 0)
  {
    if n >= 10 {
      ToStringIsDecimal(n / 10);
    }
  }

  lemma {:induction false} ReadAnotherDigit(s: string, c: char, sofar: nat)
    requires Decimal(s) && '0' <= c <= '9'
    ensures ReadDigits(s + [c], 10, sofar) == ReadDigits(s, 10, sofar) * 10 + DigitValue(c)
  {
    if s == "" {
      assert (s + [c])[0] == c && (s + [c])[1..] == "";
      assert ReadDigits("", 10, sofar * 10 + DigitValue(c)) == sofar * 10 + DigitValue(c);
    } else {
      assert forall d <- s[1..] :: d in s;
      assert (s + [c])[0] == s[0] && (s + [c])[1..] == s[1..] + [c];
      assert s[0] in s && DigitValue(s[0]) < 10;
      ReadAnotherDigit(s[1..], c, sofar * 10 + DigitValue(s[0]));
    }
  }

  lemma {:induction false} ReadDigitsOfPrinted(n: nat)
    ensures ReadDigits(ToString(n), 10, 0) == n
  {
    if n < 10 {
      assert ToString(n)[1..] == "";
      assert ReadDigits("", 10, n) == n;
    } else {
      ReadDigitsOfPrinted(n / 10);
      ToStringIsDecimal(n / 10);
      ReadAnotherDigit(ToString(n / 10), '0' + (n % 10) as char, 0);
    }
  }

  /** Parsing with automatic base gives back every number that was printed, although a leading zero would select
      octal and `0x` hexadecimal. */
  lemma ParsePrinted(n: nat, modulus: nat)
    requires n < modulus
    ensures ParseUnsigned(ToString(n), modulus) == Some(n)
  {
    var s := ToString(n);
    ToStringIsDecimal(n);
    assert s[0] in s;
    assert SkipSpaces(s) == s;
    if s[0] == '0' {
      assert s == "0";
      assert ReadDigits(s[1..], 8, 0) == 0;
    } else {
      ReadDigitsOfPrinted(n);
    }
  }

  // ----- Parsing in general -----

  /** The number that digits stand for, the last one counting least. */
  function Positional(digits: string, radix: nat): nat {
    if digits == "" then 0
    else Positional(digits[..|digits| - 1], radix) * radix + DigitValue(digits[|digits| - 1])
  }

  predicate AllDigits(digits: string, radix: nat) {
    forall i :: 0 <= i < |digits| ==> DigitValue(digits[i]) < radix
  }

  lemma {:induction false} ReadFront(digits: string, rest: string, radix: nat, sofar: nat)
    requires AllDigits(digits, radix)
    ensures ReadDigits(digits + rest, radix, sofar) == ReadDigits(rest, radix, ReadDigits(digits, radix, sofar))
  {
    if digits == "" {
      assert digits + rest == rest;
    } else {
      assert (digits + rest)[0] == digits[0] && (digits + rest)[1..] == digits[1..] + rest;
      ReadFront(digits[1..], rest, radix, sofar * radix + DigitValue(digits[0]));
    }
  }

  lemma {:induction false} ReadDigitsIs(digits: string, radix: nat)
    requires AllDigits(digits, radix)
    ensures ReadDigits(digits, radix, 0) == Positional(digits, radix)
  {
    if digits != "" {
      var front, last := digits[..|digits| - 1], digits[|digits| - 1];
      assert digits == front + [last];
      ReadDigitsIs(front, radix);
      ReadFront(front, [last], radix, 0);
      LastDigit(last, radix, Positional(front, radix));
    }
  }

  lemma LastDigit(c: char, radix: nat, sofar: nat)
    requires DigitValue(c) < radix
    ensures ReadDigits([c], radix, sofar) == sofar * radix + DigitValue(c)
  {
    assert [c][1..] == "";
    assert ReadDigits("", radix, sofar * radix + DigitValue(c)) == sofar * radix + DigitValue(c);
  }

  lemma {:induction false} SpacesAreSkipped(spaces: string, s: string)
    requires (forall i :: 0 <= i < |spaces| ==> IsSpace(spaces[i])) && s != "" && !IsSpace(s[0])
    ensures SkipSpaces(spaces + s) == s
  {
    if spaces == "" {
      assert spaces + s == s;
    } else {
      assert (spaces + s)[0] == spaces[0] && (spaces + s)[1..] == spaces[1..] + s;
      SpacesAreSkipped(spaces[1..], s);
    }
  }

  /** White space, a sign, a prefix that tells the radix, digits, and anything that does not go on with them. */
  predicate IsNumeral(sign: string, prefix: string, digits: string, rest: string, radix: nat) {
    && sign in {"", "+", "-"} && digits != "" && AllDigits(digits, radix) && (rest != "" ==> DigitValue(rest[0]) >= radix)
    && match radix
       case 10 => prefix == "" && digits[0] != '0'
       case 8 => prefix == "" && digits[0] == '0' &&
                 (digits == "0" ==> rest == "" || rest[0] !in {'x', 'X'} || |rest| == 1 || DigitValue(rest[1]) >= 16)
       case 16 => prefix in {"0x", "0X"}
       case _ => false
  }

  lemma RadixIsChosen(prefix: string, digits: string, rest: string, radix: nat)
    requires IsNumeral("", prefix, digits, rest, radix)
    ensures ChooseRadix(prefix + digits + rest) == (radix, digits + rest) && DigitValue((prefix + digits + rest)[0]) < 10
  {
    var s := prefix + digits + rest;
    if radix == 16 {
      assert s[2..] == digits + rest && s[2] == digits[0];
    } else {
      assert s == digits + rest && s[0] == digits[0];
      if |digits| >= 2 {
        assert s[1] == digits[1];
      }
    }
  }

  /** Parsing takes the number that the digits stand for, if it fits; a minus sign negates it modulo, and what follows the
      digits is passed over. */
  lemma ParsedIs(spaces: string, sign: string, prefix: string, digits: string, rest: string, radix: nat, modulus: nat)
    requires modulus > 0 && (forall i :: 0 <= i < |spaces| ==> IsSpace(spaces[i])) && IsNumeral(sign, prefix, digits, rest, radix)
    ensures var n := Positional(digits, radix);
            ParseUnsigned(spaces + (sign + (prefix + digits + rest)), modulus) ==
            if n >= modulus then None else Some(if sign == "-" && n > 0 then modulus - n else n)
  {
    var body := prefix + digits + rest;
    UnsignedNumeral(sign, prefix, digits, rest, radix);
    RadixIsChosen(prefix, digits, rest, radix);
    assert digits + rest != "" && (digits + rest)[0] == digits[0] && DigitValue(digits[0]) < radix;
    SignedIsNoSpace(sign, body);
    SpacesAreSkipped(spaces, sign + body);
    ReadFront(digits, rest, radix, 0);
    ReadDigitsIs(digits, radix);
    NothingMore(rest, radix, Positional(digits, radix));
    hide *;
    ParsedFrom(spaces + (sign + body), sign, body, radix, digits + rest, modulus);
  }

  lemma UnsignedNumeral(sign: string, prefix: string, digits: string, rest: string, radix: nat)
    requires IsNumeral(sign, prefix, digits, rest, radix)
    ensures IsNumeral("", prefix, digits, rest, radix) && sign in {"", "+", "-"} && AllDigits(digits, radix) && digits != ""
    ensures rest != "" ==> DigitValue(rest[0]) >= radix
  {
  }

  lemma SignedIsNoSpace(sign: string, body: string)
    requires sign in {"", "+", "-"} && body != "" && DigitValue(body[0]) < 10
    ensures !IsSpace((sign + body)[0]) && body[0] !in {'-', '+'}
  {
    assert (sign + body)[0] == if sign == "" then body[0] else sign[0];
  }

  lemma ParsedFrom(s: string, sign: string, body: string, radix: nat, digits: string, modulus: nat)
    requires modulus > 0 && sign in {"", "+", "-"} && body != "" && body[0] !in {'-', '+'} && SkipSpaces(s) == sign + body
    requires ChooseRadix(body) == (radix, digits) && digits != "" && DigitValue(digits[0]) < radix
    ensures var n := ReadDigits(digits, radix, 0);
            ParseUnsigned(s, modulus) == if n >= modulus then None else Some(if sign == "-" && n > 0 then modulus - n else n)
  {
    var t := sign + body;
    assert sign == "" ==> t == body;
    assert sign != "" ==> t[0] == sign[0] && t[1..] == body;
    hide SkipSpaces, ChooseRadix, ReadDigits, DigitValue;
  }

  lemma NothingMore(rest: string, radix: nat, sofar: nat)
    requires rest != "" ==> DigitValue(rest[0]) >= radix
    ensures ReadDigits(rest, radix, sofar) == sofar
  {
  }

  /** The digits of hexadecimal numbers, in either case; and no other character is one. */
  lemma HexDigits(c: char)
    ensures forall k: nat :: k < 16 ==> DigitValue("0123456789abcdef"[k]) == k && DigitValue("0123456789ABCDEF"[k]) == k
    ensures DigitValue(c) < 16 ==> c == "0123456789abcdef"[DigitValue(c)] || c == "0123456789ABCDEF"[DigitValue(c)]
  {
  }

  /** Digits of either case count ten and more, the base is ten unless a zero says otherwise, and text is no number. */
  lemma ParseExamples()
    ensures ParseUnsigned("aF", 100) == None && ParseUnsigned("", 100) == None
    ensures DigitValue('7') == 7 && DigitValue('a') == 10 && DigitValue('F') == 15 && DigitValue('g') == 16 && DigitValue('-') == 36
    ensures Positional("1F", 16) == 31 && Positional("017", 8) == 15 && Positional("12", 10) == 12
  {
    assert "1F"[..1] == "1" && "1"[..0] == "" && "017"[..2] == "01" && "01"[..1] == "0" && "0"[..0] == "" && "12"[..1] == "1";
    assert Positional("1", 16) == 1 && Positional("0", 8) == 0 && Positional("01", 8) == 1 && Positional("1", 10) == 1;
  }
}
