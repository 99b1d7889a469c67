/**
  Unsigned 64-bit integers as the converter reads and writes them:
  `u64::from_str_radix` (and `str::parse::<u64>`, which is the radix-10 case),
  `to_string` (decimal) and the `{:x}` format (lower-case hexadecimal, no prefix),
  and the `trim_start_matches("0x")` applied to the address text.
*/
module Numerals {
  import opened Options

  const U64_LIMIT: nat := 0x1_0000_0000_0000_0000

  /** Rust's `u64`. */
  type U64 = x: int | 0 <= x < U64_LIMIT

  /** The two radices in use: decimal for the index fields, hexadecimal for addresses. */
  predicate IsRadix(radix: nat) {
    radix == 10 || radix == 16
  }

  /** The value of `c` as a digit of `radix`, as `char::to_digit` gives it:
      letters of either case are digits 10 and up. */
  function DigitValue(c: char, radix: nat): (r: Option<nat>)
    requires IsRadix(radix)
    ensures r.Some? ==> r.value < radix
    ensures r.Some? <==> '0' <= c <= '9' || (radix == 16 && ('a' <= c <= 'f' || 'A' <= c <= 'F'))
  {
    var v :=
      if '0' <= c <= '9' then c as int - '0' as int
      else if 'a' <= c <= 'z' then c as int - 'a' as int + 10
      else if 'A' <= c <= 'Z' then c as int - 'A' as int + 10
      else radix;
    if v < radix then Some(v) else None
  }

  /** The values `char::to_digit` gives: `0`-`9` are 0-9, and in radix 16 the
      letters `a`-`f` and `A`-`F` are 10-15 alike. */
  lemma DigitValues(c: char, radix: nat)
    requires IsRadix(radix)
    ensures '0' <= c <= '9' ==> DigitValue(c, radix) == Some(c as int - '0' as int)
    ensures radix == 16 && 'a' <= c <= 'f' ==> DigitValue(c, radix) == Some(c as int - 'a' as int + 10)
    ensures radix == 16 && 'A' <= c <= 'F' ==> DigitValue(c, radix) == Some(c as int - 'A' as int + 10)
    ensures radix == 16 && 'a' <= c <= 'f' ==> DigitValue(c, radix) == DigitValue(c - 'a' as char + 'A' as char, radix)
  {
  }

  predicate IsDigits(s: string, radix: nat)
    requires IsRadix(radix)
  {
    forall i :: 0 <= i < |s| ==> DigitValue(s[i], radix).Some?
  }

  /** The number a string of digits denotes, most significant digit first. */
  function DigitsValue(s: string, radix: nat): nat
    requires IsRadix(radix) && IsDigits(s, radix)
  {
    if s == [] then 0
    else DigitsValue(s[..|s| - 1], radix) * radix + DigitValue(s[|s| - 1], radix).value
  }

  /** `u64::from_str_radix`: one optional leading `+`, then at least one digit and
      nothing else (no sign `-` for an unsigned type, no white space), and a value
      that fits in 64 bits. Leading zeros are accepted. */
  function ParseUnsigned(s: string, radix: nat): (r: Option<U64>)
    requires IsRadix(radix)
  {
    var digits := if s != [] && s[0] == '+' then s[1..] else s;
    if digits != [] && IsDigits(digits, radix) && DigitsValue(digits, radix) < U64_LIMIT
    then Some(DigitsValue(digits, radix))
    else None
  }

  /** `str::parse::<u64>`. */
  function ParseDec(s: string): Option<U64> {
    ParseUnsigned(s, 10)
  }

  /** `u64::from_str_radix(_, 16)`. */
  function ParseHex(s: string): Option<U64> {
    ParseUnsigned(s, 16)
  }

  /** The lower-case digit for `d`. */
  function DigitChar(d: nat): (c: char)
    requires d < 16
    ensures '0' <= c <= '9' || 'a' <= c <= 'f'
    ensures DigitValue(c, 16) == Some(d)
    ensures d < 10 ==> DigitValue(c, 10) == Some(d)
  {
    if d < 10 then ('0' as int + d) as char else ('a' as int + d - 10) as char
  }

  /** The shortest digit string for `n`, lower-case letters: what `to_string`
      (radix 10) and `{:x}` (radix 16) print. */
  function ToRadix(n: nat, radix: nat): (s: string)
    requires IsRadix(radix)
    ensures s != [] && IsDigits(s, radix) && DigitsValue(s, radix) == n
    decreases n
  {
    if n < radix then [DigitChar(n)]
    else
      var prefix := ToRadix(n / radix, radix);
      AppendDigit(prefix, DigitChar(n % radix), radix);
      assert n == n / radix * radix + n % radix by {
        if radix == 10 { assert n == n / 10 * 10 + n % 10; } else { assert n == n / 16 * 16 + n % 16; }
      }
      prefix + [DigitChar(n % radix)]
  }

  /** Appending a digit multiplies the value by the radix and adds the digit. */
  lemma AppendDigit(t: string, c: char, radix: nat)
    requires IsRadix(radix) && IsDigits(t, radix) && DigitValue(c, radix).Some?
    ensures IsDigits(t + [c], radix)
    ensures DigitsValue(t + [c], radix) == DigitsValue(t, radix) * radix + DigitValue(c, radix).value
  {
    var s := t + [c];
    assert s[..|s| - 1] == t;
    assert forall i :: 0 <= i < |s| ==> s[i] == if i < |t| then t[i] else c;
  }

  /** A printed number has no leading zero and is written with the characters
      `0`-`9` and `a`-`f` only. */
  lemma {:induction false} PrintedDigits(n: nat, radix: nat)
    requires IsRadix(radix)
    ensures var s := ToRadix(n, radix);
      && (s[0] == '0' ==> n == 0)
      && (n == 0 ==> s == "0")
      && forall i :: 0 <= i < |s| ==> '0' <= s[i] <= '9' || 'a' <= s[i] <= 'f'
    decreases n
  {
    if n >= radix {
      PrintedDigits(n / radix, radix);
      var prefix := ToRadix(n / radix, radix);
      var c := DigitChar(n % radix);
      var s := prefix + [c];
      assert ToRadix(n, radix) == s;
      assert n / radix != 0 by {
        if radix == 10 { assert n / 10 >= 1; } else { assert n / 16 >= 1; }
      }
      assert s[0] == prefix[0];
      forall i | 0 <= i < |s|
        ensures '0' <= s[i] <= '9' || 'a' <= s[i] <= 'f'
      {
        if i < |prefix| { assert s[i] == prefix[i]; } else { assert s[i] == c; }
      }
    }
  }

  /** `n.to_string()` */
  function ToDec(n: nat): string {
    ToRadix(n, 10)
  }

  /** `format!("{:x}", n)` */
  function ToHexLower(n: nat): string {
    ToRadix(n, 16)
  }

  /** Printing and then parsing a 64-bit value gives the value back, in either radix. */
  lemma ParsePrinted(n: U64, radix: nat)
    requires IsRadix(radix)
    ensures ParseUnsigned(ToRadix(n, radix), radix) == Some(n)
  {
  }

  /** A leading zero does not change the value of a digit string. */
  lemma {:induction false} LeadingZero(s: string, radix: nat)
    requires IsRadix(radix) && IsDigits(s, radix)
    ensures IsDigits("0" + s, radix) && DigitsValue("0" + s, radix) == DigitsValue(s, radix)
  {
    var t := "0" + s;
    if s != [] {
      LeadingZero(s[..|s| - 1], radix);
      assert t[..|t| - 1] == "0" + s[..|s| - 1];
    }
  }

  /** A digit string, with or without one `+` in front, parses to its value. */
  lemma ParseDigits(d: string, radix: nat)
    requires IsRadix(radix) && d != [] && IsDigits(d, radix) && DigitsValue(d, radix) < U64_LIMIT
    ensures ParseUnsigned(d, radix) == Some(DigitsValue(d, radix))
    ensures ParseUnsigned("+" + d, radix) == Some(DigitsValue(d, radix))
  {
    assert DigitValue(d[0], radix).Some?;
    assert ("+" + d)[1..] == d;
  }

  /** `k` zero digits. */
  function Zeros(k: nat): (r: string)
    ensures |r| == k
  {
    if k == 0 then "" else "0" + Zeros(k - 1)
  }

  /** Any number of leading zeros leaves a digit string's value alone. */
  lemma {:induction false} LeadingZeros(k: nat, s: string, radix: nat)
    requires IsRadix(radix) && IsDigits(s, radix)
    ensures IsDigits(Zeros(k) + s, radix) && DigitsValue(Zeros(k) + s, radix) == DigitsValue(s, radix)
  {
    if k == 0 {
      assert Zeros(k) + s == s;
    } else {
      LeadingZeros(k - 1, s, radix);
      LeadingZero(Zeros(k - 1) + s, radix);
      assert Zeros(k) + s == "0" + (Zeros(k - 1) + s);
    }
  }

  /** The parser accepts one leading `+` and any number of leading zeros: a
      printed value with these in front parses to the same number. */
  lemma ParseAcceptsPlusAndZeros(k: nat, n: U64, radix: nat)
    requires IsRadix(radix)
    ensures ParseUnsigned("+" + ToRadix(n, radix), radix) == Some(n)
    ensures ParseUnsigned(Zeros(k) + ToRadix(n, radix), radix) == Some(n)
    ensures ParseUnsigned("+" + Zeros(k) + ToRadix(n, radix), radix) == Some(n)
  {
    var s := ToRadix(n, radix);
    ParseDigits(s, radix);
    PlusZeros(k, s, radix);
  }

  lemma PlusZeros(k: nat, d: string, radix: nat)
    requires IsRadix(radix) && d != [] && IsDigits(d, radix) && DigitsValue(d, radix) < U64_LIMIT
    ensures ParseUnsigned(Zeros(k) + d, radix) == Some(DigitsValue(d, radix))
    ensures ParseUnsigned("+" + Zeros(k) + d, radix) == Some(DigitsValue(d, radix))
  {
    var z := Zeros(k) + d;
    LeadingZeros(k, d, radix);
    ParseDigits(z, radix);
    assert "+" + Zeros(k) + d == "+" + z;
  }

  /** What the parser accepts: a `+` or a digit, then digits only. In
      particular `parse::<u64>` accepts only `+` and `0`-`9`, and the
      hexadecimal parser only `+`, `0`-`9`, `a`-`f` and `A`-`F`. */
  lemma AcceptedText(s: string, radix: nat)
    requires IsRadix(radix) && ParseUnsigned(s, radix).Some?
    ensures s != [] && s != "+" && (s[0] == '+' || DigitValue(s[0], radix).Some?)
    ensures forall i :: 1 <= i < |s| ==> DigitValue(s[i], radix).Some?
    ensures radix == 10 ==> forall i :: 0 <= i < |s| ==> s[i] == '+' || '0' <= s[i] <= '9'
    ensures radix == 16 ==> forall i :: 0 <= i < |s| ==>
      s[i] == '+' || '0' <= s[i] <= '9' || 'a' <= s[i] <= 'f' || 'A' <= s[i] <= 'F'
    ensures var d := if s[0] == '+' then s[1..] else s;
      && d != [] && IsDigits(d, radix) && DigitsValue(d, radix) < U64_LIMIT
      && ParseUnsigned(s, radix).value == DigitsValue(d, radix)
  {
    var d := if s[0] == '+' then s[1..] else s;
    assert forall i :: 1 <= i < |s| ==> (s[0] == '+' ==> s[i] == d[i - 1]) && (s[0] != '+' ==> s[i] == d[i]);
    assert s[0] != '+' ==> s[0] == d[0];
  }

  /** The parser rejects an empty text, a lone `+`, a minus sign and leading white space. */
  lemma ParseRejects(s: string, radix: nat)
    requires IsRadix(radix)
    ensures ParseUnsigned("", radix) == None
    ensures ParseUnsigned("+", radix) == None
    ensures ParseUnsigned("-" + s, radix) == None
    ensures ParseUnsigned(" " + s, radix) == None
    ensures ParseUnsigned("++" + s, radix) == None
  {
    assert ("-" + s)[0] == '-';
    assert (" " + s)[0] == ' ';
    assert ("++" + s)[1..][0] == '+';
  }

  /** A digit text worth 2^64 or more overflows `u64` and is rejected, with or
      without a `+` in front. */
  lemma ParseOverflows(d: string, radix: nat)
    requires IsRadix(radix) && IsDigits(d, radix) && DigitsValue(d, radix) >= U64_LIMIT
    ensures ParseUnsigned(d, radix) == None
    ensures ParseUnsigned("+" + d, radix) == None
  {
    assert ("+" + d)[1..] == d;
  }

  /** `k` copies of `0x`. */
  function HexPrefixes(k: nat): (r: string)
    ensures |r| == 2 * k
  {
    if k == 0 then "" else "0x" + HexPrefixes(k - 1)
  }

  lemma PrependHexPrefix(k: nat, t: string)
    ensures "0x" + (HexPrefixes(k) + t) == HexPrefixes(k + 1) + t
  {
  }

  predicate StartsWithHexPrefix(s: string) {
    |s| >= 2 && s[0] == '0' && s[1] == 'x'
  }

  /** `trim_start_matches("0x")`: removes every repetition of the lower-case
      prefix `0x`, and nothing else. */
  function TrimHexPrefix(s: string): (r: string)
    ensures |r| <= |s| && (|s| - |r|) % 2 == 0
    ensures s == HexPrefixes((|s| - |r|) / 2) + r
    ensures !StartsWithHexPrefix(r)
    decreases |s|
  {
    if StartsWithHexPrefix(s) then
      var r := TrimHexPrefix(s[2..]);
      var k := (|s| - 2 - |r|) / 2;
      assert s[2..] == HexPrefixes(k) + r;
      PrependHexPrefix(k, r);
      assert s == "0x" + s[2..];
      assert (|s| - |r|) / 2 == k + 1;
      r
    else s
  }

  /** A `0x` in front is trimmed away: the text after it is trimmed the same. */
  lemma TrimSkipsPrefix(t: string)
    ensures TrimHexPrefix("0x" + t) == TrimHexPrefix(t)
  {
    var s := "0x" + t;
    assert StartsWithHexPrefix(s) && s[2..] == t;
  }

  /** A printed hexadecimal value has no `0x` to trim, so the address text that
      the converter writes reads back as the same value. */
  lemma HexRoundTrip(n: U64)
    ensures ParseHex(TrimHexPrefix(ToHexLower(n))) == Some(n)
  {
    var s := ToHexLower(n);
    PrintedDigits(n, 16);
    if |s| >= 2 {
      assert '0' <= s[1] <= '9' || 'a' <= s[1] <= 'f';
    }
    assert TrimHexPrefix(s) == s;
    ParsePrinted(n, 16);
  }
}
