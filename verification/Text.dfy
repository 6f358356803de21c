/**
 Number formatting and parsing as the manifest uses them: decimal `to_string`
 and `parse`, zero-padded lower-case hexadecimal and `from_str_radix`.
 */
module Text {
  import opened Wrappers

  const U64_MAX: nat := 0xFFFF_FFFF_FFFF_FFFF
  const U32_MAX: nat := 0xFFFF_FFFF

  type u64 = n: nat | n <= U64_MAX
  type u32 = n: nat | n <= U32_MAX

  predicate Radix(b: nat) { b == 10 || b == 16 }

  function DigitChar(d: nat): (c: char)
    requires d < 16
  {
    "0123456789abcdef"[d]
  }

  /** Value of a digit; letters of either case count from ten. */
  function DigitValue(c: char): Option<nat> {
    if '0' <= c <= '9' then Some(c as int - '0' as int)
    else if 'a' <= c <= 'f' then Some(c as int - 'a' as int + 10)
    else if 'A' <= c <= 'F' then Some(c as int - 'A' as int + 10)
    else None
  }

  lemma DigitRoundTrip(d: nat)
    requires d < 16
    ensures DigitValue(DigitChar(d)) == Some(d)
    ensures DigitChar(d) !in {':', ',', '-', '+'}
    ensures ('0' <= DigitChar(d) <= '9') || ('a' <= DigitChar(d) <= 'f')
  {
  }

  /** Shortest digits of `n`, most significant first. */
  function Digits(n: nat, b: nat): (s: string)
    requires Radix(b)
    ensures s != []
  {
    if n < b then [DigitChar(n)] else Digits(n / b, b) + [DigitChar(n % b)]
  }

  predicate IsDigits(s: string, b: nat) {
    forall i :: 0 <= i < |s| ==> DigitValue(s[i]).Some? && DigitValue(s[i]).value < b
  }

  /** Value of a digit string; the empty string is zero here. */
  function ValueOf(s: string, b: nat): nat
    requires IsDigits(s, b)
  {
    if s == [] then 0 else ValueOf(s[..|s| - 1], b) * b + DigitValue(s[|s| - 1]).value
  }

  lemma {:induction false} DigitsRoundTrip(n: nat, b: nat)
    requires Radix(b)
    ensures IsDigits(Digits(n, b), b) && ValueOf(Digits(n, b), b) == n
    ensures PlainDigits(Digits(n, b))
  {
    if n < b {
      DigitRoundTrip(n);
      assert Digits(n, b)[..0] == [];
    } else {
      DigitsRoundTrip(n / b, b);
      DigitRoundTrip(n % b);
      var s := Digits(n, b);
      assert s[..|s| - 1] == Digits(n / b, b);
      assert n / b * b + n % b == n;
    }
  }

  /** Only lower-case digits: no separator, sign or upper-case letter. */
  predicate PlainDigits(s: string) {
    forall i :: 0 <= i < |s| ==> ('0' <= s[i] <= '9') || ('a' <= s[i] <= 'f')
  }

  /** Left-padded with zeros to at least `width`. */
  function Padded(s: string, width: nat): (r: string)
    ensures |r| == if |s| < width then width else |s|
  {
    if |s| < width then Zeros(width - |s|) + s else s
  }

  function Zeros(k: nat): (r: string)
    ensures |r| == k && forall i :: 0 <= i < k ==> r[i] == '0'
  {
    seq(k, _ => '0')
  }

  lemma {:induction false} ValueOfZeros(k: nat, s: string, b: nat)
    requires Radix(b) && IsDigits(s, b)
    ensures IsDigits(Zeros(k) + s, b) && ValueOf(Zeros(k) + s, b) == ValueOf(s, b)
    decreases k, |s|
  {
    if s == [] {
      if k > 0 {
        ValueOfZeros(k - 1, s, b);
        assert (Zeros(k) + s)[..k - 1] == Zeros(k - 1) + s;
      }
    } else {
      ValueOfZeros(k, s[..|s| - 1], b);
      assert (Zeros(k) + s)[..k + |s| - 1] == Zeros(k) + s[..|s| - 1];
    }
  }

  // ------------------------------------------------------------ the formats

  function Decimal(n: nat): string { Digits(n, 10) }

  /** `{n:0{width}x}` */
  function Hex(n: nat, width: nat): string { Padded(Digits(n, 16), width) }

  /** `str::parse::<u64>` and `from_str_radix`: an optional sign, then digits in range. */
  function Parse(s: string, b: nat, max: nat): (r: Option<nat>)
    requires Radix(b)
    ensures r.Some? ==> r.value <= max
  {
    var digits := if s != [] && s[0] == '+' then s[1..] else s;
    if digits == [] || !IsDigits(digits, b) || ValueOf(digits, b) > max then None
    else Some(ValueOf(digits, b))
  }

  lemma DecimalRoundTrip(n: nat, max: nat)
    requires n <= max
    ensures Parse(Decimal(n), 10, max) == Some(n)
    ensures PlainDigits(Decimal(n))
  {
    DigitsRoundTrip(n, 10);
    assert Decimal(n)[0] != '+';
  }

  lemma HexRoundTrip(n: nat, width: nat, max: nat)
    requires n <= max
    ensures Parse(Hex(n, width), 16, max) == Some(n)
    ensures PlainDigits(Hex(n, width))
  {
    DigitsRoundTrip(n, 16);
    var d := Digits(n, 16);
    if |d| < width {
      ValueOfZeros(width - |d|, d, 16);
    }
    assert Hex(n, width)[0] != '+';
  }

  // --------------------------------------------------------------- lengths

  function Pow(b: nat, k: nat): nat {
    if k == 0 then 1 else b * Pow(b, k - 1)
  }

  lemma {:induction false} DigitsLength(n: nat, b: nat, k: nat)
    requires Radix(b) && k >= 1 && n < Pow(b, k)
    ensures |Digits(n, b)| <= k
  {
    assert Pow(b, 1) == b * Pow(b, 0);
    if n >= b {
      assert k > 1;
      assert n / b < Pow(b, k - 1);
      DigitsLength(n / b, b, k - 1);
    }
  }

  lemma U64Lengths(n: u64)
    ensures |Decimal(n)| <= 20 && |Digits(n, 16)| <= 16 && |Hex(n, 16)| == 16
  {
    assert Pow(10, 5) == 10_0000;
    assert Pow(10, 10) == 100_0000_0000;
    assert Pow(10, 15) == 1000_0000_0000_0000;
    assert Pow(10, 20) == 1_0000_0000_0000_0000_0000;
    assert Pow(16, 8) == 0x1_0000_0000;
    assert Pow(16, 16) == 0x1_0000_0000_0000_0000;
    DigitsLength(n, 10, 20);
    DigitsLength(n, 16, 16);
  }

  lemma U32Length(n: u32)
    ensures |Hex(n, 8)| == 8
  {
    assert Pow(16, 8) == 0x1_0000_0000;
    DigitsLength(n, 16, 8);
  }
}
