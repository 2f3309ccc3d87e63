/** The pieces of Go's `strconv` package (and of `fmt`'s `%d`) that the
    request parser and the renderer rely on, for explicit bases 2..36:
    no base prefix and no '_' separators, which Go admits only in base 0. */
module GoStrconv {
  import opened Results

  /** strconv.ErrSyntax and strconv.ErrRange. */
  datatype NumError = ErrSyntax | ErrRange

  const MinInt64: int := -0x8000_0000_0000_0000
  const MaxInt64: int := 0x7FFF_FFFF_FFFF_FFFF

  /** Go's `int` on a 64-bit platform. */
  predicate IsInt64(n: int)
  {
    MinInt64 <= n <= MaxInt64
  }

  function Pow(b: nat, n: nat): (p: nat)
    ensures b >= 1 ==> p >= 1
  {
    if n == 0 then 1 else b * Pow(b, n - 1)
  }

  lemma {:induction false} PowGrows(b: nat, m: nat, n: nat)
    requires b >= 1 && m <= n
    ensures Pow(b, m) <= Pow(b, n)
    decreases n
  {
    if m < n {
      PowGrows(b, m, n - 1);
      var q := Pow(b, n - 1);
      assert Pow(b, n) == b * q;
      MulLeq(1, b, q);
    }
  }

  lemma {:induction false} PowAdd(b: nat, m: nat, n: nat)
    ensures Pow(b, m + n) == Pow(b, m) * Pow(b, n)
    decreases n
  {
    if n > 0 {
      PowAdd(b, m, n - 1);
      var x, y := Pow(b, m), Pow(b, n - 1);
      assert Pow(b, m + n) == b * (x * y);
      MulAssoc(b, x, y);
    }
  }

  lemma MulAssoc(b: nat, x: nat, y: nat)
    ensures b * (x * y) == x * (b * y)
  {}

  lemma Pow2Values()
    ensures Pow(2, 24) == 0x100_0000
    ensures Pow(2, 64) == 0x1_0000_0000_0000_0000
  {
    assert Pow(2, 8) == 0x100;
    PowAdd(2, 8, 8);
    PowAdd(2, 16, 8);
    PowAdd(2, 16, 16);
    PowAdd(2, 32, 32);
  }

  lemma Pow16Values()
    ensures Pow(16, 6) == 0x100_0000
  {
    assert Pow(16, 3) == 0x1000;
    PowAdd(16, 3, 3);
  }

  lemma Pow10Values()
    ensures Pow(10, 18) == 1_000_000_000_000_000_000
  {
    assert Pow(10, 9) == 1_000_000_000;
    PowAdd(10, 9, 9);
  }

  /** The powers of two and ten that the bit sizes used here call for. */
  lemma PowValues()
    ensures Pow(2, 24) == 0x100_0000 == Pow(16, 6)
    ensures Pow(2, 64) == 0x1_0000_0000_0000_0000
    ensures Pow(10, 18) == 1_000_000_000_000_000_000
  {
    Pow2Values();
    Pow16Values();
    Pow10Values();
  }

  lemma MulDistrib(p: nat, base: nat)
    requires p >= 1
    ensures (p - 1) * base == base * p - base
  {}

  lemma MulLeq(a: nat, b: nat, c: nat)
    requires a <= b
    ensures a * c <= b * c
  {}

  /** The largest value of an unsigned integer of `bitSize` bits. */
  function MaxUint(bitSize: nat): nat
  {
    Pow(2, bitSize) - 1
  }

  /** The value of `c` as a digit in bases up to 36 (0-9, then a-z or A-Z
      for 10-35); 36 for any other character, a digit in no base. */
  function DigitValue(c: char): (d: nat)
    ensures d <= 36
    ensures d < 10 <==> '0' <= c <= '9'
    ensures d < 16 <==> ('0' <= c <= '9' || 'a' <= c <= 'f' || 'A' <= c <= 'F')
  {
    if '0' <= c <= '9' then c as int - '0' as int
    else if 'a' <= c <= 'z' then c as int - 'a' as int + 10
    else if 'A' <= c <= 'Z' then c as int - 'A' as int + 10
    else 36
  }

  /** Every character of `s` is a digit in `base`. */
  predicate AllDigits(s: string, base: nat)
  {
    forall i :: 0 <= i < |s| ==> DigitValue(s[i]) < base
  }

  /** The number the digits of `s` denote in `base`, most significant
      digit first: the reference meaning of a numeral. */
  function DigitsValue(s: string, base: nat): nat
    decreases |s|
  {
    if s == [] then 0 else DigitsValue(s[..|s| - 1], base) * base + DigitValue(s[|s| - 1])
  }

  lemma DigitsValueSnoc(s: string, c: char, base: nat)
    ensures DigitsValue(s + [c], base) == DigitsValue(s, base) * base + DigitValue(c)
  {
    assert (s + [c])[..|s|] == s;
  }

  /** A numeral of n digits denotes less than base^n. */
  lemma {:induction false} DigitsValueBound(s: string, base: nat)
    requires base >= 1 && AllDigits(s, base)
    ensures DigitsValue(s, base) < Pow(base, |s|)
    decreases |s|
  {
    if s != [] {
      var init := s[..|s| - 1];
      assert AllDigits(init, base);
      DigitsValueBound(init, base);
      var v, p, d := DigitsValue(init, base), Pow(base, |init|), DigitValue(s[|s| - 1]);
      assert DigitsValue(s, base) == v * base + d;
      assert d < base;
      MulLeq(v, p - 1, base);
      MulDistrib(p, base);
      assert Pow(base, |s|) == base * p;
    }
  }

  /** Reading more digits never makes the value smaller. */
  lemma {:induction false} DigitsValuePrefix(s: string, j: nat, base: nat)
    requires base >= 1 && j <= |s| && AllDigits(s, base)
    ensures DigitsValue(s[..j], base) <= DigitsValue(s, base)
    decreases |s|
  {
    if j < |s| {
      var init := s[..|s| - 1];
      assert init[..j] == s[..j];
      DigitsValuePrefix(init, j, base);
      MulLeq(1, base, DigitsValue(init, base));
    } else {
      assert s[..j] == s;
    }
  }

  /** The digit loop of strconv.ParseUint from position `i` on, with `n`
      the value read so far: a character that is not a digit of `base`
      is a syntax error, and a value that would exceed `maxVal` is a range
      error, whichever comes first from the left. */
  function ParseDigitsFrom(s: string, base: nat, maxVal: nat, i: nat, n: nat): (r: Result<nat, NumError>)
    requires i <= |s|
    ensures r.Success? ==> AllDigits(s[i..], base)
    ensures r == Failure(ErrSyntax) ==> !AllDigits(s[i..], base)
    ensures r.Success? && n <= maxVal ==> n <= r.value <= maxVal
    decreases |s| - i
  {
    if i == |s| then Success(n)
    else
      var d := DigitValue(s[i]);
      assert s[i..][0] == s[i] && s[i..][1..] == s[i + 1..];
      if d >= base then Failure(ErrSyntax)
      else if n * base + d > maxVal then Failure(ErrRange)
      else
        assert n <= n * base + d by {
          if base > 0 { MulLeq(1, base, n); }
        }
        ParseDigitsFrom(s, base, maxVal, i + 1, n * base + d)
  }

  /** The digit loop succeeds exactly on numerals of `base` whose value
      fits, and then yields that value; a numeral whose value does not fit
      is a range error. */
  lemma {:induction false} ParseDigitsFromCorrect(s: string, base: nat, maxVal: nat, i: nat)
    requires 2 <= base && i <= |s|
    requires AllDigits(s[..i], base) && DigitsValue(s[..i], base) <= maxVal
    ensures var r := ParseDigitsFrom(s, base, maxVal, i, DigitsValue(s[..i], base));
      && (r.Success? <==> AllDigits(s, base) && DigitsValue(s, base) <= maxVal)
      && (r.Success? ==> r.value == DigitsValue(s, base))
      && (AllDigits(s, base) && DigitsValue(s, base) > maxVal ==> r == Failure(ErrRange))
    decreases |s| - i
  {
    if i == |s| {
      assert s[..i] == s;
    } else {
      var d := DigitValue(s[i]);
      var n := DigitsValue(s[..i], base);
      if d < base {
        assert s[..i + 1] == s[..i] + [s[i]];
        DigitsValueSnoc(s[..i], s[i], base);
        if n * base + d > maxVal {
          if AllDigits(s, base) {
            DigitsValuePrefix(s, i + 1, base);
          }
        } else {
          ParseDigitsFromCorrect(s, base, maxVal, i + 1);
        }
      }
    }
  }

  /** When every numeral as long as `s` fits, the digit loop never
      reports a range error. */
  lemma {:induction false} ParseDigitsFromShort(s: string, base: nat, maxVal: nat, i: nat)
    requires 2 <= base && i <= |s|
    requires AllDigits(s[..i], base)
    ensures Pow(base, |s|) <= maxVal + 1 ==>
      ParseDigitsFrom(s, base, maxVal, i, DigitsValue(s[..i], base)) != Failure(ErrRange)
    decreases |s| - i
  {
    if i < |s| && Pow(base, |s|) <= maxVal + 1 {
      var d := DigitValue(s[i]);
      if d < base {
        assert s[..i + 1] == s[..i] + [s[i]];
        DigitsValueSnoc(s[..i], s[i], base);
        assert AllDigits(s[..i + 1], base);
        DigitsValueBound(s[..i + 1], base);
        PowGrows(base, i + 1, |s|);
        ParseDigitsFromShort(s, base, maxVal, i + 1);
      }
    }
  }

  /** strconv.ParseUint(s, base, bitSize) for an explicit base: the value
      of a non-empty numeral that fits in `bitSize` bits; the empty string
      and non-digits are syntax errors, values that do not fit range
      errors. */
  function ParseUint(s: string, base: nat, bitSize: nat): (r: Result<nat, NumError>)
    requires 2 <= base <= 36 && 1 <= bitSize <= 64
    ensures r.Success? <==> s != [] && AllDigits(s, base) && DigitsValue(s, base) <= MaxUint(bitSize)
    ensures r.Success? ==> r.value == DigitsValue(s, base)
    ensures s != [] && AllDigits(s, base) && DigitsValue(s, base) > MaxUint(bitSize) ==> r == Failure(ErrRange)
    ensures Pow(base, |s|) <= Pow(2, bitSize) ==> r != Failure(ErrRange)
  {
    if s == [] then Failure(ErrSyntax)
    else
      assert s[..0] == [];
      ParseDigitsFromCorrect(s, base, MaxUint(bitSize), 0);
      ParseDigitsFromShort(s, base, MaxUint(bitSize), 0);
      ParseDigitsFrom(s, base, MaxUint(bitSize), 0, 0)
  }

  /** `s` without its leading '+' or '-', if any. */
  function Magnitude(s: string): string
  {
    if s != [] && (s[0] == '+' || s[0] == '-') then s[1..] else s
  }

  /** `s` is a decimal integer: an optional sign and at least one digit. */
  predicate IsDecimal(s: string)
  {
    Magnitude(s) != [] && AllDigits(Magnitude(s), 10)
  }

  /** The signed value of a decimal integer. */
  function DecimalValue(s: string): int
  {
    var v: int := DigitsValue(Magnitude(s), 10);
    if s != [] && s[0] == '-' then -v else v
  }

  /** strconv.Atoi on a 64-bit platform, that is ParseInt(s, 10, 64):
      accepts exactly the decimal integers that fit in 64 bits, giving
      their value. */
  function Atoi(s: string): (r: Result<int, NumError>)
    ensures r.Success? <==> IsDecimal(s) && IsInt64(DecimalValue(s))
    ensures r.Success? ==> r.value == DecimalValue(s)
    ensures IsDecimal(s) && !IsInt64(DecimalValue(s)) ==> r == Failure(ErrRange)
  {
    PowValues();
    if s == [] then Failure(ErrSyntax)
    else
      var neg := s[0] == '-';
      match ParseUint(Magnitude(s), 10, 64)
      case Failure(e) =>
        Failure(e)
      case Success(un) =>
        if !neg && un >= 0x8000_0000_0000_0000 then Failure(ErrRange)
        else if neg && un > 0x8000_0000_0000_0000 then Failure(ErrRange)
        else
          var v: int := if neg then -(un as int) else un;
          Success(v)
  }

  /** Atoi's fast path for fewer than 19 characters, which never reports
      a range error, agrees with the general path modelled by Atoi. */
  lemma AtoiShortNeverOverflows(s: string)
    requires |s| < 19
    ensures Atoi(s) != Failure(ErrRange)
  {
    var m := Magnitude(s);
    PowGrows(10, |m|, 18);
    PowValues();
    assert ParseUint(m, 10, 64) != Failure(ErrRange);
    if IsDecimal(s) {
      DigitsValueBound(m, 10);
    }
  }

  /** The decimal digit for 0 <= d < 10. */
  function DigitChar(d: nat): (c: char)
    requires d < 10
    ensures DigitValue(c) == d
  {
    ('0' as int + d) as char
  }

  /** The shortest decimal numeral of `n`. */
  function DecimalDigits(n: nat): (s: string)
    ensures s != [] && AllDigits(s, 10) && DigitsValue(s, 10) == n
    ensures n > 0 ==> s[0] != '0'
    ensures |s| == 1 || s[0] != '0'
  {
    if n < 10 then [DigitChar(n)]
    else
      var init := DecimalDigits(n / 10);
      DigitsValueSnoc(init, DigitChar(n % 10), 10);
      init + [DigitChar(n % 10)]
  }

  /** fmt's `%d` (strconv.Itoa): the decimal rendering of `n`, with a '-'
      for negative numbers. After the sign come the shortest digits of
      the magnitude: no '+', and no leading zero except in "0" itself. */
  function Itoa(n: int): (s: string)
    ensures s != [] && 'x' !in s
    ensures n >= 0 <==> s[0] != '-'
    ensures var d := if n < 0 then s[1..] else s;
      && d != [] && AllDigits(d, 10)
      && (|d| == 1 || d[0] != '0')
      && DigitsValue(d, 10) == (if n < 0 then -n else n)
  {
    if n < 0 then "-" + DecimalDigits(-n) else DecimalDigits(n)
  }

  /** Atoi reads back what Itoa writes, for every 64-bit integer. */
  lemma AtoiItoa(n: int)
    requires IsInt64(n)
    ensures Atoi(Itoa(n)) == Success(n)
  {
    var s := Itoa(n);
    var d := if n < 0 then s[1..] else s;
    assert Magnitude(s) == d by {
      if n >= 0 {
        assert DigitValue(s[0]) < 10;
      }
    }
    assert IsDecimal(s);
    assert DecimalValue(s) == n;
  }

}
