/** The C library text routines the watchface relies on: reading a char
    buffer as a NUL-terminated string, `snprintf` with `%s` into a fixed
    buffer, and the decimal conversion `%d`. */
module CStrings {

  /** One C `char`: a byte, held as the character with that code. Text
      that arrives as UTF-8 is a sequence of these bytes, so a multi-byte
      character takes several elements and a cut can split it. */
  type byte = c: char | c as int < 0x100 witness '\0'

  function Min(a: int, b: int): int { if a <= b then a else b }

  /** The C string a char array holds: its bytes up to the first NUL. */
  function CString(s: seq<byte>): (r: seq<byte>)
    ensures |r| <= |s| && r == s[..|r|]
    ensures '\0' !in r
    ensures |r| < |s| ==> s[|r|] == '\0'
  {
    if s == [] || s[0] == '\0' then [] else [s[0]] + CString(s[1..])
  }

  lemma CStringOfText(s: seq<byte>)
    requires '\0' !in s
    ensures CString(s) == s
  {
  }

  /** The C string left in a buffer of `size` bytes by
      `snprintf(buf, size, "%s", src)`: as much of the C string `src` as
      fits in front of the terminating NUL. */
  function Snprintf(size: nat, src: seq<byte>): (r: seq<byte>)
    requires size >= 1
    ensures |r| == Min(|CString(src)|, size - 1)
    ensures r == CString(src)[..|r|]
    ensures '\0' !in r
  {
    var c := CString(src);
    if |c| < size then c else c[..size - 1]
  }

  /** A string that fits is copied whole. */
  lemma SnprintfFits(size: nat, src: seq<byte>)
    requires size >= 1 && '\0' !in src && |src| < size
    ensures Snprintf(size, src) == src
  {
  }

  /** Copying a buffer's contents into a buffer of the same size changes
      nothing: a stored copy is a fixed point of the copy. */
  lemma SnprintfIdempotent(size: nat, src: seq<byte>)
    requires size >= 1
    ensures Snprintf(size, Snprintf(size, src)) == Snprintf(size, src)
  {
  }

  // ---------------------------------------------------------------------
  // %d

  predicate IsDigit(c: char) { '0' <= c <= '9' }

  function DigitChar(d: int): (c: byte)
    requires 0 <= d <= 9
    ensures IsDigit(c)
  {
    (('0' as int) + d) as char
  }

  function DigitValue(c: char): (d: nat)
    requires IsDigit(c)
    ensures d <= 9 && DigitChar(d) == c
  {
    (c as int) - ('0' as int)
  }

  function Pow10(k: nat): (p: nat)
    ensures p >= 1
  {
    if k == 0 then 1 else 10 * Pow10(k - 1)
  }

  /** The decimal digits of a natural number, most significant first,
      without leading zeros ("0" for zero). */
  function Digits(n: nat): (s: seq<byte>)
    ensures 1 <= |s|
    ensures forall i :: 0 <= i < |s| ==> IsDigit(s[i])
    ensures s[0] == '0' ==> n == 0
    decreases n
  {
    if n < 10 then [DigitChar(n)] else Digits(n / 10) + [DigitChar(n % 10)]
  }

  /** The value of a string of decimal digits. */
  function DigitsValue(s: string): nat
    requires forall i :: 0 <= i < |s| ==> IsDigit(s[i])
  {
    if s == [] then 0 else 10 * DigitsValue(s[..|s| - 1]) + DigitValue(s[|s| - 1])
  }

  lemma {:induction false} DigitsRoundTrip(n: nat)
    ensures DigitsValue(Digits(n)) == n
    decreases n
  {
    if n >= 10 {
      var s := Digits(n);
      assert s[..|s| - 1] == Digits(n / 10);
      DigitsRoundTrip(n / 10);
    }
  }

  /** A number has at most k digits exactly when it is below 10^k. */
  lemma {:induction false} DigitsLength(n: nat, k: nat)
    requires k >= 1
    ensures |Digits(n)| <= k <==> n < Pow10(k)
    decreases n
  {
    if n >= 10 {
      if k == 1 {
        assert |Digits(n / 10)| >= 1;
      } else {
        DigitsLength(n / 10, k - 1);
        assert n / 10 < Pow10(k - 1) <==> n < 10 * Pow10(k - 1);
      }
    } else {
      assert Pow10(k) == 10 * Pow10(k - 1);
    }
  }

  /** `%d`: a minus sign for a negative value, then the digits of its
      magnitude. */
  function Decimal(n: int): (s: seq<byte>)
    ensures |s| >= 1
    ensures (s[0] == '-') <==> n < 0
    ensures '\0' !in s
  {
    if n < 0 then "-" + Digits(-n) else Digits(n)
  }

  /** Reading back a `%d` rendering. */
  function DecimalValue(s: string): int
    requires |s| >= 1
    requires forall i :: (if s[0] == '-' then 1 else 0) <= i < |s| ==> IsDigit(s[i])
  {
    if s[0] == '-' then -(DigitsValue(s[1..]) as int) else DigitsValue(s)
  }

  lemma DecimalRoundTrip(n: int)
    ensures DecimalValue(Decimal(n)) == n
  {
    if n < 0 {
      assert Decimal(n)[1..] == Digits(-n);
      DigitsRoundTrip(-n);
    } else {
      DigitsRoundTrip(n);
    }
  }

  /** The length of a `%d` rendering is at most k exactly when the value
      lies in the range those k characters can show. */
  lemma DecimalLength(n: int, k: nat)
    requires k >= 2
    ensures |Decimal(n)| <= k <==> -(Pow10(k - 1) as int) < n < Pow10(k)
  {
    if n < 0 {
      DigitsLength(-n, k - 1);
    } else {
      DigitsLength(n, k);
      assert Pow10(k) == 10 * Pow10(k - 1);
    }
  }
}
