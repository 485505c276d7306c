/**
 * C text conventions the LDB console relies on.
 *
 * A C string is modelled as the sequence of its characters before the
 * terminating NUL. `char` is signed on the platforms LDB is built for, so a
 * byte 0x80..0xFF compares below ' '. Binary data is a sequence of bytes.
 */
module CText {

  datatype Option<+T> = None | Some(value: T)

  /** One byte of binary data (keys, records). */
  type byte = b: int | 0 <= b < 256

  /** `c > ' '` on a signed `char`: only 0x21..0x7F qualify, bytes 0x80..0xFF are negative. */
  predicate Printable(c: char) {
    0x20 < c as int < 0x80
  }

  /** A lowercase hexadecimal digit, the only form the key parser accepts. */
  predicate IsLowerHex(c: char) {
    '0' <= c <= '9' || 'a' <= c <= 'f'
  }

  /** `tolower` in the C locale: only 'A'..'Z' change. */
  function ToLower(c: char): char {
    if 'A' <= c <= 'Z' then (c as int + 32) as char else c
  }

  /** `stricmp` (src/command.c:687-691): walks both strings while neither has ended. */
  method StrICmp(a: string, b: string) returns (equal: bool)
    ensures equal <==> |a| == |b| && forall i :: 0 <= i < |a| ==> ToLower(a[i]) == ToLower(b[i])
  {
    var i := 0;
    while i < |a| && i < |b|
      invariant 0 <= i <= |a| && i <= |b|
      invariant forall k :: 0 <= k < i ==> ToLower(a[k]) == ToLower(b[k])
    {
      if ToLower(a[i]) != ToLower(b[i]) {
        return false;
      }
      i := i + 1;
    }
    // both pointers now sit on a terminator or one of them does: `*a == *b`
    equal := i == |a| && i == |b|;
  }

  /** Whether `pat` occurs in `s` starting at index `k`. */
  predicate OccursAt(s: string, pat: string, k: int) {
    0 <= k && k + |pat| <= |s| && s[k..k + |pat|] == pat
  }

  /** `strstr` from index `from` on: the first index at which `pat` occurs. */
  function Find(s: string, pat: string, from: nat): (r: Option<nat>)
    ensures r.Some? ==> from <= r.value && OccursAt(s, pat, r.value)
    ensures r.Some? ==> forall k :: from <= k < r.value ==> !OccursAt(s, pat, k)
    ensures r.None? ==> forall k :: from <= k ==> !OccursAt(s, pat, k)
    decreases |s| - from
  {
    if from + |pat| > |s| then None
    else if s[from..from + |pat|] == pat then Some(from)
    else Find(s, pat, from + 1)
  }

  // ---------------------------------------------------------------------
  // strtol / atoi, as glibc implements them
  // ---------------------------------------------------------------------

  const LONG_MAX: int := 0x7FFF_FFFF_FFFF_FFFF
  const LONG_MIN: int := -0x8000_0000_0000_0000

  predicate IsSpace(c: char) {
    c == ' ' || c == '\t' || c == '\n' || c == '\r' || c == '\U{0B}' || c == '\U{0C}'
  }

  /** Value of `c` as a digit in bases up to 36; 36 when it is no digit at all. */
  function DigitValue(c: char): (v: nat)
    ensures v <= 36
  {
    if '0' <= c <= '9' then c as int - '0' as int
    else if 'a' <= c <= 'z' then c as int - 'a' as int + 10
    else if 'A' <= c <= 'Z' then c as int - 'A' as int + 10
    else 36
  }

  /** Length of the run of base-`base` digits at the start of `s`. */
  function DigitRun(s: string, base: nat): (n: nat)
    ensures n <= |s|
    ensures forall i :: 0 <= i < n ==> DigitValue(s[i]) < base
    ensures n < |s| ==> DigitValue(s[n]) >= base
  {
    if s == [] || DigitValue(s[0]) >= base then 0 else 1 + DigitRun(s[1..], base)
  }

  /** The number a digit string denotes in base `base`, most significant digit first. */
  function DigitsValue(d: string, base: nat): nat {
    if d == [] then 0
    else DigitsValue(d[..|d| - 1], base) * base + DigitValue(d[|d| - 1])
  }

  /** Text after leading white space. */
  function SkipSpace(s: string): (r: string)
    ensures |r| <= |s| && r == s[|s| - |r|..]
    ensures r == [] || !IsSpace(r[0])
  {
    if s != [] && IsSpace(s[0]) then SkipSpace(s[1..]) else s
  }

  /** The digits `strtol` reads after the sign: for base 16 an optional "0x"/"0X" comes first. */
  function Magnitude(u: string, base: nat): nat
    requires base == 10 || base == 16
  {
    var w := if base == 16 && |u| >= 3 && u[0] == '0' && (u[1] == 'x' || u[1] == 'X') && DigitValue(u[2]) < 16
             then u[2..] else u;
    DigitsValue(w[..DigitRun(w, base)], base)
  }

  /**
   * `strtol(s, NULL, base)` for base 10 or 16: white space, an optional sign,
   * then the longest run of digits; the value saturates at LONG_MIN / LONG_MAX.
   */
  function StrToL(s: string, base: nat): (r: int)
    requires base == 10 || base == 16
    ensures LONG_MIN <= r <= LONG_MAX
    ensures AllDigits(s, base) ==> r == if DigitsValue(s, base) > LONG_MAX then LONG_MAX else DigitsValue(s, base)
  {
    DigitsOnly(s, base);
    var t := SkipSpace(s);
    if t != [] && t[0] == '-' then
      var v: int := Magnitude(t[1..], base);
      if v > -LONG_MIN then LONG_MIN else -v
    else
      var v := Magnitude(if t != [] && t[0] == '+' then t[1..] else t, base);
      if v > LONG_MAX then LONG_MAX else v
  }

  /** Every character of `s` is a digit in base `base`. */
  predicate AllDigits(s: string, base: nat) {
    forall i :: 0 <= i < |s| ==> DigitValue(s[i]) < base
  }

  /** A word made of digits only has no white space, sign or "0x" before them, and is read whole. */
  lemma DigitsOnly(s: string, base: nat)
    requires base == 10 || base == 16
    ensures AllDigits(s, base) ==>
      && SkipSpace(s) == s
      && (s == [] || (s[0] != '-' && s[0] != '+'))
      && Magnitude(s, base) == DigitsValue(s, base)
  {
    if AllDigits(s, base) {
      if s != [] {
        DigitChar(s[0], base);
      }
      if |s| >= 3 {
        DigitChar(s[1], base);
      }
      DigitRunWhole(s, base);
      assert s[..|s|] == s;
    }
  }

  /** A digit of base 10 or 16 is neither white space, nor a sign, nor the `x` of a "0x" prefix. */
  lemma DigitChar(c: char, base: nat)
    requires base <= 16 && DigitValue(c) < base
    ensures !IsSpace(c) && c != '-' && c != '+' && c != 'x' && c != 'X'
  {
  }

  lemma {:induction false} DigitRunWhole(s: string, base: nat)
    requires AllDigits(s, base)
    ensures DigitRun(s, base) == |s|
  {
    if s != [] {
      assert AllDigits(s[1..], base) by {
        forall i | 0 <= i < |s| - 1 ensures DigitValue(s[1..][i]) < base {
          assert s[1..][i] == s[i + 1];
        }
      }
      DigitRunWhole(s[1..], base);
    }
  }

  /** The `(int)` conversion of a wider integer: two's complement, keeping the low 32 bits. */
  function Int32(x: int): (r: int)
    ensures -0x8000_0000 <= r < 0x8000_0000
    ensures (r - x) % 0x1_0000_0000 == 0
    ensures -0x8000_0000 <= x < 0x8000_0000 ==> r == x
  {
    var m := x % 0x1_0000_0000;
    if m >= 0x8000_0000 then m - 0x1_0000_0000 else m
  }

  /** `atoi`, which glibc implements as `(int) strtol(s, NULL, 10)`. */
  function Atoi(s: string): (r: int)
    ensures -0x8000_0000 <= r < 0x8000_0000
  {
    Int32(StrToL(s, 10))
  }

  /** The decimal spelling of `n`, as `printf("%d")` writes it. */
  function DecimalString(n: nat): (s: string)
    ensures |s| > 0
    ensures forall i :: 0 <= i < |s| ==> '0' <= s[i] <= '9'
  {
    if n < 10 then [('0' as int + n) as char]
    else DecimalString(n / 10) + [('0' as int + n % 10) as char]
  }

  lemma {:induction false} DecimalValue(n: nat)
    ensures DigitsValue(DecimalString(n), 10) == n
  {
    if n >= 10 {
      var s := DecimalString(n);
      assert s[..|s| - 1] == DecimalString(n / 10);
      DecimalValue(n / 10);
    }
  }

  /** `atoi` reads back every non-negative `int` written in decimal. */
  lemma AtoiDecimal(n: nat)
    requires n < 0x8000_0000
    ensures Atoi(DecimalString(n)) == n
  {
    var s := DecimalString(n);
    assert AllDigits(s, 10);
    DecimalValue(n);
  }

  /** `atoi` of a word that does not start with a sign or a digit is 0. */
  lemma AtoiNoDigits(s: string)
    requires s != [] && !IsSpace(s[0]) && s[0] != '-' && s[0] != '+' && !('0' <= s[0] <= '9')
    ensures Atoi(s) == 0
  {
    assert SkipSpace(s) == s;
    assert DigitRun(s, 10) == 0;
    assert s[..0] == [];
    assert Magnitude(s, 10) == 0;
  }
}
