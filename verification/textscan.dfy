/**
 * The decimal text conversions the Felix command handler relies on:
 * `strtol(s, NULL, 10)` and the `%d` conversion of `sscanf`, as the GNU C
 * library performs them on a platform with a 32-bit `int` and a 64-bit
 * `long`, together with the decimal rendering a client uses to build a
 * command. Machine widths and saturation are written out explicitly.
 */
module TextScan {
  import opened Results

  const INT_MIN: int := -0x8000_0000
  const INT_MAX: int := 0x7FFF_FFFF
  const LONG_MIN: int := -0x8000_0000_0000_0000
  const LONG_MAX: int := 0x7FFF_FFFF_FFFF_FFFF

  /** Whitespace as `isspace` classifies it in the C locale. */
  predicate IsSpace(c: char) {
    c == ' ' || c == '\t' || c == '\n' || c == '\r' || c == '\U{000B}' || c == '\U{000C}'
  }

  predicate IsDigit(c: char) {
    '0' <= c <= '9'
  }

  predicate AllDigits(s: string) {
    forall i :: 0 <= i < |s| ==> IsDigit(s[i])
  }

  function DigitValue(c: char): (d: nat)
    requires IsDigit(c)
    ensures d < 10
  {
    c as int - '0' as int
  }

  function DigitChar(d: nat): (c: char)
    requires d < 10
    ensures IsDigit(c) && DigitValue(c) == d
  {
    ('0' as int + d) as char
  }

  /** Drops the leading whitespace, which every numeric conversion skips first. */
  function SkipSpace(s: string): (r: string)
    ensures r == [] || !IsSpace(r[0])
  {
    if s != [] && IsSpace(s[0]) then SkipSpace(s[1..]) else s
  }

  /** The length of the longest run of digits at the front of `s`. */
  function DigitRun(s: string): (k: nat)
    ensures k <= |s| && AllDigits(s[..k])
    ensures k == |s| || !IsDigit(s[k])
  {
    if s == [] || !IsDigit(s[0]) then 0
    else
      var k := 1 + DigitRun(s[1..]);
      assert forall i :: 1 <= i < k ==> s[..k][i] == s[1..][..k - 1][i - 1];
      k
  }

  /** The number a run of decimal digits spells, most significant digit first. */
  function DigitsValue(ds: string): (v: nat)
    requires AllDigits(ds)
  {
    if ds == [] then 0 else DigitsValue(ds[..|ds| - 1]) * 10 + DigitValue(ds[|ds| - 1])
  }

  /** The text after an optional leading sign. */
  function Unsigned(t: string): string {
    if t != [] && (t[0] == '-' || t[0] == '+') then t[1..] else t
  }

  /** A number read from the front of a text, and the text left after it. */
  datatype Scan = Scan(value: int, rest: string)

  /**
   * Reads one decimal number: leading whitespace, an optional sign, then at
   * least one digit, taken greedily. `None` when no digit follows, which is
   * the "no conversion" outcome of both `strtol` and `%d`.
   */
  function ScanDecimal(s: string): (r: Option<Scan>)
    ensures r.Some? ==> r.value.rest == [] || !IsDigit(r.value.rest[0])
  {
    var t := SkipSpace(s);
    var u := Unsigned(t);
    var k := DigitRun(u);
    if k == 0 then None
    else
      var m: int := DigitsValue(u[..k]);
      Some(Scan(if t[0] == '-' then -m else m, u[k..]))
  }

  /** What `strtol(s, NULL, 10)` yields: the value, and whether it set `errno` to ERANGE. */
  datatype Conversion = Conversion(value: int, outOfRange: bool)

  /** Values beyond a 64-bit `long` saturate at its bounds and report ERANGE; no digits gives 0. */
  function Strtol(s: string): (r: Conversion)
    ensures LONG_MIN <= r.value <= LONG_MAX
    ensures r.outOfRange ==> r.value == LONG_MIN || r.value == LONG_MAX
  {
    match ScanDecimal(s)
    case None => Conversion(0, false)
    case Some(sc) =>
      if sc.value > LONG_MAX then Conversion(LONG_MAX, true)
      else if sc.value < LONG_MIN then Conversion(LONG_MIN, true)
      else Conversion(sc.value, false)
  }

  /** The conversion of a `long` to a 32-bit two's-complement `int`: reduction modulo 2^32. */
  function Int32(v: int): (r: int)
    ensures INT_MIN <= r <= INT_MAX
    ensures (r - v) % 0x1_0000_0000 == 0
    ensures INT_MIN <= v <= INT_MAX ==> r == v
  {
    (v - INT_MIN) % 0x1_0000_0000 + INT_MIN
  }

  /** `sscanf`'s `%d`: the library reads a `long` as `strtol` does and stores it into an `int`. */
  function ScanInt(s: string): (r: Option<Scan>)
    ensures r.Some? <==> ScanDecimal(s).Some?
    ensures r.Some? ==> INT_MIN <= r.value.value <= INT_MAX && r.value.rest == ScanDecimal(s).value.rest
  {
    match ScanDecimal(s)
    case None => None
    case Some(sc) => Some(Scan(Int32(Strtol(s).value), sc.rest))
  }

  /**
   * Whether `sscanf(s, "%d %d", &n, &v)` returns 2, and the two values. The
   * blank in the format matches any amount of whitespace, which `%d` skips
   * anyway.
   */
  function ScanTwoInts(s: string): (r: Option<(int, int)>)
    ensures r.Some? ==> INT_MIN <= r.value.0 <= INT_MAX && INT_MIN <= r.value.1 <= INT_MAX
    ensures r.Some? ==> ScanInt(s).Some? && r.value.0 == ScanInt(s).value.value
  {
    match ScanInt(s)
    case None => None
    case Some(a) =>
      match ScanInt(a.rest)
      case None => None
      case Some(b) => Some((a.value, b.value))
  }

  /** The decimal digits of a natural number, without leading zeros. */
  function FormatNat(k: nat): (s: string)
    ensures s != [] && AllDigits(s)
  {
    if k < 10 then [DigitChar(k)] else FormatNat(k / 10) + [DigitChar(k % 10)]
  }

  /** The decimal text of an integer, with a leading `-` when it is negative. */
  function FormatInt(n: int): (s: string)
    ensures s != [] && (s[0] == '-' || IsDigit(s[0]))
  {
    if n < 0 then "-" + FormatNat(-n) else FormatNat(n)
  }

  /** Reading back the digits of `k` yields `k`. */
  lemma {:induction false} FormatNatValue(k: nat)
    ensures DigitsValue(FormatNat(k)) == k
  {
    if k >= 10 {
      var s := FormatNat(k);
      assert s[..|s| - 1] == FormatNat(k / 10);
      FormatNatValue(k / 10);
    }
  }

  /** A digit run stops exactly where the digits stop. */
  lemma {:induction false} DigitRunStops(ds: string, rest: string)
    requires AllDigits(ds)
    requires rest == [] || !IsDigit(rest[0])
    ensures DigitRun(ds + rest) == |ds|
  {
    if ds != [] {
      assert (ds + rest)[1..] == ds[1..] + rest;
      DigitRunStops(ds[1..], rest);
    }
  }

  /** The magnitude's digits of a formatted integer. */
  function Magnitude(n: int): (ds: string)
    ensures ds != [] && AllDigits(ds)
  {
    if n < 0 then FormatNat(-n) else FormatNat(n)
  }

  /** A formatted integer has no leading blank; after its sign come exactly its magnitude's digits. */
  lemma SignOfFormatted(n: int, rest: string)
    ensures SkipSpace(FormatInt(n) + rest) == FormatInt(n) + rest
    ensures Unsigned(FormatInt(n) + rest) == Magnitude(n) + rest
    ensures (FormatInt(n) + rest)[0] == '-' <==> n < 0
  {
    var s := FormatInt(n) + rest;
    assert s[0] == FormatInt(n)[0];
    if n < 0 {
      assert s[1..] == Magnitude(n) + rest;
    }
  }

  /** Reading the digits at the front of `ds + rest` yields the number `ds` spells. */
  lemma DigitsThenRest(ds: string, rest: string)
    requires AllDigits(ds)
    requires rest == [] || !IsDigit(rest[0])
    ensures DigitRun(ds + rest) == |ds|
    ensures (ds + rest)[..|ds|] == ds && (ds + rest)[|ds|..] == rest
  {
    DigitRunStops(ds, rest);
  }

  /** Decimal scanning inverts decimal formatting, leaving the text after the number untouched. */
  lemma ScanFormatted(n: int, rest: string)
    requires rest == [] || !IsDigit(rest[0])
    ensures ScanDecimal(FormatInt(n) + rest) == Some(Scan(n, rest))
  {
    SignOfFormatted(n, rest);
    DigitsThenRest(Magnitude(n), rest);
    FormatNatValue(if n < 0 then -n else n);
  }

  /** Leading whitespace does not change what is read. */
  lemma BlankThenNumber(n: int)
    ensures ScanDecimal(" " + FormatInt(n)) == Some(Scan(n, []))
  {
    var s := FormatInt(n);
    assert SkipSpace(" " + s) == SkipSpace(s);
    ScanFormatted(n, []);
    assert s + [] == s;
  }

  /** `strtol` reads back any formatted `long` without a range error. */
  lemma StrtolFormatted(n: int, rest: string)
    requires LONG_MIN <= n <= LONG_MAX
    requires rest == [] || !IsDigit(rest[0])
    ensures Strtol(FormatInt(n) + rest) == Conversion(n, false)
  {
    ScanFormatted(n, rest);
  }

  /** `sscanf("%d %d")` reads back two formatted `int`s separated by a blank. */
  lemma ScanTwoFormatted(n: int, v: int)
    requires INT_MIN <= n <= INT_MAX && INT_MIN <= v <= INT_MAX
    ensures ScanTwoInts(FormatInt(n) + " " + FormatInt(v)) == Some((n, v))
  {
    var rest := " " + FormatInt(v);
    assert FormatInt(n) + " " + FormatInt(v) == FormatInt(n) + rest;
    ScanIntFormatted(n, rest);
    BlankThenNumber(v);
    assert ScanInt(rest) == Some(Scan(v, []));
  }

  /** `%d` reads back any formatted `int`. */
  lemma ScanIntFormatted(n: int, rest: string)
    requires INT_MIN <= n <= INT_MAX
    requires rest == [] || !IsDigit(rest[0])
    ensures ScanInt(FormatInt(n) + rest) == Some(Scan(n, rest))
  {
    ScanFormatted(n, rest);
  }

  /** Skipping blanks keeps a digit-free text digit-free. */
  lemma {:induction false} SkipKeepsNoDigit(s: string)
    requires forall i :: 0 <= i < |s| ==> !IsDigit(s[i])
    ensures forall i :: 0 <= i < |SkipSpace(s)| ==> !IsDigit(SkipSpace(s)[i])
  {
    if s != [] && IsSpace(s[0]) {
      SkipKeepsNoDigit(s[1..]);
    }
  }

  /** A text without a single digit converts to nothing. */
  lemma NoDigitNoNumber(s: string)
    requires forall i :: 0 <= i < |s| ==> !IsDigit(s[i])
    ensures ScanDecimal(s) == None
    ensures ScanInt(s) == None && ScanTwoInts(s) == None
    ensures Strtol(s) == Conversion(0, false)
  {
    var t := SkipSpace(s);
    SkipKeepsNoDigit(s);
    var u := Unsigned(t);
    if u != [] {
      assert u[0] == t[0] || u[0] == t[1];
    }
  }
}
