/** The id parse the handlers of todos/todos.go share: Go's `strconv.Atoi` on a
    64-bit platform. It accepts an optional '+' or '-' followed by one or more
    ASCII decimal digits (leading zeros allowed) whose value fits Go's 64-bit
    `int`; anything else, including the empty string, a lone sign and a value
    that overflows, is an error. */
module IdParse {
  import opened Wrappers

  /** The bounds of Go's `int` on a 64-bit platform. */
  const MinInt: int := -0x8000_0000_0000_0000
  const MaxInt: int := 0x7FFF_FFFF_FFFF_FFFF

  predicate InIntRange(n: int) {
    MinInt <= n <= MaxInt
  }

  predicate IsDigit(c: char) {
    '0' <= c <= '9'
  }

  predicate IsSign(c: char) {
    c == '+' || c == '-'
  }

  predicate AllDigits(s: string) {
    forall i | 0 <= i < |s| :: IsDigit(s[i])
  }

  function DigitValue(c: char): (d: nat)
    requires IsDigit(c)
    ensures d < 10
  {
    (c as int) - ('0' as int)
  }

  function DigitChar(d: nat): (c: char)
    requires d < 10
    ensures IsDigit(c) && DigitValue(c) == d
  {
    (('0' as int) + d) as char
  }

  /** The value of a run of decimal digits, most significant first; the empty run has value 0. */
  function DecimalValue(s: string): nat
    requires AllDigits(s)
  {
    if s == [] then 0 else DecimalValue(s[..|s| - 1]) * 10 + DigitValue(s[|s| - 1])
  }

  /** Parses a path parameter as `strconv.Atoi` does: strip one leading sign,
      demand at least one digit and nothing but digits, negate after a '-',
      and fail when the value does not fit a 64-bit `int`. */
  function ParseId(s: string): (r: Option<int>)
    ensures r.Some? ==> InIntRange(r.value)
    ensures r.Some? ==> |s| > 0 && (IsDigit(s[0]) || (IsSign(s[0]) && |s| > 1))
    ensures r.Some? ==> forall i | 0 < i < |s| :: IsDigit(s[i])
    ensures r.Some? && r.value < 0 ==> s[0] == '-'
  {
    if s == [] then None
    else
      var digits := if IsSign(s[0]) then s[1..] else s;
      if digits == [] || !AllDigits(digits) then None
      else
        var magnitude: int := DecimalValue(digits);
        var n: int := if s[0] == '-' then -magnitude else magnitude;
        if InIntRange(n) then Some(n) else None
  }

  /** The decimal text of a natural number, without leading zeros. */
  function FormatNat(n: nat): (s: string)
    ensures |s| > 0 && AllDigits(s)
    ensures DecimalValue(s) == n
    decreases n
  {
    if n < 10 then [DigitChar(n)]
    else
      var s := FormatNat(n / 10) + [DigitChar(n % 10)];
      assert s[..|s| - 1] == FormatNat(n / 10);
      s
  }

  /** The decimal text of an integer, as a client writes an id into a path. */
  function FormatInt(n: int): string {
    if n < 0 then "-" + FormatNat(-n) else FormatNat(n)
  }

  /** Every id a 64-bit `int` can hold is accepted in its decimal form and read back as itself. */
  lemma ParseFormatRoundTrip(n: int)
    requires InIntRange(n)
    ensures ParseId(FormatInt(n)) == Some(n)
  {
  }

  /** Well-formed decimal text whose value does not fit a 64-bit `int` is rejected: the overflow error. */
  lemma ParseRejectsOverflow(n: int)
    requires !InIntRange(n)
    ensures ParseId(FormatInt(n)) == None
  {
  }

  lemma {:induction false} LeadingZeroValue(d: string)
    requires AllDigits(d)
    ensures DecimalValue("0" + d) == DecimalValue(d)
  {
    if d != [] {
      var z := "0" + d;
      assert z[..|z| - 1] == "0" + d[..|d| - 1];
      LeadingZeroValue(d[..|d| - 1]);
    }
  }

  /** A leading zero does not change the id: "007" names the same id as "7". */
  lemma ParseIgnoresLeadingZero(d: string)
    requires |d| > 0 && AllDigits(d)
    ensures ParseId("0" + d) == ParseId(d)
  {
    LeadingZeroValue(d);
  }

  /** A leading '+' does not change the id: "+7" names the same id as "7". */
  lemma ParseIgnoresPlusSign(d: string)
    requires |d| > 0 && AllDigits(d)
    ensures ParseId("+" + d) == ParseId(d)
  {
  }

  /** After a sign, a leading zero does not change the id either: "-007" names the same id as "-7". */
  lemma SignedLeadingZero(sign: char, d: string)
    requires IsSign(sign) && |d| > 0 && AllDigits(d)
    ensures ParseId([sign] + "0" + d) == ParseId([sign] + d)
  {
    LeadingZeroValue(d);
    var a := [sign] + "0" + d;
    var b := [sign] + d;
    assert a[1..] == "0" + d;
    assert b[1..] == d;
  }

  /** A minus sign before zero still names id 0: "-0" parses to 0. */
  lemma ParseNegativeZero()
    ensures ParseId("-0") == Some(0)
  {
    assert "-0"[1..] == "0";
    assert DecimalValue("0") == 0;
  }
}
