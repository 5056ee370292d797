/**
 The pieces of Go's integer and string behaviour that several components rely on: int64
 wrap-around, strconv.ParseInt(s, 10, 64), decimal formatting and substring search.
 */
module GoText {

  datatype Option<+T> = None | Some(value: T)

  const INT64_MAX: int := 0x7fff_ffff_ffff_ffff
  const INT64_MIN: int := -INT64_MAX - 1

  type uint32 = x: int | 0 <= x < 0x1_0000_0000

  // Nanoseconds, as time.Duration counts them.
  const SECOND: int := 1_000_000_000

  predicate InInt64(n: int) {
    INT64_MIN <= n <= INT64_MAX
  }

  // The int64 that 64-bit arithmetic leaves in place of n.
  function Wrap64(n: int): (r: int)
    ensures InInt64(r) && (InInt64(n) ==> r == n)
    ensures 0 <= n ==> r <= n
  {
    (n - INT64_MIN) % 0x1_0000_0000_0000_0000 + INT64_MIN
  }

  // Go's integer division truncates toward zero.
  function QuoTrunc(a: int, b: int): int
    requires b > 0
  {
    if a >= 0 then a / b else -(-a / b)
  }

  function Min(a: int, b: int): int { if a <= b then a else b }

  function Max(a: int, b: int): int { if a >= b then a else b }

  // ---------- Decimal numerals ----------

  predicate IsDigit(c: char) {
    '0' <= c <= '9'
  }

  predicate IsNumeral(s: string) {
    forall i | 0 <= i < |s| :: IsDigit(s[i])
  }

  function NumeralValue(s: string): nat
    requires IsNumeral(s)
  {
    if s == "" then 0 else 10 * NumeralValue(s[..|s| - 1]) + (s[|s| - 1] as int - '0' as int)
  }

  /** strconv.ParseInt(s, 10, 64); None stands for a syntax or range error. */
  function ParseInt64(s: string): (r: Option<int>)
    ensures r.Some? ==> InInt64(r.value)
    ensures r.Some? && r.value < 0 ==> s != "" && s[0] == '-'
  {
    if s == "" then None
    else
      var digits := if s[0] == '-' || s[0] == '+' then s[1..] else s;
      if digits == "" || !IsNumeral(digits) then None
      else
        var v: int := NumeralValue(digits);
        var n := if s[0] == '-' then -v else v;
        if InInt64(n) then Some(n) else None
  }

  // A sign or none.
  predicate IsSign(sign: string) {
    sign == "" || sign == "+" || sign == "-"
  }

  function Signed(sign: string, v: nat): int {
    if sign == "-" then -(v as int) else v
  }

  /** A sign, digits, and a value in range are read as that value; whatever is read is of this form. */
  lemma ParseReadsExactly(s: string, n: int)
    ensures ParseInt64(s) == Some(n)
            <==> InInt64(n) && exists sign, d :: IsSign(sign) && s == sign + d && d != "" && IsNumeral(d) && n == Signed(sign, NumeralValue(d))
  {
    if ParseInt64(s) == Some(n) {
      var sign := if s[0] == '-' then "-" else if s[0] == '+' then "+" else "";
      assert s == sign + s[|sign|..] && IsSign(sign) && IsNumeral(s[|sign|..]);
    }
    forall sign, d | IsSign(sign) && s == sign + d && d != "" && IsNumeral(d)
      ensures ParseInt64(s) == if InInt64(Signed(sign, NumeralValue(d))) then Some(Signed(sign, NumeralValue(d))) else None
    {
      assert s[|sign|..] == d && s[0] == if sign == "" then d[0] else sign[0];
    }
  }

  /** ParseInt reads the decimal digits of every number that is not negative. */
  lemma ParseReadsDigits(n: nat)
    requires n <= INT64_MAX
    ensures ParseInt64(Digits(n)) == Some(n)
  {
  }

  function Digits(n: nat): (s: string)
    ensures s != "" && IsNumeral(s) && NumeralValue(s) == n
  {
    var last := [((n % 10) + '0' as int) as char];
    if n < 10 then last else Digits(n / 10) + last
  }

  function PadZeros(s: string, width: nat): string
    decreases width - |s|
  {
    if |s| >= width then s else PadZeros("0" + s, width)
  }

  lemma {:induction false} LeadingZero(s: string)
    requires IsNumeral(s)
    ensures IsNumeral("0" + s) && NumeralValue("0" + s) == NumeralValue(s)
  {
    var z := "0" + s;
    if s != "" {
      LeadingZero(s[..|s| - 1]);
      assert z[..|z| - 1] == "0" + s[..|s| - 1];
    }
  }

  lemma {:induction false} PaddingKeepsValue(s: string, width: nat)
    requires IsNumeral(s)
    ensures |PadZeros(s, width)| >= |s|
    ensures IsNumeral(PadZeros(s, width)) && NumeralValue(PadZeros(s, width)) == NumeralValue(s)
    decreases width - |s|
  {
    if |s| < width {
      LeadingZero(s);
      PaddingKeepsValue("0" + s, width);
    }
  }

  // fmt's %010d: at least ten characters, the sign first and counted among them.
  function Format010d(n: int): string {
    if n < 0 then "-" + PadZeros(Digits(-n), 9) else PadZeros(Digits(n), 10)
  }

  /** The format has ten characters or more, and its sign, if any, comes first. */
  lemma FormatIsWide(n: int)
    ensures |Format010d(n)| >= 10
    ensures Format010d(n)[0] == '-' <==> n < 0
  {
    PadWidth(Digits(if n < 0 then -n else n), if n < 0 then 9 else 10);
  }

  lemma {:induction false} PadWidth(s: string, width: nat)
    requires s != "" && IsNumeral(s)
    ensures |PadZeros(s, width)| == Max(|s|, width) && IsDigit(PadZeros(s, width)[0])
    decreases width - |s|
  {
    if |s| < width {
      PadWidth("0" + s, width);
    }
  }

  /** strconv.ParseInt inverts %010d on every int64. */
  lemma ParseInvertsFormat(n: int)
    requires InInt64(n)
    ensures ParseInt64(Format010d(n)) == Some(n)
    ensures '/' !in Format010d(n)
  {
    var s := Format010d(n);
    if n < 0 {
      PaddingKeepsValue(Digits(-n), 9);
      assert s[1..] == PadZeros(Digits(-n), 9);
    } else {
      PaddingKeepsValue(Digits(n), 10);
    }
  }

  // ---------- Substrings ----------

  predicate HasPrefix(s: string, prefix: string) {
    |prefix| <= |s| && s[..|prefix|] == prefix
  }

  // The first index of c, or |s| when it does not occur.
  function IndexOf(s: string, c: char): (i: nat)
    ensures i <= |s| && (i < |s| ==> s[i] == c)
    ensures forall j | 0 <= j < i :: s[j] != c
  {
    if s == "" || s[0] == c then 0 else 1 + IndexOf(s[1..], c)
  }

  predicate OccursAt(s: string, sub: string, i: int) {
    0 <= i && i + |sub| <= |s| && s[i..i + |sub|] == sub
  }

  // strings.LastIndex: the last occurrence at or before position `from`, -1 if there is none.
  function LastIndexFrom(s: string, sub: string, from: int): (i: int)
    requires from <= |s|
    ensures -1 <= i && (i >= 0 ==> OccursAt(s, sub, i))
    ensures forall j | i < j <= from :: !OccursAt(s, sub, j)
    decreases from
  {
    if from < 0 then -1 else if OccursAt(s, sub, from) then from else LastIndexFrom(s, sub, from - 1)
  }

  function LastIndex(s: string, sub: string): (i: int)
    ensures -1 <= i && (i >= 0 ==> OccursAt(s, sub, i))
    ensures forall j | i < j :: !OccursAt(s, sub, j)
  {
    LastIndexFrom(s, sub, |s|)
  }

  // ---------- Sequences ----------

  predicate Nondecreasing(times: seq<int>) {
    forall i, j | 0 <= i < j < |times| :: times[i] <= times[j]
  }

  lemma TwiceCounted<T>(s: seq<T>, i: nat, j: nat)
    requires i < j < |s| && s[i] == s[j]
    ensures multiset(s)[s[i]] >= 2
  {
    assert s == s[..i] + [s[i]] + s[i + 1..j] + [s[j]] + s[j + 1..];
  }

  lemma OnceCounted<T>(s: seq<T>, a: nat)
    requires (forall i, j | 0 <= i < j < |s| :: s[i] != s[j]) && a < |s|
    ensures multiset(s)[s[a]] == 1
  {
    assert s == s[..a] + [s[a]] + s[a + 1..];
    assert s[a] !in s[..a] && s[a] !in s[a + 1..];
  }
}
