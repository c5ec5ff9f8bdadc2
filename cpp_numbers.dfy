/** Decimal integers as the C++ library reads and writes them: std::stoi,
    operator>> into an int, std::to_string and operator<< on an integer. */
module CppNumbers {
  import opened CppStream

  datatype Option<T> = None | Some(value: T)

  /** Bounds of a 32-bit int. */
  const IntMin: int := -0x8000_0000
  const IntMax: int := 0x7FFF_FFFF

  /** 2^64: a size_t wraps modulo this. */
  const SizeModulus: int := 0x1_0000_0000_0000_0000

  predicate IsDigit(c: char) {
    '0' <= c <= '9'
  }

  predicate AllDigits(s: string) {
    forall k :: 0 <= k < |s| ==> IsDigit(s[k])
  }

  function DigitChar(n: nat): (c: char)
    requires n < 10
    ensures IsDigit(c)
  {
    ['0', '1', '2', '3', '4', '5', '6', '7', '8', '9'][n]
  }

  /** Value of a string of decimal digits, most significant first. */
  function DigitsValue(ds: string): nat
    requires AllDigits(ds)
    decreases |ds|
  {
    if ds == [] then 0
    else DigitsValue(ds[..|ds| - 1]) * 10 + (ds[|ds| - 1] as int - '0' as int)
  }

  /** Length of the leading run of decimal digits of s. */
  function DigitRun(s: string): (k: nat)
    ensures k <= |s|
    ensures k < |s| ==> !IsDigit(s[k])
  {
    if s == [] || !IsDigit(s[0]) then 0 else 1 + DigitRun(s[1..])
  }

  /** The run is made of digits. */
  lemma {:induction false} DigitRunDigits(s: string)
    ensures AllDigits(s[..DigitRun(s)])
    decreases |s|
  {
    if s != [] && IsDigit(s[0]) {
      DigitRunDigits(s[1..]);
      var k := DigitRun(s);
      assert s[..k] == [s[0]] + s[1..][..k - 1];
    }
  }

  /** Decimal text of a natural number, without leading zeros. */
  function NatText(n: nat): (s: string)
    ensures s != [] && AllDigits(s)
    ensures s[0] != '0' || n == 0
    decreases n
  {
    if n < 10 then [DigitChar(n)] else NatText(n / 10) + [DigitChar(n % 10)]
  }

  /** Decimal text of an integer, as std::to_string and operator<< write it. */
  function IntText(n: int): (s: string)
    ensures s != [] && (s[0] == '-' || IsDigit(s[0]))
    ensures forall k :: 0 <= k < |s| ==> !IsSpace(s[k]) && s[k] != ','
  {
    if n < 0 then "-" + NatText(-n) else NatText(n)
  }

  lemma {:induction false} NatTextValue(n: nat)
    ensures DigitsValue(NatText(n)) == n
    decreases n
  {
    if n >= 10 {
      NatTextValue(n / 10);
      var s := NatText(n);
      assert s[..|s| - 1] == NatText(n / 10);
    }
  }

  /** What strtol and num_get scan: leading whitespace, an optional sign,
      then the longest run of decimal digits; None when there is no digit. */
  function LeadingInteger(s: string): Option<int> {
    var t := SkipSpace(s);
    var negative := t != [] && t[0] == '-';
    var u := if t != [] && (t[0] == '-' || t[0] == '+') then t[1..] else t;
    var k := DigitRun(u);
    if k == 0 then None
    else
      DigitRunDigits(u);
      var v: int := DigitsValue(u[..k]);
      Some(if negative then -v else v)
  }

  /** std::stoi: None stands for the std::invalid_argument (no digits) and
      std::out_of_range (outside int) exceptions. */
  function Stoi(s: string): (r: Option<int>)
    ensures r.Some? ==> IntMin <= r.value <= IntMax && LeadingInteger(s) == r
    ensures r.None? ==> LeadingInteger(s).None? || LeadingInteger(s).value < IntMin || LeadingInteger(s).value > IntMax
  {
    match LeadingInteger(s)
    case None => None
    case Some(v) => if IntMin <= v <= IntMax then Some(v) else None
  }

  /** stream >> n for an int n: 0 when no number can be read, the nearest
      bound of int when the number does not fit. */
  function StreamInt(s: string): (n: int)
    ensures IntMin <= n <= IntMax
    ensures LeadingInteger(s).None? ==> n == 0
    ensures LeadingInteger(s).Some? && IntMin <= LeadingInteger(s).value <= IntMax ==> n == LeadingInteger(s).value
  {
    match LeadingInteger(s)
    case None => 0
    case Some(v) => if v < IntMin then IntMin else if v > IntMax then IntMax else v
  }

  /** Two's-complement wrap of an integer into int (what ++ on INT_MAX
      does on the platforms the program targets). */
  function Wrap32(v: int): (w: int)
    ensures IntMin <= w <= IntMax
    ensures IntMin <= v <= IntMax ==> w == v
    ensures (w - v) % 0x1_0000_0000 == 0
  {
    (v - IntMin) % 0x1_0000_0000 + IntMin
  }

  /** Reading back the text an integer was written as gives the integer. */
  lemma {:induction false} LeadingIntegerOfText(n: int)
    ensures LeadingInteger(IntText(n)) == Some(n)
  {
    var s := IntText(n);
    var m: nat := if n < 0 then -n else n;
    var ds := NatText(m);
    assert SkipSpace(s) == s;
    var u := if n < 0 then s[1..] else s;
    assert u == ds;
    assert DigitRun(u) == |u|;
    assert u[..|u|] == ds;
    NatTextValue(m);
  }

  /** A counter written with operator<< reads back with operator>> as the
      same value. */
  lemma StreamIntOfText(n: int)
    requires IntMin <= n <= IntMax
    ensures StreamInt(IntText(n)) == n
  {
    LeadingIntegerOfText(n);
  }

  /** A key written with std::to_string is what std::stoi reads back. */
  lemma StoiOfText(n: int)
    requires IntMin <= n <= IntMax
    ensures Stoi(IntText(n)) == Some(n)
  {
    LeadingIntegerOfText(n);
  }
}
