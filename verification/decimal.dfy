/** Printing integers in base ten and reading them back, as fmt's %d and strconv.Atoi do. */
module Decimal {
  import opened Options

  const MAX_INT64: int := 0x7FFF_FFFF_FFFF_FFFF
  const MIN_INT64: int := -0x8000_0000_0000_0000

  predicate InInt64(n: int) { MIN_INT64 <= n <= MAX_INT64 }

  /** Two's complement wrap-around of a 64-bit addition. */
  function Wrap(n: int): (r: int)
    requires MIN_INT64 - 0x1_0000_0000_0000_0000 <= n <= MAX_INT64 + 0x1_0000_0000_0000_0000
    ensures InInt64(r)
    ensures r == n || r == n - 0x1_0000_0000_0000_0000 || r == n + 0x1_0000_0000_0000_0000
  {
    if n > MAX_INT64 then n - 0x1_0000_0000_0000_0000
    else if n < MIN_INT64 then n + 0x1_0000_0000_0000_0000
    else n
  }

  function Digit(d: nat): char
    requires d < 10
  {
    '0' + d as char
  }

  function Digits(n: nat): (s: string)
    ensures s != [] && s[0] != '-' && s[0] != '+'
  {
    if n < 10 then [Digit(n)] else Digits(n / 10) + [Digit(n % 10)]
  }

  function Print(n: int): string {
    if n < 0 then "-" + Digits(-n) else Digits(n)
  }

  /** The value of a non-empty all-digit text. */
  function Value(s: string): Option<nat> {
    if s == [] then None
    else
      var last := s[|s| - 1];
      if !('0' <= last <= '9') then None
      else if |s| == 1 then Some((last - '0') as nat)
      else
        match Value(s[..|s| - 1])
        case None => None
        case Some(v) => Some(10 * v + (last - '0') as nat)
  }

  /** An optional sign and digits; a value outside 64 bits is an error. */
  function Atoi(s: string): Option<int> {
    var negative := s != [] && s[0] == '-';
    var digits := if s != [] && (s[0] == '-' || s[0] == '+') then s[1..] else s;
    match Value(digits)
    case None => None
    case Some(v) =>
      var n: int := if negative then 0 - v else v;
      if InInt64(n) then Some(n) else None
  }

  lemma {:induction false} ValueOfDigits(n: nat)
    ensures Value(Digits(n)) == Some(n)
  {
    if n >= 10 {
      ValueOfDigits(n / 10);
      assert Digits(n)[..|Digits(n)| - 1] == Digits(n / 10);
    }
  }

  lemma AtoiOfDigits(n: nat)
    requires InInt64(n)
    ensures Atoi(Digits(n)) == Some(n)
  {
    ValueOfDigits(n);
  }

  lemma AtoiOfNegative(n: nat)
    requires InInt64(0 - n)
    ensures Atoi("-" + Digits(n)) == Some(0 - n)
  {
    ValueOfDigits(n);
    assert ("-" + Digits(n))[1..] == Digits(n);
  }

  /** Printing and reading back is the identity on 64-bit integers. */
  lemma AtoiOfPrint(n: int)
    requires InInt64(n)
    ensures Atoi(Print(n)) == Some(n)
  {
    if n < 0 {
      AtoiOfNegative(-n);
    } else {
      AtoiOfDigits(n);
    }
  }

  /** One digit more at the end is ten times as much and that digit. */
  lemma DigitsInDecimal(n: nat, d: nat)
    requires d < 10
    ensures Digits(d) == ["0123456789"[d]]
    ensures n > 0 ==> Digits(10 * n + d) == Digits(n) + Digits(d)
  {
  }

  lemma {:induction false} ValueExactly(s: string)
    ensures Value(s).Some? <==> s != [] && forall c | c in s :: '0' <= c <= '9'
  {
    if s == [] {
    } else if |s| == 1 {
      assert s == [s[0]] && s[0] in s;
    } else {
      var init, last := s[..|s| - 1], s[|s| - 1];
      assert s == init + [last];
      ValueExactly(init);
      if forall c | c in init :: '0' <= c <= '9' {
        assert forall c :: c in s ==> c in init || c == last;
        assert last in s;
      } else {
        var c :| c in init && !('0' <= c <= '9');
        assert c in s;
      }
    }
  }

  /** What is read as a number: a sign or none, at least one digit and nothing else, and a value of 64 bits. */
  lemma AtoiExactly(s: string)
    ensures var digits := if s != [] && s[0] in "+-" then s[1..] else s;
      Atoi(s).Some? <==>
        && digits != [] && (forall c | c in digits :: '0' <= c <= '9')
        && Value(digits).Some? && InInt64(if s[0] == '-' then 0 - Value(digits).value else Value(digits).value)
  {
    ValueExactly(if s != [] && s[0] in "+-" then s[1..] else s);
  }
}
