/** Decimal numbers as strconv reads and writes them: Itoa, Atoi and ParseInt(s, 10, 64). */
module Strconv {
  import opened Common

  predicate IsDigit(c: char) {
    '0' <= c <= '9'
  }

  function Digit(n: int): char
    requires 0 <= n < 10
  {
    '0' + n as char
  }

  function Itoa(n: nat): string {
    if n < 10 then [Digit(n)] else Itoa(n / 10) + [Digit(n % 10)]
  }

  predicate AllDigits(s: string) {
    forall i :: 0 <= i < |s| ==> IsDigit(s[i])
  }

  function Value(s: string): nat
    requires AllDigits(s)
  {
    if s == "" then 0 else Value(s[..|s| - 1]) * 10 + (s[|s| - 1] as int - '0' as int)
  }

  const MAX_INT64: int := 0x7fff_ffff_ffff_ffff

  /** A sign may come first; then digits only; then the value has to fit in 64 bits. */
  function ParseInt(s: string): Option<int> {
    var negative := s != "" && s[0] == '-';
    var digits := if s != "" && (s[0] == '-' || s[0] == '+') then s[1..] else s;
    if digits == "" || !AllDigits(digits) then None
    else
      var n: int := if negative then 0 - Value(digits) else Value(digits);
      if -MAX_INT64 - 1 <= n <= MAX_INT64 then Some(n) else None
  }

  lemma {:induction false} ItoaShape(n: nat)
    ensures |Itoa(n)| > 0 && AllDigits(Itoa(n)) && Value(Itoa(n)) == n
  {
    if n < 10 {
      assert Itoa(n)[..0] == "";
    } else {
      ItoaShape(n / 10);
      assert Itoa(n)[..|Itoa(n)| - 1] == Itoa(n / 10);
    }
  }

  /** Reading undoes writing for every number that fits. */
  lemma {:induction false} ParseUndoesItoa(n: nat)
    requires n <= MAX_INT64
    ensures ParseInt(Itoa(n)) == Some(n)
  {
    ItoaShape(n);
    assert IsDigit(Itoa(n)[0]);
  }

  lemma {:induction false} DigitIs(c: char)
    ensures IsDigit(c) <==> c in "0123456789"
  {
    if IsDigit(c) { assert "0123456789"[c as int - '0' as int] == c; }
  }

  /** A sign or none, then at least one digit. */
  predicate Signed(s: string, sign: string, digits: string) {
    (sign == "" || sign == "+" || sign == "-") && s == sign + digits && digits != "" && AllDigits(digits)
  }

  lemma SignedOnce(s: string, sign: string, digits: string)
    requires Signed(s, sign, digits)
    ensures sign == if s[0] == '-' || s[0] == '+' then s[..1] else ""
    ensures digits == s[|sign|..]
  {
    if sign == "" { assert IsDigit(digits[0]); }
  }

  /** What is read stands for a number that fits in 64 bits; nothing else is read. */
  lemma {:induction false} ParseIff(s: string, n: int)
    ensures ParseInt(s) == Some(n) <==>
            -0x8000_0000_0000_0000 <= n < 0x8000_0000_0000_0000 &&
            exists sign, digits :: Signed(s, sign, digits) && n == if sign == "-" then 0 - Value(digits) else Value(digits)
  {
    hide Value;
    var signed := s != "" && (s[0] == '-' || s[0] == '+');
    var sign, digits := if signed then s[..1] else "", if signed then s[1..] else s;
    assert s == sign + digits;
    if AllDigits(digits) && digits != "" { assert Signed(s, sign, digits); }
    forall sign', digits' | Signed(s, sign', digits') ensures sign' == sign && digits' == digits { SignedOnce(s, sign', digits'); }
  }

  lemma ParsedFits(s: string)
    requires ParseInt(s).Some?
    ensures -MAX_INT64 - 1 <= ParseInt(s).value <= MAX_INT64
  {}
}
