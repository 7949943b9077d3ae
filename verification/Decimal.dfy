/** Decimal numbers as C prints (`%d`, `%u`) and reads (`strtol`) them. */
module Decimal {

  function Digit(d: nat): char
    requires d < 10
  {
    '0' + d as char
  }

  predicate IsDigit(c: char) { '0' <= c <= '9' }

  function Print(n: nat): string {
    if n < 10 then [Digit(n)] else Print(n / 10) + [Digit(n % 10)]
  }

  /** The value of the digits at the front of `s`, continuing from `acc`. */
  function Value(s: string, acc: nat): nat {
    if s == [] || !IsDigit(s[0]) then acc
    else Value(s[1..], 10 * acc + (s[0] - '0') as nat)
  }

  // ---- which numeral is read ------------------------------------------------------------------------

  /** How many digits `s` starts with. */
  function Digits(s: string): (n: nat)
    ensures n <= |s| && (forall i :: 0 <= i < n ==> IsDigit(s[i])) && (n < |s| ==> !IsDigit(s[n]))
  {
    if s != [] && IsDigit(s[0]) then 1 + Digits(s[1..]) else 0
  }

  /** A well-formed decimal number. */
  predicate IsDecimal(t: string) { t != [] && Digits(t) == |t| }

  /** The number a string of digits stands for, its last digit counting ones. */
  function Numeral(t: string): nat
    requires forall i :: 0 <= i < |t| ==> IsDigit(t[i])
  {
    if t == [] then 0
    else
      var last := t[|t| - 1];
      assert IsDigit(last);
      10 * Numeral(t[..|t| - 1]) + (last - '0') as nat
  }

  /** What is read is the numeral of the leading digits. */
  lemma ValueIsNumeral(s: string)
    ensures Value(s, 0) == Numeral(s[..Digits(s)])
  {
    ValueOfPrefix(s, 0);
    ValueOfDigits(s[..Digits(s)]);
  }

  lemma {:induction false} ValueOfPrefix(s: string, acc: nat)
    ensures Value(s, acc) == Value(s[..Digits(s)], acc)
  {
    if s != [] && IsDigit(s[0]) {
      assert s[..Digits(s)][1..] == s[1..][..Digits(s[1..])];
      ValueOfPrefix(s[1..], 10 * acc + (s[0] - '0') as nat);
    }
  }

  lemma {:induction false} ValueOfDigits(t: string)
    requires forall i :: 0 <= i < |t| ==> IsDigit(t[i])
    ensures Value(t, 0) == Numeral(t)
  {
    if t != [] {
      assert t == t[..|t| - 1] + [t[|t| - 1]];
      ValueSnoc(t[..|t| - 1], t[|t| - 1], 0);
      ValueOfDigits(t[..|t| - 1]);
    }
  }

  lemma {:induction false} ValueSnoc(t: string, c: char, acc: nat)
    requires IsDigit(c) && forall i :: 0 <= i < |t| ==> IsDigit(t[i])
    ensures Value(t + [c], acc) == 10 * Value(t, acc) + (c - '0') as nat
  {
    if t == [] {
      assert [] + [c] == [c] && Value([c][1..], 10 * acc + (c - '0') as nat) == 10 * acc + (c - '0') as nat;
    } else {
      assert (t + [c])[1..] == t[1..] + [c];
      ValueSnoc(t[1..], c, 10 * acc + (t[0] - '0') as nat);
    }
  }

  // ---- printing and reading -------------------------------------------------------------------------

  lemma PrintExample()
    ensures Print(0) == "0" && Print(10) == "10" && Print(255) == "255" && Value("255,", 0) == 255
  {
    assert Print(1) == "1" && Print(2) == "2" && Print(25) == "2" + "5";
    ValueOfPrinted(255, ",");
    assert Print(255) == "25" + "5" && Print(255) + "," == "255,";
  }

  /** Reading a printed number gives it back and stops at the first character that is not a digit. */
  lemma {:induction false} ValueOfPrinted(n: nat, rest: string)
    requires rest == [] || !IsDigit(rest[0])
    ensures Value(Print(n) + rest, 0) == n
  {
    ValueContinues(n, rest);
  }

  lemma {:induction false} ValueContinues(n: nat, rest: string)
    ensures Value(Print(n) + rest, 0) == Value(rest, n)
  {
    if n < 10 {
      assert (Print(n) + rest)[1..] == rest;
    } else {
      var head, last := Print(n / 10), [Digit(n % 10)];
      assert Print(n) + rest == head + (last + rest);
      ValueContinues(n / 10, last + rest);
      assert (last + rest)[1..] == rest;
    }
  }

  lemma {:induction false} PrintedDigits(n: nat)
    ensures Print(n) != [] && forall i :: 0 <= i < |Print(n)| ==> IsDigit(Print(n)[i])
  {
    if n >= 10 { PrintedDigits(n / 10); }
  }

  /** Different numbers print differently. */
  lemma PrintInjective(m: nat, n: nat)
    requires Print(m) == Print(n)
    ensures m == n
  {
    ValueOfPrinted(m, []);
    ValueOfPrinted(n, []);
  }
}
