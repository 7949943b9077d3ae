/**
 * Lists of byte values in decimal with a separator between them: the h1,h2,h3,h4,p1,p2 of PORT and
 * PASV (RFC 959, sections 4.1.2 and 5.3.2) and dotted addresses.
 */
module HostPort {
  import opened Apr
  import opened Bytes
  import opened Decimal

  /** Largest value of an `apr_off_t`. */
  const OFF_MAX: int := 0x7fff_ffff_ffff_ffff

  // ---- the C library pieces -------------------------------------------------------------------------

  predicate IsSpace(c: char) { c == ' ' || 9 <= c as int <= 13 }

  /** `strtol` in base 10: white space, a sign, digits; 0 without digits, an error out of range. */
  function StrToOff(s: string): Option<int> {
    if s != [] && IsSpace(s[0]) then StrToOff(s[1..])
    else
      var n := if s != [] && s[0] == '-' then -(Value(s[1..], 0) as int)
               else if s != [] && s[0] == '+' then Value(s[1..], 0)
               else Value(s, 0);
      if -OFF_MAX - 1 <= n <= OFF_MAX then Some(n) else None
  }

  /** How many separators `s` starts with. */
  function Leading(s: string, sep: char): (n: nat)
    ensures n <= |s| && (forall i :: 0 <= i < n ==> s[i] == sep) && (n < |s| ==> s[n] != sep)
  {
    if s != [] && s[0] == sep then 1 + Leading(s[1..], sep) else 0
  }

  /** Where the first separator at or behind `from` is, or the end of `s`. */
  function TokenEnd(s: string, from: nat, sep: char): (end: nat)
    requires from <= |s|
    ensures from <= end <= |s| && (forall i :: from <= i < end ==> s[i] != sep) && (end < |s| ==> s[end] == sep)
    decreases |s| - from
  {
    if from == |s| || s[from] == sep then from else TokenEnd(s, from + 1, sep)
  }

  /** What `apr_strtok` leaves: the text now in front of the terminator, and what is behind it. */
  datatype Cut = NoToken | Cut(front: string, rest: string)

  function Strtok(s: string, sep: char): Cut {
    var lead := Leading(s, sep);
    if lead == |s| then NoToken
    else
      var end := TokenEnd(s, lead + 1, sep);
      Cut(s[..end], if end < |s| then s[end + 1..] else [])
  }

  // ---- the parser -------------------------------------------------------------------------------------

  /** What a token is read as, if its number is that of a byte. */
  function TokenValue(t: string): Option<byte> {
    match StrToOff(t)
    case None => None
    case Some(number) => if 0 <= number <= 255 then Some(number as byte) else None
  }

  /** The next of `n` tokens still expected, as the value of a byte, and the text behind it. */
  function NextValue(s: string, sep: char, n: nat): Option<(byte, string)> {
    match Strtok(s, sep)
    case NoToken => None
    case Cut(front, rest) =>
      if (n > 1 && rest == []) || (n == 1 && rest != []) then None
      else
        match TokenValue(front)
        case None => None
        case Some(b) => Some((b, rest))
  }

  /** The values of exactly `n` tokens. */
  function Parse(s: string, sep: char, n: nat): Option<seq<byte>>
    decreases n
  {
    if n == 0 then Some([])
    else
      match NextValue(s, sep, n)
      case None => None
      case Some((b, rest)) => Prepend([b], Parse(rest, sep, n - 1))
  }

  function Prepend(front: seq<byte>, tail: Option<seq<byte>>): Option<seq<byte>> {
    match tail
    case None => None
    case Some(t) => Some(front + t)
  }

  lemma PrependTwice(front: seq<byte>, b: byte, tail: Option<seq<byte>>)
    ensures Prepend(front + [b], tail) == Prepend(front, Prepend([b], tail))
  {
    if tail.Some? { assert front + [b] + tail.value == front + ([b] + tail.value); }
  }

  lemma PrependNothing(tail: Option<seq<byte>>)
    ensures Prepend([], tail) == tail
  {
    if tail.Some? { assert [] + tail.value == tail.value; }
  }

  /** The loop over `n` items: each turn cuts a token off and reads a number from the front of what it cut. */
  method ParseUcharStringSep(input: string, sep: char, items: array<byte>, n: nat) returns (ok: bool)
    requires n <= items.Length
    modifies items
    ensures ok <==> Parse(input, sep, n).Some?
    ensures ok ==> items[..n] == Parse(input, sep, n).value
    ensures items[n..] == old(items[n..])
  {
    hide Strtok, StrToOff;
    var inputStr, i := input, 0;
    PrependNothing(Parse(input, sep, n));
    while i < n
      invariant i <= n && items[n..] == old(items[n..])
      invariant Parse(input, sep, n) == Prepend(items[..i], Parse(inputStr, sep, n - i))
    {
      var cut := Strtok(inputStr, sep);
      if cut.NoToken? { return false; }
      var last := cut.rest;
      if (i < n - 1 && |last| == 0) || (i == n - 1 && |last| != 0) { return false; }
      var thisNumber := StrToOff(cut.front);
      if thisNumber.None? { return false; }
      if thisNumber.value < 0 || thisNumber.value > 255 { return false; }
      ghost var front := items[..i];
      items[i] := thisNumber.value as byte;
      assert items[..i + 1] == front + [items[i]];
      PrependTwice(front, items[i], Parse(last, sep, n - (i + 1)));
      inputStr := last;
      i := i + 1;
    }
    assert items[..n] + [] == items[..n];
    ok := true;
  }

  // ---- the printer, and the round trip ----------------------------------------------------------------

  function Join(items: seq<byte>, sep: char): string {
    if items == [] then []
    else if |items| == 1 then Print(items[0] as nat)
    else Print(items[0] as nat) + [sep] + Join(items[1..], sep)
  }

  /** Every list of at least one byte is read back from its printed form. */
  lemma {:induction false} ParseJoin(items: seq<byte>, sep: char)
    requires items != [] && !IsDigit(sep)
    ensures Parse(Join(items, sep), sep, |items|) == Some(items)
  {
    hide Print, StrToOff, Strtok;
    assert Parse([], sep, 0) == Some([]);
    var first := Print(items[0] as nat);
    ReadPrinted(items[0]);
    if |items| == 1 {
      CutPrinted(items[0], [], sep);
      assert first + [] == first && [items[0]] + [] == items;
    } else {
      var rest := Join(items[1..], sep);
      CutPrinted(items[0], [sep] + rest, sep);
      assert Join(items, sep) == first + ([sep] + rest);
      assert ([sep] + rest)[1..] == rest;
      JoinNotEmpty(items[1..], sep);
      ParseJoin(items[1..], sep);
      assert [items[0]] + items[1..] == items;
    }
  }

  lemma JoinNotEmpty(items: seq<byte>, sep: char)
    requires items != []
    ensures Join(items, sep) != []
  {
    PrintedDigits(items[0] as nat);
  }

  lemma ReadPrinted(b: byte)
    ensures StrToOff(Print(b as nat)) == Some(b as int)
  {
    PrintedDigits(b as nat);
    ValueOfPrinted(b as nat, []);
    assert Print(b as nat) + [] == Print(b as nat);
  }

  lemma CutPrinted(b: byte, rest: string, sep: char)
    requires !IsDigit(sep) && (rest == [] || rest[0] == sep)
    ensures Strtok(Print(b as nat) + rest, sep) == Cut(Print(b as nat), if rest == [] then [] else rest[1..])
  {
    PrintedDigits(b as nat);
    CutToken(Print(b as nat), rest, sep);
  }

  // ---- which tokens are read as what --------------------------------------------------------------------

  /** How much white space `t` starts with. */
  function Blanks(t: string): (n: nat)
    ensures n <= |t| && (forall i :: 0 <= i < n ==> IsSpace(t[i])) && (n < |t| ==> !IsSpace(t[n]))
  {
    if t != [] && IsSpace(t[0]) then 1 + Blanks(t[1..]) else 0
  }

  predicate Negative(t: string) { Blanks(t) < |t| && t[Blanks(t)] == '-' }

  /** Where digits would start: behind the white space and one sign. */
  function NumberStart(t: string): (n: nat)
    ensures n <= |t|
  {
    if Blanks(t) < |t| && (t[Blanks(t)] == '-' || t[Blanks(t)] == '+') then Blanks(t) + 1 else Blanks(t)
  }

  /** The number written there, 0 if no digit is. */
  function Magnitude(t: string): nat {
    var number := t[NumberStart(t)..];
    Numeral(number[..Digits(number)])
  }

  /** The number written there is none of a byte. */
  predicate OutOfRange(t: string) { Magnitude(t) > if Negative(t) then 0 else 255 }

  lemma {:induction false} StrToOffIsMagnitude(t: string)
    ensures var n: int := if Negative(t) then -(Magnitude(t) as int) else Magnitude(t);
      StrToOff(t) == if -OFF_MAX - 1 <= n <= OFF_MAX then Some(n) else None
  {
    hide Value, Numeral, Digits;
    if t != [] && IsSpace(t[0]) {
      assert t[1..][NumberStart(t[1..])..] == t[NumberStart(t)..];
      StrToOffIsMagnitude(t[1..]);
    } else {
      ValueIsNumeral(t[NumberStart(t)..]);
      assert t[0..] == t;
    }
  }

  /** Exactly the tokens whose number is that of a byte are accepted, whatever stands around it. */
  lemma TokenValueIff(t: string)
    ensures TokenValue(t) == if OutOfRange(t) then None else Some(Magnitude(t) as byte)
  {
    hide StrToOff, Magnitude, Negative;
    StrToOffIsMagnitude(t);
  }

  /** What a token is documented to be: a number between 0 and 255. */
  function Documented(t: string): Option<byte> {
    if IsDecimal(t) && Numeral(t) <= 255 then Some(Numeral(t) as byte) else None
  }

  /** A token is treated as documented exactly when it is a decimal number or its number is no byte's. */
  lemma TokenAsDocumentedIff(t: string)
    ensures TokenValue(t) == Documented(t) <==> IsDecimal(t) || OutOfRange(t)
  {
    TokenValueIff(t);
    if IsDecimal(t) {
      assert !IsSpace(t[0]) && NumberStart(t) == 0 && t[0..] == t && t[..|t|] == t;
    }
  }

  /** White space, a sign and what stands behind the digits do not matter; the range does. */
  lemma TokenExample()
    ensures TokenValue(" \t7") == TokenValue("+7") == TokenValue("7x") == TokenValue("007") == Some(7)
    ensures TokenValue("-0") == TokenValue("") == Some(0) && TokenValue("-1").None?
    ensures TokenValue("255") == Some(255) && TokenValue("256").None?
  {
    assert Value("7", 0) == 7 && Value("7x", 0) == 7 && Value("07", 0) == 7 && Value("007", 0) == 7;
    assert StrToOff("\t7") == StrToOff("7") == Some(7) && " \t7"[1..] == "\t7" && "\t7"[1..] == "7";
    assert "+7"[1..] == "7" && "-0"[1..] == "0" && "-1"[1..] == "1" && Value("0", 0) == 0 && Value("1", 0) == 1;
    DigitsValue();
  }

  lemma DigitsValue()
    ensures Value("255", 0) == 255 && Value("256", 0) == 256
  {
    assert "255"[1..] == "55" && "55"[1..] == "5" && "5"[1..] == "";
    assert "256"[1..] == "56" && "56"[1..] == "6" && "6"[1..] == "";
    assert Value("5", 25) == 255 && Value("6", 25) == 256 && Value("55", 2) == 255 && Value("56", 2) == 256;
  }

  // ---- lists of tokens ------------------------------------------------------------------------------------

  /** Texts with the separator between them. */
  function JoinTexts(texts: seq<string>, sep: char): string {
    if texts == [] then []
    else if |texts| == 1 then texts[0]
    else texts[0] + [sep] + JoinTexts(texts[1..], sep)
  }

  ghost predicate Tokens(texts: seq<string>, sep: char) {
    texts != [] && forall i :: 0 <= i < |texts| ==> texts[i] != [] && sep !in texts[i]
  }

  /** What the token readings come to together. */
  function All(values: seq<Option<byte>>): Option<seq<byte>> {
    if values == [] then Some([])
    else if values[0].None? then None
    else Prepend([values[0].value], All(values[1..]))
  }

  function TokenValues(texts: seq<string>): (values: seq<Option<byte>>) {
    seq(|texts|, i requires 0 <= i < |texts| => TokenValue(texts[i]))
  }

  function DocumentedValues(texts: seq<string>): (values: seq<Option<byte>>) {
    seq(|texts|, i requires 0 <= i < |texts| => Documented(texts[i]))
  }

  /** A list is read token by token; one separator behind the last makes no difference. */
  lemma {:induction false} ParseTokens(texts: seq<string>, sep: char, trailing: bool)
    requires Tokens(texts, sep)
    ensures Parse(JoinTexts(texts, sep) + (if trailing then [sep] else []), sep, |texts|) == All(TokenValues(texts))
    decreases |texts|
  {
    hide Strtok, TokenValue;
    var tail := if trailing then [sep] else [];
    var s := JoinTexts(texts, sep) + tail;
    assert TokenValues(texts)[1..] == TokenValues(texts[1..]);
    if |texts| == 1 {
      CutToken(texts[0], tail, sep);
      assert tail[if trailing then 1 else 0..] == [];
      assert Parse([], sep, 0) == Some([]) && All([]) == Some([]);
    } else {
      var rest := JoinTexts(texts[1..], sep) + tail;
      assert s == texts[0] + ([sep] + rest);
      assert ([sep] + rest)[1..] == rest != [] by { assert texts[1] != []; }
      CutToken(texts[0], [sep] + rest, sep);
      ParseTokens(texts[1..], sep, trailing);
    }
  }

  lemma CutToken(t: string, rest: string, sep: char)
    requires t != [] && sep !in t && (rest == [] || rest[0] == sep)
    ensures Strtok(t + rest, sep) == Cut(t, if rest == [] then [] else rest[1..])
  {
    var s := t + rest;
    assert s[0] == t[0] && t[0] in t && Leading(s, sep) == 0;
    var end := TokenEnd(s, 1, sep);
    assert forall i :: 0 <= i < |t| ==> s[i] == t[i] && t[i] in t;
    assert rest != [] ==> s[|t|] == sep;
    assert s[..end] == t;
    if rest != [] { assert s[end + 1..] == rest[1..]; }
  }

  /** A list with any other number of tokens than expected is refused. */
  lemma {:induction false} WrongCountRefused(texts: seq<string>, sep: char, n: nat)
    requires Tokens(texts, sep) && 0 < n != |texts|
    ensures Parse(JoinTexts(texts, sep), sep, n).None?
    decreases |texts|
  {
    hide Strtok, TokenValue;
    if |texts| == 1 {
      CutToken(texts[0], [], sep);
      assert texts[0] + [] == texts[0];
    } else {
      var rest := JoinTexts(texts[1..], sep);
      assert JoinTexts(texts, sep) == texts[0] + ([sep] + rest);
      assert ([sep] + rest)[1..] == rest != [] by { assert texts[1] != []; }
      CutToken(texts[0], [sep] + rest, sep);
      if n > 1 { WrongCountRefused(texts[1..], sep, n - 1); }
    }
  }

  /** A list is treated as documented exactly when its tokens are decimal numbers or the number of one is no byte's. */
  lemma ListAsDocumentedIff(texts: seq<string>, sep: char)
    requires Tokens(texts, sep)
    ensures Parse(JoinTexts(texts, sep), sep, |texts|) == All(DocumentedValues(texts)) <==>
      (forall t :: t in texts ==> IsDecimal(t)) || (exists t :: t in texts && OutOfRange(t))
  {
    hide Parse, JoinTexts, OutOfRange, IsDecimal, TokenValue, Documented;
    ParseTokens(texts, sep, false);
    assert JoinTexts(texts, sep) + [] == JoinTexts(texts, sep);
    AllSome(TokenValues(texts));
    AllSome(DocumentedValues(texts));
    forall i | 0 <= i < |texts|
      ensures TokenValue(texts[i]).None? <==> OutOfRange(texts[i])
      ensures TokenValue(texts[i]) == Documented(texts[i]) <==> IsDecimal(texts[i]) || OutOfRange(texts[i])
      ensures !IsDecimal(texts[i]) ==> Documented(texts[i]).None?
    {
      TokenValueIff(texts[i]);
      TokenAsDocumentedIff(texts[i]);
      NotDocumented(texts[i]);
    }
    if exists t :: t in texts && OutOfRange(t) {
      var t :| t in texts && OutOfRange(t);
      var i :| 0 <= i < |texts| && texts[i] == t;
      assert TokenValues(texts)[i].None? && DocumentedValues(texts)[i].None?;
    } else if forall t :: t in texts ==> IsDecimal(t) {
      assert TokenValues(texts) == DocumentedValues(texts);
    } else {
      var t :| t in texts && !IsDecimal(t);
      var i :| 0 <= i < |texts| && texts[i] == t;
      assert DocumentedValues(texts)[i].None?;
    }
  }

  lemma NotDocumented(t: string)
    ensures !IsDecimal(t) ==> Documented(t).None?
  {
  }

  /** The readings together are a list exactly when each is a value. */
  lemma {:induction false} AllSome(values: seq<Option<byte>>)
    ensures All(values).Some? <==> forall i :: 0 <= i < |values| ==> values[i].Some?
    ensures All(values).Some? ==> |All(values).value| == |values|
    ensures All(values).Some? ==> forall i :: 0 <= i < |values| ==> All(values).value[i] == values[i].value
  {
    if values != [] {
      AllSome(values[1..]);
      assert forall i :: 1 <= i < |values| ==> values[i] == values[1..][i - 1];
    }
  }

  // ---- separators in front of a token ---------------------------------------------------------------------

  /** Neither white space nor part of a number. */
  predicate IsSeparator(sep: char) { !IsSpace(sep) && !IsDigit(sep) && sep != '-' && sep != '+' }

  /**
   * A token with separators in front of it is read from those separators, which is to say as 0: it
   * is read right exactly when there are none or the token itself is read as 0.
   */
  lemma LeadingSeparatorIff(s: string, sep: char)
    requires Strtok(s, sep).Cut? && IsSeparator(sep)
    ensures var front, lead := Strtok(s, sep).front, Leading(s, sep);
      && lead <= |front|
      && (0 < lead ==> StrToOff(front) == Some(0))
      && (StrToOff(front) == StrToOff(front[lead..]) <==> lead == 0 || StrToOff(front[lead..]) == Some(0))
  {
    var front := Strtok(s, sep).front;
    assert front[0..] == front;
    if 0 < Leading(s, sep) { assert front[0] == sep; }
  }

  /** Separators in front of a whole printed list turn its first value into 0. */
  lemma LeadingSeparatorInList(items: seq<byte>, sep: char, lead: string)
    requires items != [] && IsSeparator(sep) && lead != [] && forall i :: 0 <= i < |lead| ==> lead[i] == sep
    ensures Parse(lead + Join(items, sep), sep, |items|) == Some([0 as byte] + items[1..])
  {
    hide Print, StrToOff, Strtok, Join, Parse;
    JoinUnfolds(items, sep);
    var rest := if |items| == 1 then [] else [sep] + Join(items[1..], sep);
    CutBehind(lead, items[0], rest, sep);
    assert lead + Join(items, sep) == lead + (Print(items[0] as nat) + rest);
    if |items| > 1 {
      JoinNotEmpty(items[1..], sep);
      ParseJoin(items[1..], sep);
      assert rest[1..] == Join(items[1..], sep);
    }
    ParseUnfolds([], sep, 0);
    assert |items| == 1 ==> items[1..] == [];
    assert NextValue(lead + Join(items, sep), sep, |items|) == Some((0, Join(items[1..], sep))) by {
      JoinNothing(sep);
    }
    ParseUnfolds(lead + Join(items, sep), sep, |items|);
  }

  lemma JoinUnfolds(items: seq<byte>, sep: char)
    requires items != []
    ensures Join(items, sep)
         == Print(items[0] as nat) + if |items| == 1 then [] else [sep] + Join(items[1..], sep)
  {
    hide Print;
    if |items| == 1 {
      assert Print(items[0] as nat) + [] == Print(items[0] as nat);
    } else {
      assert Print(items[0] as nat) + [sep] + Join(items[1..], sep)
          == Print(items[0] as nat) + ([sep] + Join(items[1..], sep));
    }
  }

  lemma JoinNothing(sep: char)
    ensures Join([], sep) == []
  {
  }

  lemma ParseUnfolds(s: string, sep: char, n: nat)
    ensures n == 0 ==> Parse(s, sep, n) == Some([])
    ensures n > 0 && NextValue(s, sep, n).Some? ==>
      var (b, rest) := NextValue(s, sep, n).value; Parse(s, sep, n) == Prepend([b], Parse(rest, sep, n - 1))
  {
  }

  lemma CutBehind(lead: string, b: byte, rest: string, sep: char)
    requires IsSeparator(sep) && lead != [] && (forall i :: 0 <= i < |lead| ==> lead[i] == sep)
    requires rest == [] || rest[0] == sep
    ensures var c := Strtok(lead + (Print(b as nat) + rest), sep);
      c.Cut? && StrToOff(c.front) == Some(0) && c.rest == if rest == [] then [] else rest[1..]
  {
    var p := Print(b as nat);
    PrintedDigits(b as nat);
    var s := lead + (p + rest);
    assert forall i :: 0 <= i < |lead| ==> s[i] == lead[i];
    assert forall i :: 0 <= i < |p| ==> s[|lead| + i] == p[i] != sep;
    assert s[|lead|] == p[0];
    assert Leading(s, sep) == |lead|;
    var end := TokenEnd(s, |lead| + 1, sep);
    assert rest != [] ==> s[|lead| + |p|] == sep;
    assert end == |lead| + |p|;
    if rest != [] { assert s[end + 1..] == rest[1..]; }
    LeadingSeparatorIff(s, sep);
  }

  // ---- PASV replies and PORT arguments ----------------------------------------------------------------

  /** An `apr_port_t`. */
  type PortNumber = n: nat | n < 0x10000

  function PortHigh(port: PortNumber): byte {
    (port / 256) as byte
  }

  function PortLow(port: PortNumber): byte {
    (port % 256) as byte
  }

  /**
   * The tuple of a PASV reply, from the dotted address and the port listened on; nothing is known
   * of its numbers when the address is no dotted decimal.
   */
  function PasvTuple(address: string, port: PortNumber): Option<string> {
    match Parse(address, '.', 4)
    case None => None
    case Some(ip) => Some(Join(ip + [PortHigh(port), PortLow(port)], ','))
  }

  /** The dotted address and the port a PORT argument stands for. */
  function PortTarget(argument: string): Option<(string, nat)> {
    match Parse(argument, ',', 6)
    case None => None
    case Some(vals) =>
      assert |vals| == 6 by { ParseLength(argument, ',', 6); }
      Some((Join(vals[..4], '.'), vals[4] as nat * 256 + vals[5] as nat))
  }

  /** PORT ",1,2,3,4,5,6" is taken, as the address 0.2.3.4. */
  lemma LeadingSeparatorExample()
    ensures PortTarget(",1,2,3,4,5,6") == Some(("0.2.3.4", 5 * 256 + 6))
  {
    hide Parse;
    var items: seq<byte> := [1, 2, 3, 4, 5, 6];
    LeadingSeparatorInList(items, ',', ",");
    JoinOfDigits(items, ',');
    JoinOfDigits([0, 2, 3, 4], '.');
    assert "," + Join(items, ',') == ",1,2,3,4,5,6";
    assert [0 as byte] + items[1..] == [0, 2, 3, 4, 5, 6];
    var vals: seq<byte> := [0, 2, 3, 4, 5, 6];
    assert Parse(",1,2,3,4,5,6", ',', 6) == Some(vals);
    assert vals[..4] == [0, 2, 3, 4] && Join([0, 2, 3, 4], '.') == "0.2.3.4";
  }

  /** PORT "a,b,c,d,e,f" is taken, as port 0 of the address 0.0.0.0. */
  lemma LettersExample()
    ensures PortTarget("a,b,c,d,e,f") == Some(("0.0.0.0", 0))
  {
    LettersParse();
    hide Parse;
    var zeros: seq<byte> := [0, 0, 0, 0, 0, 0];
    JoinOfDigits([0, 0, 0, 0], '.');
    assert zeros[..4] == [0, 0, 0, 0] && Join([0, 0, 0, 0], '.') == "0.0.0.0";
  }

  lemma LettersParse()
    ensures Parse("a,b,c,d,e,f", ',', 6) == Some([0, 0, 0, 0, 0, 0])
  {
    hide Parse, TokenValue, All;
    var texts := ["a", "b", "c", "d", "e", "f"];
    ParseTokens(texts, ',', false);
    LettersJoin();
    assert JoinTexts(texts, ',') + [] == JoinTexts(texts, ',');
    forall i | 0 <= i < |texts| ensures TokenValue(texts[i]) == Some(0) { LetterIsZero(texts[i]); }
    AllZero(TokenValues(texts));
  }

  lemma LettersJoin()
    ensures JoinTexts(["a", "b", "c", "d", "e", "f"], ',') == "a,b,c,d,e,f"
  {
    var texts := ["a", "b", "c", "d", "e", "f"];
    assert texts[1..] == ["b", "c", "d", "e", "f"] && texts[1..][1..] == ["c", "d", "e", "f"];
    assert texts[1..][1..][1..] == ["d", "e", "f"] && texts[1..][1..][1..][1..] == ["e", "f"];
    assert texts[1..][1..][1..][1..][1..] == ["f"];
  }

  /** A token that starts with a letter is read as 0. */
  lemma LetterIsZero(t: string)
    requires t != [] && 'a' <= t[0] <= 'z'
    ensures TokenValue(t) == Some(0)
  {
  }

  lemma AllZero(values: seq<Option<byte>>)
    requires |values| == 6 && forall i :: 0 <= i < 6 ==> values[i] == Some(0)
    ensures All(values) == Some([0, 0, 0, 0, 0, 0])
  {
    AllSome(values);
    assert All(values).value == [0, 0, 0, 0, 0, 0];
  }

  /** A list of numbers below ten is printed as their digits with the separator between them. */
  lemma {:induction false} JoinOfDigits(items: seq<byte>, sep: char)
    requires items != [] && forall i :: 0 <= i < |items| ==> items[i] < 10
    ensures |Join(items, sep)| == 2 * |items| - 1
    ensures forall i :: 0 <= i < |items| ==> Join(items, sep)[2 * i] == Digit(items[i] as nat)
    ensures forall i :: 0 <= i < |items| - 1 ==> Join(items, sep)[2 * i + 1] == sep
  {
    if |items| > 1 {
      var rest := items[1..];
      JoinOfDigits(rest, sep);
      forall i | 0 <= i < |items|
        ensures Join(items, sep)[2 * i] == Digit(items[i] as nat)
        ensures i < |items| - 1 ==> Join(items, sep)[2 * i + 1] == sep
      {
        if 0 < i { assert rest[i - 1] == items[i] && Join(items, sep)[2 * i] == Join(rest, sep)[2 * (i - 1)]; }
        if 0 < i < |items| - 1 { assert Join(items, sep)[2 * i + 1] == Join(rest, sep)[2 * (i - 1) + 1]; }
      }
    }
  }

  lemma {:induction false} ParseLength(s: string, sep: char, n: nat)
    ensures Parse(s, sep, n).Some? ==> |Parse(s, sep, n).value| == n
    decreases n
  {
    if n > 0 && Strtok(s, sep).Cut? { ParseLength(Strtok(s, sep).rest, sep, n - 1); }
  }

  /** The tuple of a PASV reply, used as a PORT argument, names the address and port of the reply. */
  lemma PasvReplyReadAsPort(ip: seq<byte>, port: PortNumber)
    requires |ip| == 4
    ensures var tuple := PasvTuple(Join(ip, '.'), port);
      tuple.Some? && PortTarget(tuple.value) == Some((Join(ip, '.'), port))
  {
    hide Parse, Join;
    var vals := ip + [PortHigh(port), PortLow(port)];
    ParseJoin(ip, '.');
    ParseJoin(vals, ',');
    assert vals[..4] == ip;
  }
}
