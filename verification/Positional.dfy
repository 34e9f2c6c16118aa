/** What numerals mean, by the ranges of their characters and the places of their digits. */
module Positional {
  import opened Options
  import opened Numbers

  predicate IsDigit(c: char) { '0' <= c <= '9' }

  /** What a digit or a letter is worth. */
  function Worth(c: char): int {
    if IsDigit(c) then c as int - '0' as int
    else if 'a' <= c <= 'z' then c as int - 'a' as int + 10
    else c as int - 'A' as int + 10
  }

  /** Every character counts `base` times as much as the one behind it. */
  function Sum(base: int, s: string): int {
    if s == "" then 0 else base * Sum(base, s[..|s| - 1]) + Worth(s[|s| - 1])
  }

  predicate InBase(base: nat, c: char) {
    if base == 2 then c == '0' || c == '1'
    else IsDigit(c) || (base == 16 && ('a' <= c <= 'z' || 'A' <= c <= 'Z'))
  }

  lemma {:induction false} ValueIsSum(base: nat, s: string)
    requires IsBase(base)
    ensures Value(base, s) == if forall i | 0 <= i < |s| :: InBase(base, s[i]) then Some(Wrap(Sum(base, s))) else None
  {
    if s != "" {
      var front, last := s[..|s| - 1], s[|s| - 1];
      ValueIsSum(base, front);
      if forall i | 0 <= i < |s| :: InBase(base, s[i]) {
        forall i | 0 <= i < |front| ensures InBase(base, front[i]) { assert front[i] == s[i]; }
        WrapStep(base, Sum(base, front), Worth(last));
      } else if InBase(base, last) {
        var i :| 0 <= i < |s| && !InBase(base, s[i]);
        assert front[i] == s[i];
      }
    }
  }

  lemma WrapIs(x: int)
    ensures -0x8000_0000 <= Wrap(x) < 0x8000_0000 && (x - Wrap(x)) % 0x1_0000_0000 == 0
  {
  }

  /** What a text that was accepted denotes: the sum of its digits by place, in 32 bits. */
  predicate Denotes(v: int, sum: int) {
    -0x8000_0000 <= v < 0x8000_0000 && (sum - v) % 0x1_0000_0000 == 0
  }

  lemma ParseBody(base: nat, s: string)
    requires IsBase(base)
    ensures Value(base, s).None? <==> exists i :: 0 <= i < |s| && !InBase(base, s[i])
    ensures Value(base, s).Some? ==> Denotes(Value(base, s).value, Sum(base, s))
  {
    ValueIsSum(base, s);
    WrapIs(Sum(base, s));
  }

  /** Behind 0x or 0X: at least one character, and only digits and letters. */
  lemma ReadsHex(x: char, t: string)
    requires x == 'x' || x == 'X'
    ensures Parse(['0', x] + t).None? <==>
            t == "" || exists i :: 0 <= i < |t| && !('0' <= t[i] <= '9' || 'a' <= t[i] <= 'z' || 'A' <= t[i] <= 'Z')
    ensures Parse(['0', x] + t).Some? ==> Denotes(Parse(['0', x] + t).value, Sum(16, t))
  {
    assert (['0', x] + t)[2..] == t;
    ParseBody(16, t);
    assert forall i | 0 <= i < |t| ::
        InBase(16, t[i]) <==> '0' <= t[i] <= '9' || 'a' <= t[i] <= 'z' || 'A' <= t[i] <= 'Z';
  }

  /** Behind 0b or 0B: at least one character, and only 0 and 1. */
  lemma ReadsBinary(b: char, t: string)
    requires b == 'b' || b == 'B'
    ensures Parse(['0', b] + t).None? <==> t == "" || exists i :: 0 <= i < |t| && t[i] != '0' && t[i] != '1'
    ensures Parse(['0', b] + t).Some? ==> Denotes(Parse(['0', b] + t).value, Sum(2, t))
  {
    assert (['0', b] + t)[2..] == t;
    ParseBody(2, t);
    assert forall i | 0 <= i < |t| :: InBase(2, t[i]) <==> t[i] == '0' || t[i] == '1';
  }

  /** Without a prefix: only decimal digits, and possibly none. */
  lemma ReadsDecimal(t: string)
    requires !(2 <= |t| && t[0] == '0' && (t[1] == 'x' || t[1] == 'X' || t[1] == 'b' || t[1] == 'B'))
    ensures Parse(t).None? <==> exists i :: 0 <= i < |t| && !('0' <= t[i] <= '9')
    ensures Parse(t).Some? ==> Denotes(Parse(t).value, Sum(10, t))
  {
    ParseBody(10, t);
    assert forall i | 0 <= i < |t| :: InBase(10, t[i]) <==> '0' <= t[i] <= '9';
  }

  // ---------------------------------------------------------------------------
  // Printed numerals

  /** A digit as it is printed. */
  predicate Printed(base: nat, upper: bool, c: char) {
    if base != 16 then '0' <= c && Worth(c) < base && IsDigit(c)
    else IsDigit(c) || (if upper then 'A' <= c <= 'F' else 'a' <= c <= 'f')
  }

  /** The numeral of `n`: printed digits, none of them a leading zero, that sum up to `n`. */
  predicate Numeral(n: int, base: nat, upper: bool, s: string) {
    && s != "" && (forall i | 0 <= i < |s| :: Printed(base, upper, s[i]))
    && (1 < |s| ==> s[0] != '0') && Sum(base, s) == n
  }

  lemma SumAppend(base: int, s: string, c: char)
    ensures Sum(base, s + [c]) == base * Sum(base, s) + Worth(c)
  {
    assert (s + [c])[..|s + [c]| - 1] == s;
  }

  lemma TimesIs(base: nat, v: int)
    requires IsBase(base)
    ensures Times(base, v) == base * v
  {
  }

  lemma DigitPrinted(d: nat, base: nat, upper: bool)
    requires IsBase(base) && d < base
    ensures Printed(base, upper, DigitChar(d, upper)) && Worth(DigitChar(d, upper)) == d
    ensures 0 < d ==> DigitChar(d, upper) != '0'
  {
  }

  /** The printers write the numeral of the number. */
  lemma {:induction false} TextIsNumeral(n: nat, base: nat, upper: bool)
    requires IsBase(base)
    ensures Numeral(n, base, upper, Text(n, base, upper)) && (0 < n ==> Text(n, base, upper)[0] != '0')
    decreases n
  {
    if n < base {
      DigitPrinted(n, base, upper);
      SumAppend(base, "", DigitChar(n, upper));
      assert "" + [DigitChar(n, upper)] == [DigitChar(n, upper)];
    } else {
      var q, r := Quot(n, base), Rem(n, base);
      TextIsNumeral(q, base, upper);
      DigitPrinted(r, base, upper);
      SumAppend(base, Text(q, base, upper), DigitChar(r, upper));
      TimesIs(base, q);
    }
  }

  lemma PrintedIs(base: nat, upper: bool, c: char)
    requires IsBase(base) && Printed(base, upper, c)
    ensures 0 <= Worth(c) < base && c == DigitChar(Worth(c), upper)
  {
  }

  lemma Split(n: nat, base: nat, q: nat, r: nat)
    requires IsBase(base) && r < base && n == base * q + r
    ensures q == Quot(n, base) && r == Rem(n, base)
  {
  }

  lemma {:induction false} SumPositive(base: nat, upper: bool, s: string)
    requires IsBase(base) && forall i | 0 <= i < |s| :: Printed(base, upper, s[i])
    ensures 0 <= Sum(base, s) && (s != "" && s[0] != '0' ==> 0 < Sum(base, s))
  {
    if s != "" {
      var front := s[..|s| - 1];
      SumPositive(base, upper, front);
      PrintedIs(base, upper, s[|s| - 1]);
      TimesIs(base, Sum(base, front));
      if 1 < |s| { assert front[0] == s[0]; } else { assert Sum(base, "") == 0; }
    }
  }

  /** A number has no other numeral. */
  lemma {:induction false} NumeralIsText(n: nat, base: nat, upper: bool, s: string)
    requires IsBase(base) && Numeral(n, base, upper, s)
    ensures s == Text(n, base, upper)
    decreases |s|
  {
    var front, last := s[..|s| - 1], s[|s| - 1];
    assert s == front + [last];
    PrintedIs(base, upper, last);
    SumPositive(base, upper, front);
    if front == "" {
      assert Sum(base, front) == 0;
      TimesIs(base, 0);
    } else {
      assert front[0] == s[0];
      var q := Sum(base, front);
      TimesIs(base, q);
      Split(n, base, q, Worth(last));
      NumeralIsText(q, base, upper, front);
    }
  }

  /** The hexadecimal printer writes 0x or 0X and then the numeral, its letters in the same case. */
  lemma HexIsNumeral(n: nat, upper: bool)
    ensures var s := Hex(n, upper); 2 <= |s| && s[0] == '0' && s[1] == (if upper then 'X' else 'x') && Numeral(n, 16, upper, s[2..])
  {
    TextIsNumeral(n, 16, upper);
    assert Hex(n, upper)[2..] == Text(n, 16, upper);
  }

  lemma BinaryIsNumeral(n: nat)
    ensures var s := Binary(n); 2 <= |s| && s[0] == '0' && s[1] == 'b' && Numeral(n, 2, false, s[2..])
  {
    TextIsNumeral(n, 2, false);
    assert Binary(n)[2..] == Text(n, 2, false);
  }
}
