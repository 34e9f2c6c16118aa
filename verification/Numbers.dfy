/** Printing numbers in three bases and reading them back. */
module Numbers {
  import opened Options

  predicate IsBase(base: nat) { base == 2 || base == 10 || base == 16 }

  // One digit up, one digit down, and the digit between, in each base.

  function Times(base: nat, v: int): int { if base == 2 then 2 * v else if base == 10 then 10 * v else 16 * v }

  function Quot(n: nat, base: nat): nat { if base == 2 then n / 2 else if base == 10 then n / 10 else n / 16 }

  function Rem(n: nat, base: nat): (r: nat)
    requires IsBase(base)
    ensures r < base && n == Times(base, Quot(n, base)) + r
  {
    if base == 2 then n % 2 else if base == 10 then n % 10 else n % 16
  }

  function DigitChar(d: nat, upper: bool): char
    requires d < 16
  {
    if d < 10 then '0' + d as char else (if upper then 'A' else 'a') + (d - 10) as char
  }

  /** The digits of `n`, highest first, without leading zeros. */
  function Text(n: nat, base: nat, upper: bool): (s: string)
    requires IsBase(base)
    ensures s != ""
    decreases n
  {
    if n < base then [DigitChar(n, upper)] else Text(Quot(n, base), base, upper) + [DigitChar(Rem(n, base), upper)]
  }

  function Prefix(x: char, t: string): string { ['0', x] + t }

  function Hex(n: nat, upper: bool): string { Prefix(if upper then 'X' else 'x', Text(n, 16, upper)) }

  function Binary(n: nat): string { Prefix('b', Text(n, 2, false)) }

  function Power(base: nat, k: nat): int { if k == 0 then 1 else Times(base, Power(base, k - 1)) }

  /** A number below `base` to the `k` has at most `k` digits. */
  lemma {:induction false} TextLength(n: nat, base: nat, upper: bool, k: nat)
    requires IsBase(base) && 0 < k && n < Power(base, k)
    ensures |Text(n, base, upper)| <= k
  {
    if base <= n {
      assert Power(base, 1) == Times(base, Power(base, 0));
      TextLength(Quot(n, base), base, upper, k - 1);
    }
  }

  // ---------------------------------------------------------------------------
  // Reading

  /** A 32-bit signed result. */
  function Wrap(x: int): int { (x + 0x8000_0000) % 0x1_0000_0000 - 0x8000_0000 }

  /** The value of a character; the hexadecimal form takes every letter. */
  function DigitValue(base: nat, c: char): Option<nat> {
    if base == 2 then (if '0' <= c <= '1' then Some(c as nat - '0' as nat) else None)
    else if '0' <= c <= '9' then Some(c as nat - '0' as nat)
    else if base != 16 then None
    else if 'a' <= c <= 'z' then Some(c as nat - 'a' as nat + 10)
    else if 'A' <= c <= 'Z' then Some(c as nat - 'A' as nat + 10)
    else None
  }

  function Value(base: nat, s: string): Option<int> {
    if s == "" then Some(0)
    else
      match (Value(base, s[..|s| - 1]), DigitValue(base, s[|s| - 1]))
      case (Some(v), Some(d)) => Some(Wrap(Times(base, v) + d))
      case _ => None
  }

  predicate Prefixed(s: string, c: char, d: char) { 2 <= |s| && s[0] == '0' && (s[1] == c || s[1] == d) }

  /** What a text denotes: a prefix chooses the base and must be followed by something. */
  function Parse(s: string): Option<int> {
    if Prefixed(s, 'X', 'x') then (if |s| == 2 then None else Value(16, s[2..]))
    else if Prefixed(s, 'B', 'b') then (if |s| == 2 then None else Value(2, s[2..]))
    else Value(10, s)
  }

  lemma {:induction false} BadPrefix(base: nat, s: string, k: nat)
    requires k <= |s| && Value(base, s[..k]) == None
    ensures Value(base, s) == None
    decreases |s| - k
  {
    if k < |s| {
      assert s[..k + 1][..k] == s[..k];
      BadPrefix(base, s, k + 1);
    } else {
      assert s[..k] == s;
    }
  }

  /** The reading loop; a text that denotes nothing gives -1, and no text at all gives 0. */
  method AsciiToDec(str: Option<string>) returns (val: int)
    ensures val == if str.None? then 0 else if Parse(str.value).None? then -1 else Parse(str.value).value
  {
    val := 0;
    if str.None? { return; }
    var s := str.value;
    var base, p := 10, 0;
    if Prefixed(s, 'X', 'x') { base := 16; } else if Prefixed(s, 'B', 'b') { base := 2; }
    if base != 10 {
      p := 2;
      if p == |s| { return -1; }
    }
    ghost var body, start := s[p..], p;
    while p < |s|
      invariant start <= p <= |s| && Value(base, body[..p - start]) == Some(val)
    {
      assert body[..p + 1 - start][..p - start] == body[..p - start] && body[p - start] == s[p];
      var d := DigitValue(base, s[p]);
      if d.None? {
        BadPrefix(base, body, p + 1 - start);
        return -1;
      }
      val := Wrap(Times(base, val) + d.value);
      p := p + 1;
    }
    assert body[..p - start] == body;
  }

  lemma DigitBack(d: nat, base: nat, upper: bool)
    requires IsBase(base) && d < base
    ensures DigitValue(base, DigitChar(d, upper)) == Some(d)
  {
  }

  lemma ValueAppend(base: nat, s: string, c: char, v: int, d: nat)
    requires Value(base, s) == Some(v) && DigitValue(base, c) == Some(d)
    ensures Value(base, s + [c]) == Some(Wrap(Times(base, v) + d))
  {
    assert (s + [c])[..|s + [c]| - 1] == s;
  }

  /** Wrapping on the way does not change the wrapped result. */
  lemma WrapStep(base: nat, v: int, d: nat)
    ensures Wrap(Times(base, Wrap(v)) + d) == Wrap(Times(base, v) + d)
  {
    var k := (v + 0x8000_0000) / 0x1_0000_0000;
    assert Wrap(v) == v - 0x1_0000_0000 * k;
    WrapShift(Times(base, v) + d, Times(base, k));
  }

  lemma WrapShift(x: int, k: int)
    ensures Wrap(x - 0x1_0000_0000 * k) == Wrap(x)
  {
  }

  lemma ValueStep(base: nat, s: string, q: nat, r: nat, upper: bool)
    requires IsBase(base) && r < base && Value(base, s) == Some(Wrap(q))
    ensures Value(base, s + [DigitChar(r, upper)]) == Some(Wrap(Times(base, q) + r))
  {
    DigitBack(r, base, upper);
    ValueAppend(base, s, DigitChar(r, upper), Wrap(q), r);
    WrapStep(base, q, r);
  }

  lemma {:induction false} ValueOfText(n: nat, base: nat, upper: bool)
    requires IsBase(base)
    ensures Value(base, Text(n, base, upper)) == Some(Wrap(n))
  {
    if n < base {
      ValueStep(base, "", 0, n, upper);
      assert "" + [DigitChar(n, upper)] == [DigitChar(n, upper)];
    } else {
      var q, r := Quot(n, base), Rem(n, base);
      ValueOfText(q, base, upper);
      ValueStep(base, Text(q, base, upper), q, r, upper);
    }
  }

  lemma {:induction false} DecimalChars(n: nat)
    ensures forall i | 0 <= i < |Text(n, 10, false)| :: '0' <= Text(n, 10, false)[i] <= '9'
  {
    if 10 <= n { DecimalChars(Quot(n, 10)); }
  }

  /** Reading undoes the decimal printer exactly for the numbers a signed word can hold. */
  lemma DecimalRoundTrip(n: nat)
    ensures Parse(Text(n, 10, false)) == Some(n) <==> n < 0x8000_0000
  {
    var t := Text(n, 10, false);
    DecimalChars(n);
    ParseDecimal(t);
    ValueOfText(n, 10, false);
    WrapSame(n);
  }

  /** And the hexadecimal printer, in either case. */
  lemma HexRoundTrip(n: nat, upper: bool)
    ensures Parse(Hex(n, upper)) == Some(n) <==> n < 0x8000_0000
  {
    var t := Text(n, 16, upper);
    ValueOfText(n, 16, upper);
    WrapSame(n);
    ParseHex(t, if upper then 'X' else 'x');
  }

  /** And the binary one. */
  lemma BinaryRoundTrip(n: nat)
    ensures Parse(Binary(n)) == Some(n) <==> n < 0x8000_0000
  {
    var t := Text(n, 2, false);
    ValueOfText(n, 2, false);
    WrapSame(n);
    ParseBinary(t);
  }

  lemma WrapSame(n: nat)
    ensures Wrap(n) == n <==> n < 0x8000_0000
  {
  }

  lemma ParseDecimal(t: string)
    requires forall i | 0 <= i < |t| :: '0' <= t[i] <= '9'
    ensures Parse(t) == Value(10, t)
  {
    if 2 <= |t| { assert '0' <= t[1] <= '9'; }
  }

  lemma ParseHex(t: string, x: char)
    requires t != "" && (x == 'X' || x == 'x')
    ensures Parse(Prefix(x, t)) == Value(16, t)
  {
    assert Prefix(x, t)[2..] == t;
  }

  lemma ParseBinary(t: string)
    requires t != ""
    ensures Parse(Prefix('b', t)) == Value(2, t)
  {
    assert Prefix('b', t)[2..] == t;
  }
}
