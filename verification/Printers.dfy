/** The number printers, writing into a buffer. */
module Printers {
  import opened Numbers

  const HEX_TEMP: nat := 12
  const BINARY_TEMP: nat := 36

  /** `s` with the text `t` written over it from `off` on. */
  function Put(s: string, off: nat, t: string): (r: string)
    requires off + |t| <= |s|
    ensures |r| == |s|
    ensures forall i | 0 <= i < |s| :: r[i] == if off <= i < off + |t| then t[i - off] else s[i]
  {
    s[..off] + t + s[off + |t|..]
  }

  /** Characters before the terminator. */
  method StringLenth(buf: array<char>, off: nat) returns (n: nat)
    requires exists i :: off <= i < buf.Length && buf[i] == '\0'
    ensures off + n < buf.Length && buf[off + n] == '\0' && forall i | off <= i < off + n :: buf[i] != '\0'
  {
    ghost var end :| off <= end < buf.Length && buf[end] == '\0';
    n := 0;
    while buf[off + n] != '\0'
      invariant off + n <= end && forall i | off <= i < off + n :: buf[i] != '\0'
      decreases end - n
    {
      n := n + 1;
    }
  }

  /** Reverse `n` characters in place: `size` of them, or the whole string when `size` is zero. */
  method StringReverse(buf: array<char>, off: nat, size: nat) returns (n: nat)
    requires off + size <= buf.Length && (size == 0 ==> exists i :: off <= i < buf.Length && buf[i] == '\0')
    modifies buf
    ensures off + n <= buf.Length && (size != 0 ==> n == size)
    ensures size == 0 ==> off + n < buf.Length && buf[off + n] == '\0' && forall i | off <= i < off + n :: old(buf[i]) != '\0'
    ensures forall i | 0 <= i < buf.Length ::
      buf[i] == if off <= i < off + n then old(buf[off + (off + n - 1 - i)]) else old(buf[i])
  {
    n := size;
    if size == 0 { n := StringLenth(buf, off); }
    if n <= 1 { return; }
    var head, tail := off, off + n - 1;
    while head < tail
      invariant off <= head <= tail + 1 <= off + n && head - off == off + n - 1 - tail
      invariant forall i | 0 <= i < buf.Length ::
        buf[i] == if off <= i < head || tail < i < off + n then old(buf[off + (off + n - 1 - i)]) else old(buf[i])
    {
      var ch := buf[head];
      buf[head] := buf[tail];
      buf[tail] := ch;
      head, tail := head + 1, tail - 1;
    }
  }

  lemma NextDigit(t: string, k: nat, rest: nat, base: nat, upper: bool)
    requires IsBase(base) && k < |t| && t[..|t| - k] == Text(rest, base, upper)
    ensures t[|t| - 1 - k] == DigitChar(Rem(rest, base), upper)
    ensures Quot(rest, base) != 0 <==> k + 1 < |t|
    ensures Quot(rest, base) != 0 ==> t[..|t| - (k + 1)] == Text(Quot(rest, base), base, upper)
  {
    var now := t[..|t| - k];
    assert t[|t| - 1 - k] == now[|now| - 1] && t[..|t| - (k + 1)] == now[..|now| - 1];
    assert rest < base <==> Quot(rest, base) == 0;
    if base <= rest {
      assert now[..|now| - 1] == Text(Quot(rest, base), base, upper);
    }
  }

  /** The digits of a number, lowest first, into a buffer if there is one. */
  method PutDigits(buf: array?<char>, off: nat, value: nat, base: nat, upper: bool, ghost t: string) returns (lenth: nat)
    requires IsBase(base) && t == Text(value, base, upper) && (buf != null ==> off + |t| <= buf.Length)
    modifies if buf == null then {} else {buf}
    ensures lenth == |t|
    ensures buf != null ==> forall i | 0 <= i < buf.Length ::
      buf[i] == if off <= i < off + |t| then t[off + |t| - 1 - i] else old(buf[i])
  {
    var rest, more := value, true;
    lenth := 0;
    assert t[..|t|] == t;
    while more
      invariant lenth <= |t| && (more <==> lenth < |t|)
      invariant more ==> t[..|t| - lenth] == Text(rest, base, upper)
      invariant buf != null ==> forall i | 0 <= i < buf.Length ::
        buf[i] == if off <= i < off + lenth then t[off + |t| - 1 - i] else old(buf[i])
      decreases |t| - lenth
    {
      NextDigit(t, lenth, rest, base, upper);
      if buf != null { buf[off + lenth] := DigitChar(Rem(rest, base), upper); }
      rest := Quot(rest, base);
      lenth := lenth + 1;
      more := rest != 0;
    }
  }

  /** The decimal digits of a number; without a buffer they are only counted. */
  method ConvertNumber(buf: array?<char>, off: nat, value: nat) returns (lenth: nat)
    requires buf != null ==> off + |Text(value, 10, false)| <= buf.Length
    modifies if buf == null then {} else {buf}
    ensures lenth == |Text(value, 10, false)|
    ensures buf != null ==> buf[..] == Put(old(buf[..]), off, Text(value, 10, false))
  {
    ghost var t := Text(value, 10, false);
    lenth := PutDigits(buf, off, value, 10, false, t);
    if buf != null {
      var _ := StringReverse(buf, off, lenth);
      assert buf[..] == Put(old(buf[..]), off, t);
    }
  }

  /** Two prefix characters and then the digits collected in `temp`, turned round. */
  method PutPrefixed(buf: array<char>, off: nat, x: char, temp: array<char>, count: nat, ghost t: string)
    requires count == |t| <= temp.Length && off + 2 + |t| <= buf.Length && buf != temp
    requires forall i | 0 <= i < count :: temp[i] == t[count - 1 - i]
    modifies buf
    ensures buf[..] == Put(old(buf[..]), off, Prefix(x, t))
  {
    buf[off] := '0';
    buf[off + 1] := x;
    var idx := 0;
    while idx < count
      invariant idx <= count
      invariant forall i | 0 <= i < buf.Length ::
        buf[i] == if off <= i < off + 2 + idx then Prefix(x, t)[i - off] else old(buf[i])
    {
      buf[off + idx + 2] := temp[count - idx - 1];
      idx := idx + 1;
    }
    assert buf[..] == Put(old(buf[..]), off, Prefix(x, t));
  }

  /** A word in hexadecimal; without a buffer it is only measured. */
  method DecToHex(buf: array?<char>, off: nat, number: nat, upper: bool) returns (lenth: nat)
    requires number < 0x1_0000_0000 && (buf != null ==> off + |Hex(number, upper)| <= buf.Length)
    modifies if buf == null then {} else {buf}
    ensures lenth == |Hex(number, upper)| <= 10
    ensures buf != null ==> buf[..] == Put(old(buf[..]), off, Hex(number, upper))
  {
    ghost var t := Text(number, 16, upper);
    HexLength(number, upper);
    var temp := new char[HEX_TEMP];
    var count := PutDigits(temp, 0, number, 16, upper, t);
    if buf != null { PutPrefixed(buf, off, if upper then 'X' else 'x', temp, count, t); }
    lenth := count + 2;
  }

  /** A word in binary. */
  method DecToBinary(buf: array?<char>, off: nat, number: nat) returns (lenth: nat)
    requires number < 0x1_0000_0000 && (buf != null ==> off + |Binary(number)| <= buf.Length)
    modifies if buf == null then {} else {buf}
    ensures lenth == |Binary(number)| <= 34
    ensures buf != null ==> buf[..] == Put(old(buf[..]), off, Binary(number))
  {
    ghost var t := Text(number, 2, false);
    BinaryLength(number);
    var temp := new char[BINARY_TEMP];
    var count := PutDigits(temp, 0, number, 2, false, t);
    if buf != null { PutPrefixed(buf, off, 'b', temp, count, t); }
    lenth := count + 2;
  }

  lemma HexLength(number: nat, upper: bool)
    requires number < 0x1_0000_0000
    ensures |Text(number, 16, upper)| <= 8
  {
    assert Power(16, 4) == 0x1_0000;
    assert Power(16, 8) == 0x1_0000_0000;
    TextLength(number, 16, upper, 8);
  }

  lemma BinaryLength(number: nat)
    requires number < 0x1_0000_0000
    ensures |Text(number, 2, false)| <= 32
  {
    assert Power(2, 8) == 0x100;
    assert Power(2, 16) == 0x1_0000;
    assert Power(2, 24) == 0x100_0000;
    assert Power(2, 32) == 0x1_0000_0000;
    TextLength(number, 2, false, 32);
  }
}
