/** The path of a number in the radix tree: its base-8 digits, lowest first, as many as its
    significant bits need and at least one. */
module RadixPath {
  import opened Machine
  const MAX_BRANCH: nat := 3
  const BRANCHES: nat := 8

  function Len(n: nat): nat { if n < 8 then 1 else 1 + Len(n / 8) }

  /** The `k` lowest digits, lowest first. */
  function Digits(n: nat, k: nat): (p: seq<nat>)
    ensures |p| == k
  {
    if k == 0 then [] else [n % 8] + Digits(n / 8, k - 1)
  }

  function PathOf(n: nat): seq<nat> { Digits(n, Len(n)) }

  function ValueOf(p: seq<nat>): nat { if p == [] then 0 else p[0] + 8 * ValueOf(p[1..]) }

  lemma {:induction false} ValueOfDigits(n: nat)
    ensures ValueOf(PathOf(n)) == n
  {
    if n < 8 {
      assert Digits(n, 1) == [n % 8] + Digits(n / 8, 0);
    } else {
      ValueOfDigits(n / 8);
      assert PathOf(n)[1..] == PathOf(n / 8);
    }
  }

  /** The path is the base-8 numeral of the number, lowest digit first, without leading zeros. */
  lemma {:induction false} PathIsNumeral(n: nat)
    ensures var p := PathOf(n); p != [] && (forall d | d in p :: d < 8) && ValueOf(p) == n && (1 < |p| ==> p[|p| - 1] != 0)
  {
    ValueOfDigits(n);
    if n < 8 {
      assert Digits(n, 1) == [n % 8] + Digits(n / 8, 0);
    } else {
      PathIsNumeral(n / 8);
      assert PathOf(n) == [n % 8] + PathOf(n / 8);
      if n / 8 < 8 { assert Digits(n / 8, 1) == [n / 8 % 8] + Digits(n / 8 / 8, 0); }
    }
  }

  /** Distinct numbers have distinct paths, although one path may be a proper prefix of another. */
  lemma PathInjective(m: nat, n: nat)
    requires PathOf(m) == PathOf(n)
    ensures m == n
  {
    ValueOfDigits(m);
    ValueOfDigits(n);
  }

  lemma ProperPrefixExists()
    ensures PathOf(0) < PathOf(8) && PathOf(0) == [0] && PathOf(8) == [0, 1]
  {
    assert Digits(8, 2) == [0] + Digits(1, 1);
    assert Digits(0, 1) == [0] + Digits(0, 0);
    assert Digits(1, 1) == [1] + Digits(0, 0);
  }

  lemma NextDigit(p: seq<nat>, k: nat, value: nat)
    requires k < |p| && p[k..] == Digits(value, |p| - k)
    ensures p[k] == value % 8 < BRANCHES && p[k + 1..] == Digits(value / 8, |p| - (k + 1))
  {
    assert p[k] == p[k..][0] && p[k + 1..] == p[k..][1..];
  }

  // ---------------------------------------------------------------------------
  // Counting bits

  lemma {:induction false} LenOfBits(n: nat, bits: nat)
    requires 0 < bits && Pow2(bits - 1) <= n < Pow2(bits)
    ensures Len(n) == (bits + 2) / 3
  {
    if 3 < bits {
      assert Pow2(bits) == 8 * Pow2(bits - 3) && Pow2(bits - 1) == 8 * Pow2(bits - 4) by {
        assert Pow2(bits) == 2 * Pow2(bits - 1) && Pow2(bits - 1) == 2 * Pow2(bits - 2);
        assert Pow2(bits - 2) == 2 * Pow2(bits - 3) && Pow2(bits - 3) == 2 * Pow2(bits - 4);
      }
      Pow2Positive(bits - 4);
      LenOfBits(n / 8, bits - 3);
    } else {
      assert Pow2(3) == 8 && Pow2(2) == 4 && Pow2(1) == 2;
    }
  }

  lemma {:induction false} Pow2Positive(k: nat)
    ensures 0 < Pow2(k)
  {
    if 0 < k { Pow2Positive(k - 1); }
  }

  /** The number of significant bits, searched from the top. */
  method CountBits(number: nat) returns (bits: nat)
    requires number < Pow2(32)
    ensures bits <= 32 && number < Pow2(bits) && (0 < bits ==> Pow2(bits - 1) <= number)
  {
    bits := 32;
    while 0 < bits
      invariant bits <= 32 && number < Pow2(bits)
    {
      TopBit(number, bits - 1);
      if HasBit(number, bits - 1) { return; }
      bits := bits - 1;
    }
  }

  lemma BitsGiveLen(number: nat, count: nat)
    requires number < Pow2(count) && (0 < count ==> Pow2(count - 1) <= number)
    ensures Len(number) == if count == 0 then 1 else (count + 2) / 3
  {
    if 0 < count { LenOfBits(number, count); }
  }

  lemma RoundUp(count: nat)
    ensures 3 * ((count + 2) / 3) == if count % 3 != 0 then count + 3 - count % 3 else count
  {
  }

  /** The number of bits of the path: the significant bits rounded up to whole digits. */
  method NumLen(number: nat) returns (r: nat)
    requires number < 0x1_0000_0000
    ensures r == MAX_BRANCH * Len(number) && r <= 33
  {
    Pow2Of32();
    var count := CountBits(number);
    BitsGiveLen(number, count);
    RoundUp(count);
    if count <= MAX_BRANCH { return MAX_BRANCH; }
    var rest := count % MAX_BRANCH;
    return if rest != 0 then count + MAX_BRANCH - rest else count;
  }

  lemma Pow2Of32()
    ensures Pow2(32) == 0x1_0000_0000
  {
    assert Pow2(8) == 256;
    assert Pow2(16) == 65536;
    assert Pow2(24) == 0x100_0000;
    assert Pow2(32) == 0x1_0000_0000;
  }
}
