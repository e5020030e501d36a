/** The number formats on the wire: `fmt`'s `%04x` and `%d`, and
    `strconv.ParseInt` for bases 10 and 16 and sizes 32 and 64. */
module Numbers {

  import opened Bytes
  import opened Errors

  const Plus: byte := 43
  const Minus: byte := 45
  const Zero: byte := 48

  /** The lower-case digit `fmt` prints for `d`. */
  function DigitByte(d: nat): (c: byte)
    requires d < 16
  {
    if d < 10 then 48 + d else 87 + d
  }

  /** The value strconv gives a digit byte, 0-9 then a-z or A-Z as 10-35,
      and None for any other byte. */
  function DigitValue(c: byte): (d: Option<nat>)
    ensures d.Some? ==> d.value < 36
  {
    if 48 <= c <= 57 then Some(c - 48)
    else if 97 <= c <= 122 then Some(c - 87)
    else if 65 <= c <= 90 then Some(c - 55)
    else None
  }

  /** 0-9 or a-f: what fmt prints in base 16. */
  predicate IsLowerHex(c: byte)
  {
    48 <= c <= 57 || 97 <= c <= 102
  }

  predicate IsDigit(c: byte, base: nat)
  {
    DigitValue(c).Some? && DigitValue(c).value < base
  }

  predicate AllDigits(s: seq<byte>, base: nat)
  {
    forall i :: 0 <= i < |s| ==> IsDigit(s[i], base)
  }

  /** The value of a digit string, most significant digit first. */
  function DigitsValue(s: seq<byte>, base: nat): nat
    requires AllDigits(s, base)
  {
    if s == [] then 0
    else DigitsValue(s[..|s| - 1], base) * base + DigitValue(s[|s| - 1]).value
  }

  /** The digits `fmt` prints for `n` in `base`: no sign, no leading zero. */
  function FormatUnsigned(n: nat, base: nat): (r: seq<byte>)
    requires 2 <= base <= 16
    ensures |r| >= 1 && AllDigits(r, base)
    ensures forall i :: 0 <= i < |r| ==> IsLowerHex(r[i])
    decreases n
  {
    if n < base then [DigitByte(n)]
    else
      DivFacts(n, base);
      var high := FormatUnsigned(n / base, base);
      AppendDigit(high, n % base, base);
      high + [DigitByte(n % base)]
  }

  /** The digits FormatUnsigned prints read back as `n`, and the first is not
      a zero unless it is the only one. */
  lemma {:induction false} FormatUnsignedValue(n: nat, base: nat)
    requires 2 <= base <= 16
    ensures DigitsValue(FormatUnsigned(n, base), base) == n
    ensures |FormatUnsigned(n, base)| > 1 ==> FormatUnsigned(n, base)[0] != Zero
    decreases n
  {
    if n >= base {
      DivFacts(n, base);
      var q, d := n / base, n % base;
      var high := FormatUnsigned(q, base);
      assert FormatUnsigned(n, base) == high + [DigitByte(d)];
      FormatUnsignedValue(q, base);
      AppendDigit(high, d, base);
      assert FormatUnsigned(n, base)[0] == high[0];
      assert |high| == 1 ==> high[0] == DigitByte(q) && q >= 1;
    }
  }

  lemma DivFacts(n: nat, base: nat)
    requires 2 <= base <= n
    ensures 1 <= n / base < n && n % base < base
    ensures (n / base) * base + n % base == n
  {
  }

  /** Appending a digit multiplies the value by the base and adds the digit. */
  lemma AppendDigit(high: seq<byte>, d: nat, base: nat)
    requires 2 <= base <= 16 && d < base && AllDigits(high, base)
    ensures AllDigits(high + [DigitByte(d)], base)
    ensures DigitsValue(high + [DigitByte(d)], base) == DigitsValue(high, base) * base + d
  {
    var r := high + [DigitByte(d)];
    assert r[..|r| - 1] == high;
    assert DigitValue(DigitByte(d)) == Some(d);
  }

  /** `fmt.Sprintf("%04x", n)` for n >= 0: lower-case hex, zero-padded to at least 4 digits. */
  function Hex04(n: nat): (r: seq<byte>)
    ensures |r| >= 4
  {
    var digits := FormatUnsigned(n, 16);
    if |digits| >= 4 then digits else seq(4 - |digits|, _ => Zero) + digits
  }

  /** `fmt.Sprintf("%d", n)`. */
  function FormatInt(n: int): (r: seq<byte>)
    ensures |r| >= 1 && (r[0] == Minus <==> n < 0)
    ensures n < 0 ==> r[1..] == FormatUnsigned(-n, 10)
    ensures n >= 0 ==> r == FormatUnsigned(n, 10)
  {
    if n < 0 then [Minus] + FormatUnsigned(-n, 10) else FormatUnsigned(n, 10)
  }

  /** The least value outside an integer of `bitSize` bits: 2^(bitSize-1). */
  function Cutoff(bitSize: nat): int
    requires bitSize == 32 || bitSize == 64
  {
    if bitSize == 32 then 0x8000_0000 else 0x8000_0000_0000_0000
  }

  /** `strconv.ParseInt(s, base, bitSize)`: an optional `+` or `-`, then one or
      more digits of `base` in either case, and the value must fit in `bitSize`
      bits. No base prefix and no underscores, as `base` is not 0. */
  function ParseInt(s: seq<byte>, base: nat, bitSize: nat): (r: Result<int>)
    requires 2 <= base <= 36
    requires bitSize == 32 || bitSize == 64
    ensures r.Ok? ==> -Cutoff(bitSize) <= r.value < Cutoff(bitSize)
    ensures r.Err? ==> r.error == BadNumber
  {
    if s == [] then Err(BadNumber)
    else
      var neg := s[0] == Minus;
      var digits := if s[0] == Plus || s[0] == Minus then s[1..] else s;
      if digits == [] || !AllDigits(digits, base) then Err(BadNumber)
      else
        var v: int := DigitsValue(digits, base);
        if !neg && v >= Cutoff(bitSize) then Err(BadNumber)
        else if neg && v > Cutoff(bitSize) then Err(BadNumber)
        else Ok(if neg then -v else v)
  }

  /** ParseInt accepts only a sign and digits: any other byte anywhere makes it fail. */
  lemma ParseIntRejects(s: seq<byte>, base: nat, bitSize: nat, k: nat)
    requires 2 <= base <= 36 && (bitSize == 32 || bitSize == 64)
    requires k < |s| && !IsDigit(s[k], base)
    requires k > 0 || (s[k] != Plus && s[k] != Minus)
    ensures ParseInt(s, base, bitSize) == Err(BadNumber)
  {
    if s[0] == Plus || s[0] == Minus {
      assert s[1..][k - 1] == s[k];
    }
  }

  /** Zeros in front of a digit string do not change its value. */
  lemma {:induction false} LeadingZeros(z: nat, s: seq<byte>, base: nat)
    requires 2 <= base <= 16 && AllDigits(s, base)
    ensures AllDigits(seq(z, _ => Zero) + s, base)
    ensures DigitsValue(seq(z, _ => Zero) + s, base) == DigitsValue(s, base)
    decreases |s|, z
  {
    var p := seq(z, _ => Zero) + s;
    assert forall i :: 0 <= i < |p| ==> p[i] == (if i < z then Zero else s[i - z]);
    if s == [] {
      assert p == seq(z, _ => Zero);
      if z > 0 {
        assert p[..|p| - 1] == seq(z - 1, _ => Zero) + [];
        LeadingZeros(z - 1, [], base);
      }
    } else {
      assert p[..|p| - 1] == seq(z, _ => Zero) + s[..|s| - 1];
      LeadingZeros(z, s[..|s| - 1], base);
    }
  }

  /** FormatUnsigned in base 16 prints at most k digits exactly when n < 16^k. */
  lemma {:induction false} HexWidth(n: nat, k: nat)
    requires k >= 1
    ensures |FormatUnsigned(n, 16)| <= k <==> n < Pow16(k)
    decreases k
  {
    if k > 1 {
      Pow16Grows(k - 1);
      if n >= 16 {
        HexWidth(n / 16, k - 1);
      }
    }
  }

  function Pow16(k: nat): (p: nat)
    ensures p >= 1
  {
    if k == 0 then 1 else 16 * Pow16(k - 1)
  }

  lemma Pow16Grows(k: nat)
    ensures Pow16(k) >= 16 || k == 0
  {
  }

  /** `%04x` of a length below 0x10000 is exactly four lower-case hex digits,
      and ParseInt reads them back as that length. */
  lemma Hex04RoundTrip(n: nat)
    requires n <= 0xffff
    ensures |Hex04(n)| == 4
    ensures AllDigits(Hex04(n), 16)
    ensures forall i :: 0 <= i < 4 ==> IsLowerHex(Hex04(n)[i])
    ensures ParseInt(Hex04(n), 16, 64) == Ok(n)
  {
    var h := Hex04(n);
    PaddedDigits(n);
    assert IsDigit(h[0], 16);
    assert h[0] != Plus && h[0] != Minus;
    assert DigitsValue(h, 16) == n;
  }

  lemma PaddedDigits(n: nat)
    requires n <= 0xffff
    ensures |Hex04(n)| == 4 && AllDigits(Hex04(n), 16) && DigitsValue(Hex04(n), 16) == n
    ensures forall i :: 0 <= i < 4 ==> IsLowerHex(Hex04(n)[i])
  {
    var digits := FormatUnsigned(n, 16);
    FormatUnsignedValue(n, 16);
    HexWidth(n, 4);
    assert Pow16(4) == 0x10000;
    if |digits| < 4 {
      var z := 4 - |digits|;
      LeadingZeros(z, digits, 16);
      var h := seq(z, _ => Zero) + digits;
      assert Hex04(n) == h;
      forall i | 0 <= i < 4
        ensures IsLowerHex(h[i])
      {
        if i >= z {
          assert h[i] == digits[i - z];
        }
      }
    }
  }

  /** `%04x` of a length from 0x10000 to 0xfffff has five digits; its first four
      are `%04x` of length / 16. */
  lemma Hex04Overflow(n: nat)
    requires 0x10000 <= n <= 0xfffff
    ensures |Hex04(n)| == 5
    ensures Hex04(n)[..4] == Hex04(n / 16)
    ensures ParseInt(Hex04(n)[..4], 16, 64) == Ok(n / 16)
  {
    HexWidth(n, 4);
    HexWidth(n, 5);
    HexWidth(n / 16, 3);
    HexWidth(n / 16, 4);
    assert Pow16(3) == 0x1000 && Pow16(4) == 0x10000 && Pow16(5) == 0x100000;
    var digits := FormatUnsigned(n, 16);
    assert digits[..4] == FormatUnsigned(n / 16, 16);
    Hex04RoundTrip(n / 16);
  }

  /** `%d` and ParseInt in base 10 are inverse on the integers of `bitSize` bits. */
  lemma FormatIntRoundTrip(n: int, bitSize: nat)
    requires bitSize == 32 || bitSize == 64
    requires -Cutoff(bitSize) <= n < Cutoff(bitSize)
    ensures ParseInt(FormatInt(n), 10, bitSize) == Ok(n)
  {
    var s := FormatInt(n);
    var u := FormatUnsigned(if n < 0 then -n else n, 10);
    FormatUnsignedValue(if n < 0 then -n else n, 10);
    assert u[0] != Plus && u[0] != Minus by {
      assert IsDigit(u[0], 10);
    }
    if n < 0 {
      assert s[1..] == u;
    }
  }

  /** `%d` prints only a sign and digits, so never a colon. */
  lemma FormatIntNoColon(n: int)
    ensures Colon !in FormatInt(n)
  {
    var u := FormatUnsigned(if n < 0 then -n else n, 10);
    assert forall i :: 0 <= i < |u| ==> IsDigit(u[i], 10);
  }
}
