/**
 * The string operations the handlers use: `startsWith`, `includes`, and the
 * `"X.XXMB"` rendering `${(size / 1024 / 1024).toFixed(2)}MB` of a file size.
 */
module Strings {
  import opened Wrappers

  /** `s.startsWith(prefix)` */
  predicate StartsWith(s: string, prefix: string)
    ensures StartsWith(s, prefix) <==> |prefix| <= |s| && forall k :: 0 <= k < |prefix| ==> s[k] == prefix[k]
  {
    |prefix| <= |s| && s[..|prefix|] == prefix
  }

  /** `sub` occurs in `s` starting at index `i`. */
  ghost predicate OccursAt(s: string, sub: string, i: int)
  {
    0 <= i && i + |sub| <= |s| && s[i..i + |sub|] == sub
  }

  /** Past the first index, `sub` occurs in `s` where it occurs in the tail of `s`, one index earlier. */
  lemma OccursInTail(s: string, sub: string, i: int)
    requires |s| > 0 && i > 0
    ensures OccursAt(s, sub, i) <==> OccursAt(s[1..], sub, i - 1)
  {
    if i + |sub| <= |s| {
      assert s[1..][i - 1..i - 1 + |sub|] == s[i..i + |sub|];
    }
  }

  /** `s.includes(sub)`: true exactly when `sub` occurs somewhere in `s` (case-sensitive). */
  function Contains(s: string, sub: string): (r: bool)
    ensures r <==> exists i :: OccursAt(s, sub, i)
    decreases |s|
  {
    if |sub| > |s| then
      assert forall i :: !OccursAt(s, sub, i);
      false
    else if s[..|sub|] == sub then
      assert OccursAt(s, sub, 0);
      true
    else
      var r := Contains(s[1..], sub);
      assert !OccursAt(s, sub, 0);
      assert forall i :: OccursAt(s, sub, i) <==> i > 0 && OccursAt(s[1..], sub, i - 1) by {
        forall i | i > 0 { OccursInTail(s, sub, i); }
      }
      assert r ==> OccursAt(s, sub, (var j :| OccursAt(s[1..], sub, j); j) + 1);
      r
  }

  function DigitChar(d: nat): char
    requires d < 10
  {
    ('0' as int + d) as char
  }

  predicate IsDigit(c: char)
  {
    '0' <= c <= '9'
  }

  predicate AllDigits(s: string)
  {
    forall k :: 0 <= k < |s| ==> IsDigit(s[k])
  }

  /** The value of a string of decimal digits. */
  function DigitsValue(s: string): nat
    requires AllDigits(s)
    decreases |s|
  {
    if s == [] then 0
    else DigitsValue(s[..|s| - 1]) * 10 + (s[|s| - 1] as int - '0' as int)
  }

  /** The decimal representation of `n` (JavaScript's `String(n)` for a whole number). */
  function NatToString(n: nat): (r: string)
    ensures |r| >= 1 && AllDigits(r)
    ensures r[0] == '0' ==> n == 0
    decreases n
  {
    if n < 10 then [DigitChar(n)] else NatToString(n / 10) + [DigitChar(n % 10)]
  }

  /** Reading back a rendered number gives the number. */
  lemma {:induction false} DigitsValueOfNatToString(n: nat)
    ensures DigitsValue(NatToString(n)) == n
    decreases n
  {
    var s := NatToString(n);
    if n >= 10 {
      assert s[..|s| - 1] == NatToString(n / 10);
      DigitsValueOfNatToString(n / 10);
    }
  }

  /** The two-digit rendering of `n < 100`, with a leading zero when needed. */
  function TwoDigits(n: nat): (r: string)
    requires n < 100
    ensures |r| == 2 && AllDigits(r) && DigitsValue(r) == n
  {
    var r := [DigitChar(n / 10), DigitChar(n % 10)];
    assert r[..1] == [DigitChar(n / 10)] && [DigitChar(n / 10)][..0] == [];
    assert DigitsValue(r[..1]) == n / 10;
    r
  }

  /** Bytes in one MiB, the divisor of `size / 1024 / 1024`. */
  const MiB: nat := 1048576

  /**
   * `(size / 1024 / 1024).toFixed(2)` scaled by 100: the whole number `n` of
   * hundredths for which `n / 100` is nearest to `size / MiB`, the larger one
   * on a tie. Dividing a whole number below 2^53 by a power of two is exact
   * in double precision, so this is the value JavaScript rounds.
   */
  function RoundedHundredthsMiB(size: nat): (n: nat)
    ensures 100 * size - MiB / 2 < n * MiB <= 100 * size + MiB / 2
  {
    (100 * size + MiB / 2) / MiB
  }

  /** The distance from `n` hundredths to `size` bytes, in units of 1/(100 * MiB) MiB. */
  function Distance(size: nat, n: int): nat
  {
    if n * MiB >= 100 * size then n * MiB - 100 * size else 100 * size - n * MiB
  }

  /** `toFixed` rounds to the nearest hundredth, and upwards on a tie. */
  lemma RoundedIsNearest(size: nat, m: int)
    ensures Distance(size, RoundedHundredthsMiB(size)) <= Distance(size, m)
    ensures Distance(size, RoundedHundredthsMiB(size)) == Distance(size, m) ==> m <= RoundedHundredthsMiB(size)
  {
    var n := RoundedHundredthsMiB(size);
    assert n * MiB <= 100 * size + MiB / 2 < n * MiB + MiB;
    if m > n {
      assert m * MiB >= n * MiB + MiB;
    } else if m < n {
      assert m * MiB <= n * MiB - MiB;
    }
  }

  /** `${(size / 1024 / 1024).toFixed(2)}MB` */
  function FormatMB(size: nat): (r: string)
    ensures |r| >= 6 && r[|r| - 2..] == "MB" && r[|r| - 5] == '.'
    ensures AllDigits(r[..|r| - 5]) && AllDigits(r[|r| - 4..|r| - 2])
    ensures r[0] == '0' ==> r[1] == '.'
  {
    var n := RoundedHundredthsMiB(size);
    var whole := NatToString(n / 100);
    var r := whole + "." + TwoDigits(n % 100) + "MB";
    assert r[..|r| - 5] == whole;
    assert r[|r| - 4..|r| - 2] == TwoDigits(n % 100);
    assert r[0] == whole[0];
    assert whole[0] == '0' ==> whole == "0";
    r
  }

  /** Reads a `"<digits>.<two digits>MB"` string back as a number of hundredths. */
  function ParseMB(s: string): Option<nat>
  {
    if |s| >= 6 && s[|s| - 2..] == "MB" && s[|s| - 5] == '.'
       && AllDigits(s[..|s| - 5]) && AllDigits(s[|s| - 4..|s| - 2])
    then Some(DigitsValue(s[..|s| - 5]) * 100 + DigitsValue(s[|s| - 4..|s| - 2]))
    else None
  }

  /** The rendered size reads back as the rounded number of hundredths of a MiB. */
  lemma FormatMBRoundTrip(size: nat)
    ensures ParseMB(FormatMB(size)) == Some(RoundedHundredthsMiB(size))
  {
    var n := RoundedHundredthsMiB(size);
    var whole, frac := NatToString(n / 100), TwoDigits(n % 100);
    var s := FormatMB(size);
    assert s == whole + "." + frac + "MB";
    assert s[..|s| - 5] == whole;
    assert s[|s| - 4..|s| - 2] == frac;
    DigitsValueOfNatToString(n / 100);
  }

  /** Division by `MiB` of a number between two consecutive multiples of it. */
  lemma DivideByMiB(a: nat, q: nat)
    requires q * MiB <= a < q * MiB + MiB
    ensures a / MiB == q
  {
  }

  /** A whole number of MiB renders with `.00`; for instance 21 MiB is `"21.00MB"`. */
  lemma FormatWholeMiB(k: nat)
    ensures FormatMB(k * MiB) == NatToString(k) + ".00MB"
  {
    var q := 100 * k;
    assert 100 * (k * MiB) + MiB / 2 == q * MiB + MiB / 2;
    DivideByMiB(q * MiB + MiB / 2, q);
    assert RoundedHundredthsMiB(k * MiB) == q;
    assert q / 100 == k && q % 100 == 0;
  }
}
