/** Decimal numbers: `std::to_string` and `parse::number` (src/parse/number.h). */
module Numbers {
  import opened Options

  const MAX_INT64: int := 0x7fff_ffff_ffff_ffff
  const MAX_UINT64: int := 0xffff_ffff_ffff_ffff

  predicate IsInt64(n: int) {
    -MAX_INT64 - 1 <= n <= MAX_INT64
  }

  // ------------------------------------------------------------------------------------------
  // Printing

  predicate IsDigit(c: char) {
    '0' <= c <= '9'
  }

  function DigitOf(c: char): (d: nat)
    requires IsDigit(c)
    ensures d < 10
  {
    c as int - '0' as int
  }

  function Digits(n: nat): string {
    if n < 10 then [(n + '0' as int) as char] else Digits(n / 10) + [(n % 10 + '0' as int) as char]
  }

  /** `std::to_string`. */
  function Decimal(n: int): string {
    if n < 0 then "-" + Digits(-n) else Digits(n)
  }

  // ------------------------------------------------------------------------------------------
  // The number that a string of digits means

  predicate AllDigits(s: string) {
    forall i :: 0 <= i < |s| ==> IsDigit(s[i])
  }

  function Val(s: string): nat
    requires AllDigits(s)
  {
    if s == [] then 0 else 10 * Val(s[..|s| - 1]) + DigitOf(s[|s| - 1])
  }

  function DigitCount(s: string): (k: nat)
    ensures k <= |s| && AllDigits(s[..k])
    ensures k < |s| ==> !IsDigit(s[k])
  {
    if s == [] || !IsDigit(s[0]) then 0 else 1 + DigitCount(s[1..])
  }

  /** What follows a number must not go on with digits. */
  predicate Ends(rest: string) {
    rest == [] || !IsDigit(rest[0])
  }

  lemma {:induction false} DigitsMean(n: nat)
    ensures Digits(n) != [] && AllDigits(Digits(n)) && Val(Digits(n)) == n
  {
    if n >= 10 {
      DigitsMean(n / 10);
      assert Digits(n)[..|Digits(n)| - 1] == Digits(n / 10);
    } else {
      assert Digits(n)[..0] == [];
    }
  }

  lemma {:induction false} CountDigits(d: string, rest: string)
    requires AllDigits(d) && Ends(rest)
    ensures DigitCount(d + rest) == |d|
  {
    if d == [] {
      assert d + rest == rest;
    } else {
      CountDigits(d[1..], rest);
      assert (d + rest)[1..] == d[1..] + rest;
    }
  }

  // ------------------------------------------------------------------------------------------
  // Parsing

  /** An optional sign and at least one digit, as many as there are; no bound on the value. */
  function ScanInt(s: string): (r: Option<(int, string)>)
    ensures r.Some? ==> |r.value.1| < |s| && Ends(r.value.1)
  {
    var neg := s != [] && s[0] == '-';
    var t := if s != [] && (s[0] == '-' || s[0] == '+') then s[1..] else s;
    var k := DigitCount(t);
    var v: int := Val(t[..k]);
    if k == 0 then None else Some((if neg then -v else v, t[k..]))
  }

  /** `parse::number<int64_t>`: the same, refusing what does not fit. */
  function ParseInt64(s: string): (r: Option<(int, string)>)
    ensures r.Some? ==> |r.value.1| < |s| && IsInt64(r.value.0)
  {
    match ScanInt(s)
    case None => None
    case Some(p) => if IsInt64(p.0) then Some(p) else None
  }

  lemma CountPrinted(n: nat, rest: string)
    requires Ends(rest)
    ensures var s := Digits(n) + rest; var k := DigitCount(s);
            k > 0 && Val(s[..k]) == n && s[k..] == rest
  {
    var d := Digits(n);
    DigitsMean(n);
    CountDigits(d, rest);
    hide *;
    assert (d + rest)[..|d|] == d && (d + rest)[|d|..] == rest;
  }

  /** Printing a number and scanning it gives it back, together with whatever followed. */
  lemma ScanDecimal(n: int, rest: string)
    requires Ends(rest)
    ensures ScanInt(Decimal(n) + rest) == Some((n, rest))
  {
    var d := Digits(if n < 0 then -n else n);
    CountPrinted(if n < 0 then -n else n, rest);
    assert IsDigit((d + rest)[0]);
    hide Digits;
    hide DigitCount;
    hide Val;
    if n < 0 {
      assert Decimal(n) + rest == ['-'] + (d + rest);
      assert (['-'] + (d + rest))[1..] == d + rest;
    }
  }

  /** Hence a printed number determines itself, wherever it ends. */
  lemma DecimalPrefixFree(m: int, n: int, x: string, y: string)
    requires Ends(x) && Ends(y) && Decimal(m) + x == Decimal(n) + y
    ensures m == n && x == y
  {
    ScanDecimal(m, x);
    ScanDecimal(n, y);
  }

  // ------------------------------------------------------------------------------------------
  // The loops of `parse::number`, in 64-bit arithmetic

  function Pow10(n: nat): (r: nat)
    ensures r > 0
  {
    if n == 0 then 1 else 10 * Pow10(n - 1)
  }

  lemma {:induction false} ValBelow(s: string)
    requires AllDigits(s)
    ensures Val(s) < Pow10(|s|)
  {
    if s == [] {
    } else {
      ValBelow(s[..|s| - 1]);
    }
  }

  /** d followed by k zeros. */
  function Scaled(d: nat, k: nat): nat {
    if k == 0 then d else 10 * Scaled(d, k - 1)
  }

  lemma {:induction false} ScaledIsProduct(d: nat, k: nat)
    ensures Scaled(d, k) == Pow10(k) * d
  {
    if k == 0 {
    } else {
      ScaledIsProduct(d, k - 1);
      assert 10 * (Pow10(k - 1) * d) == 10 * Pow10(k - 1) * d;
    }
  }

  lemma {:induction false} ScaledAtLeast(d: nat, k: nat)
    ensures if d == 0 then Scaled(d, k) == 0 else Scaled(d, k) >= Pow10(k)
  {
    if k == 0 {
    } else {
      ScaledAtLeast(d, k - 1);
    }
  }

  /** The first digit counts for its power of ten. */
  lemma {:induction false} ValCons(s: string)
    requires AllDigits(s) && s != []
    ensures Val(s) == Scaled(DigitOf(s[0]), |s| - 1) + Val(s[1..])
  {
    if |s| > 1 {
      ValCons(s[..|s| - 1]);
      assert s[..|s| - 1][1..] == s[1..][..|s| - 2];
    }
  }

  lemma {:induction false} ValSuffix(s: string, i: nat)
    requires AllDigits(s) && i <= |s|
    ensures Val(s[i..]) <= Val(s)
  {
    if i > 0 {
      ValCons(s);
      ValSuffix(s[1..], i - 1);
      assert s[1..][i - 1..] == s[i..];
    } else {
      assert s[0..] == s;
    }
  }

  /** For equal lengths, the first differing digit decides. */
  lemma {:induction false} ValLess(a: string, b: string, i: nat)
    requires AllDigits(a) && AllDigits(b) && |a| == |b| && i < |a|
    requires a[..i] == b[..i] && DigitOf(a[i]) < DigitOf(b[i])
    ensures Val(a) < Val(b)
  {
    var n := |a| - 1;
    if i < n {
      assert a[..n][..i] == a[..i] && b[..n][..i] == b[..i];
      ValLess(a[..n], b[..n], i);
    }
  }

  lemma {:induction false} Pow10Monotone(a: nat, b: nat)
    requires a <= b
    ensures Pow10(a) <= Pow10(b)
  {
    if a < b {
      Pow10Monotone(a, b - 1);
    }
  }

  lemma {:induction false} NoLeadingZero(n: nat)
    requires n > 0
    ensures Digits(n) != [] && Digits(n)[0] != '0'
  {
    if n >= 10 {
      NoLeadingZero(n / 10);
    }
  }

  /** The digits of the largest number that fits: there are twenty of them. */
  const MAX_UINT64_STR: string := Digits(MAX_UINT64)

  lemma MaxPowers()
    ensures Pow10(19) <= MAX_UINT64 < Pow10(20)
  {
    assert Pow10(5) == 100_000;
    assert Pow10(10) == 10_000_000_000;
    assert Pow10(15) == 1_000_000_000_000_000;
    assert Pow10(19) == 10_000_000_000_000_000_000;
  }

  lemma MaxString()
    ensures AllDigits(MAX_UINT64_STR) && Val(MAX_UINT64_STR) == MAX_UINT64 && |MAX_UINT64_STR| == 20
  {
    hide Digits;
    hide Val;
    hide Pow10;
    hide Scaled;
    DigitsMean(MAX_UINT64);
    NoLeadingZero(MAX_UINT64);
    var n := |MAX_UINT64_STR|;
    ValBelow(MAX_UINT64_STR);
    ValCons(MAX_UINT64_STR);
    ScaledAtLeast(DigitOf(MAX_UINT64_STR[0]), n - 1);
    TwentyDigits(n);
  }

  lemma TwentyDigits(n: nat)
    requires n > 0 && Pow10(n - 1) <= MAX_UINT64 < Pow10(n)
    ensures n == 20
  {
    MaxPowers();
    hide Pow10;
    if n > 20 {
      Pow10Monotone(20, n - 1);
    } else if n < 20 {
      Pow10Monotone(n, 19);
    }
  }

  /** `detail::digit`, whatever the character. */
  function RawDigit(c: char): nat {
    (c as int - '0' as int) % 256
  }

  /** The position compared too many: the character behind twenty digits against the terminator of
      the greatest number's text. */
  predicate ReadsOn(next: char) {
    RawDigit(next) <= RawDigit('\0')
  }

  /** What `parse::number<uint64_t>` reads; `beyond` is the character after the end of the view. */
  function ScanUint64(s: string, beyond: char): Option<(nat, string)> {
    var k := DigitCount(s);
    var next := if k < |s| then s[k] else beyond;
    if k == 0 || Val(s[..k]) > MAX_UINT64 || (Val(s[..k]) == MAX_UINT64 && !ReadsOn(next)) then None
    else Some((Val(s[..k]), s[k..]))
  }

  /** A printed number is read back if and only if it fits and, should it be the greatest one, the
      character that follows is not mistaken for a digit too large. */
  lemma Uint64RoundTrip(n: nat, rest: string, beyond: char)
    requires Ends(rest)
    ensures ScanUint64(Digits(n) + rest, beyond) == Some((n, rest)) <==>
            n < MAX_UINT64 || (n == MAX_UINT64 && ReadsOn(if rest == "" then beyond else rest[0]))
  {
    hide Val;
    hide Digits;
    CountPrinted(n, rest);
    var s := Digits(n) + rest;
    var k := DigitCount(s);
    assert rest == s[k..];
  }

  /** For one: the greatest number followed by a space is refused, followed by the letter e it is not. */
  lemma GreatestBeforeSpace(beyond: char)
    ensures ScanUint64(Digits(MAX_UINT64) + " ", beyond) == None
    ensures ScanUint64(Digits(MAX_UINT64) + "e", beyond) == Some((MAX_UINT64, "e"))
  {
    hide Val;
    hide Digits;
    CountPrinted(MAX_UINT64, " ");
    CountPrinted(MAX_UINT64, "e");
  }

  /** Leading zeros count for nothing. */
  lemma {:induction false} ZerosCountForNothing(s: string, z: nat)
    requires AllDigits(s) && z <= |s| && forall i :: 0 <= i < z ==> s[i] == '0'
    ensures Val(s) == Val(s[z..])
  {
    if z > 0 {
      ValCons(s);
      ScaledAtLeast(0, |s| - 1);
      ZerosCountForNothing(s[1..], z - 1);
      assert s[1..][z - 1..] == s[z..];
    } else {
      assert s[0..] == s;
    }
  }

  /** One more digit from the right: its value and the power of ten fit into 64 bits. */
  lemma NextDigit(s: string, i: nat)
    requires AllDigits(s) && i < |s| <= 20 && Val(s) <= MAX_UINT64
    ensures var j := |s| - i - 1;
            && Val(s[j..]) == Val(s[j + 1..]) + Scaled(DigitOf(s[j]), i) <= MAX_UINT64
            && Pow10(i) % (MAX_UINT64 + 1) == Pow10(i)
  {
    hide Val;
    hide Pow10;
    hide Scaled;
    var j := |s| - i - 1;
    ValCons(s[j..]);
    ValSuffix(s, j);
    MaxPowers();
    Pow10Monotone(i, 19);
  }

  /** The digits summed up from the right, in arithmetic modulo 2^64: no carry is ever lost. */
  method SumDigits(s: string) returns (r: nat)
    requires AllDigits(s) && |s| <= 20 && Val(s) <= MAX_UINT64
    ensures r == Val(s)
  {
    r := 0;
    var m := 1;
    for i := 0 to |s|
      invariant r == Val(s[|s| - i..])
      invariant m == Pow10(i) % (MAX_UINT64 + 1)
    {
      NextDigit(s, i);
      var d := DigitOf(s[|s| - i - 1]);
      ScaledIsProduct(d, i);
      hide Val;
      hide Scaled;
      r := (r + m * d) % (MAX_UINT64 + 1);
      m := m * 10 % (MAX_UINT64 + 1);
    }
    assert s[0..] == s;
  }

  /** Whether twenty digits fit, decided digit by digit.  The loop of the source compares one
      position too many; `next` is the character found there. */
  method FitsUint64(s: string, next: char) returns (r: bool)
    requires AllDigits(s) && |s| == 20
    ensures Val(s) < MAX_UINT64 ==> r
    ensures Val(s) > MAX_UINT64 ==> !r
    ensures Val(s) == MAX_UINT64 ==> (r <==> ReadsOn(next))
  {
    MaxString();
    hide Digits;
    for i := 0 to 20
      invariant s[..i] == MAX_UINT64_STR[..i]
    {
      var a, b := DigitOf(s[i]), DigitOf(MAX_UINT64_STR[i]);
      if a > b {
        ValLess(MAX_UINT64_STR, s, i);
        return false;
      }
      if a < b {
        ValLess(s, MAX_UINT64_STR, i);
        return true;
      }
      assert s[i] == MAX_UINT64_STR[i];
      assert s[..i + 1] == s[..i] + [s[i]];
      assert MAX_UINT64_STR[..i + 1] == MAX_UINT64_STR[..i] + [MAX_UINT64_STR[i]];
    }
    assert s == MAX_UINT64_STR;
    return RawDigit(next) <= RawDigit('\0');
  }

  /** Strips zeros, then counts the digits that follow. */
  method CountLoops(s: string) returns (z: nat, e: nat)
    ensures z + e == DigitCount(s)
    ensures forall i :: 0 <= i < z ==> s[i] == '0'
    ensures e > 0 ==> s[z] != '0'
  {
    ghost var k := DigitCount(s);
    z, e := 0, 0;
    while z < |s| && s[z] == '0'
      invariant z <= k && forall i :: 0 <= i < z ==> s[i] == '0'
    {
      z := z + 1;
    }
    while z + e < |s| && IsDigit(s[z + e])
      invariant z + e <= k
      invariant e > 0 ==> s[z] != '0'
    {
      e := e + 1;
    }
  }

  /** The value of digits that do not start with a zero, if it fits. */
  method DigitsToUint64(d: string, next: char) returns (r: Option<nat>)
    requires AllDigits(d) && d != [] && d[0] != '0'
    ensures Val(d) > MAX_UINT64 ==> r == None
    ensures Val(d) < MAX_UINT64 ==> r == Some(Val(d))
    ensures Val(d) == MAX_UINT64 ==> r == if ReadsOn(next) then Some(Val(d)) else None
  {
    MaxPowers();
    if |d| > 20 {
      ValCons(d);
      ScaledAtLeast(DigitOf(d[0]), |d| - 1);
      Pow10Monotone(20, |d| - 1);
      return None;
    }
    var fits := true;
    if |d| == 20 {
      fits := FitsUint64(d, next);
    } else {
      ValBelow(d);
      Pow10Monotone(|d|, 19);
    }
    if !fits {
      return None;
    }
    var v := SumDigits(d);
    return Some(v);
  }

  /** `parse::number<uint64_t>`. */
  method ParseUint64(s: string, beyond: char) returns (r: Option<(nat, string)>)
    ensures r == ScanUint64(s, beyond)
  {
    var z, e := CountLoops(s);
    ghost var k := DigitCount(s);
    ZerosCountForNothing(s[..k], z);
    hide DigitCount;
    var d := s[z..z + e];
    assert s[..k][z..] == d;
    if e == 0 {
      hide Val;
      return if z > 0 then Some((0, s[z..])) else None;
    }
    assert d[0] == s[z];
    hide Val;
    var v := DigitsToUint64(d, if z + e < |s| then s[z + e] else beyond);
    return if v == None then None else Some((v.value, s[z + e..]));
  }

  /** `parse::number<int64_t>`, on top of it. */
  method ParseNumber(s: string, beyond: char) returns (r: Option<(int, string)>)
    ensures r == ParseInt64(s)
  {
    if s == [] {
      return None;
    }
    var negative := s[0] == '-';
    var t := if s[0] == '+' || negative then s[1..] else s;
    var abs := ParseUint64(t, beyond);
    if abs == None {
      return None;
    }
    var v := abs.value.0;
    if v == 0 {
      return Some((0, abs.value.1));
    }
    if !negative {
      if v > MAX_INT64 {
        return None;
      }
      return Some((v, abs.value.1));
    }
    if v - 1 <= MAX_INT64 {
      return Some((-v, abs.value.1));
    }
    return None;
  }
}
