/** Big-endian numerals in any base, and moving between two bases while keeping
    leading zeros: the arithmetic behind Base58. */
module Positional {

  predicate Numeral(base: nat, ds: seq<nat>) {
    base >= 2 && forall i | 0 <= i < |ds| :: ds[i] < base
  }

  function ValueOf(base: nat, ds: seq<nat>): nat {
    if ds == [] then 0 else base * ValueOf(base, ds[..|ds| - 1]) + ds[|ds| - 1]
  }

  /** The digits of n without leading zeros; none for zero. */
  function DigitsOf(base: nat, n: nat): (ds: seq<nat>)
    requires base >= 2
  {
    if n == 0 then [] else DivSmaller(n, base); DigitsOf(base, n / base) + [n % base]
  }

  function LeadingZeros(ds: seq<nat>): (n: nat)
    ensures n <= |ds|
    ensures forall i | 0 <= i < n :: ds[i] == 0
    ensures n < |ds| ==> ds[n] != 0
  {
    if ds == [] || ds[0] != 0 then 0 else 1 + LeadingZeros(ds[1..])
  }

  function Repeat<T>(t: T, n: nat): (s: seq<T>)
    ensures |s| == n && forall i | 0 <= i < n :: s[i] == t
  {
    if n == 0 then [] else [t] + Repeat(t, n - 1)
  }

  /** Leading zeros are kept one by one, the rest is rewritten as one number. */
  function Rebase(from: nat, to: nat, ds: seq<nat>): seq<nat>
    requires to >= 2
  {
    Repeat<nat>(0, LeadingZeros(ds)) + DigitsOf(to, ValueOf(from, ds))
  }

  lemma DivSmaller(n: nat, base: nat)
    requires n > 0 && base >= 2
    ensures 0 <= n / base < n && 0 <= n % base < base
  {
    assert n == base * (n / base) + n % base;
    if n / base >= n {
      MulAtLeast(base, n / base, 2, n);
    }
  }

  lemma MulAtLeast(a: nat, b: nat, c: nat, d: nat)
    requires a >= c && b >= d
    ensures a * b >= c * d
  {
    assert a * b >= c * b && c * b >= c * d;
  }

  lemma DivModOf(base: nat, q: nat, r: nat)
    requires base >= 2 && r < base
    ensures (base * q + r) / base == q && (base * q + r) % base == r
  {
    var n := base * q + r;
    var q', r' := n / base, n % base;
    assert base * q + r == base * q' + r';
    if q < q' {
      MulAtLeast(base, q' - q, base, 1);
    } else if q' < q {
      MulAtLeast(base, q - q', base, 1);
    }
  }

  lemma NextDigitValue(base: nat, n: nat, ds: seq<nat>)
    requires base >= 2 && ValueOf(base, ds) == n / base
    ensures ValueOf(base, ds + [n % base]) == n
  {
    ValueSnoc(base, ds, n % base);
  }

  lemma {:induction false} DigitsRoundTrip(base: nat, n: nat)
    requires base >= 2
    ensures Numeral(base, DigitsOf(base, n)) && ValueOf(base, DigitsOf(base, n)) == n
    ensures n > 0 ==> DigitsOf(base, n) != [] && DigitsOf(base, n)[0] != 0
  {
    if n > 0 {
      DivSmaller(n, base);
      DigitsRoundTrip(base, n / base);
      NextDigitValue(base, n, DigitsOf(base, n / base));
      if n / base == 0 { SmallDigit(n, base); }
    }
  }

  lemma SmallDigit(n: nat, base: nat)
    requires base >= 2 && n / base == 0
    ensures n % base == n
  {
  }

  lemma ValueSnoc(base: nat, ds: seq<nat>, d: nat)
    ensures ValueOf(base, ds + [d]) == base * ValueOf(base, ds) + d
  {
    assert (ds + [d])[..|ds|] == ds;
  }

  /** Without a leading zero, a numeral is the digits of its value. */
  lemma {:induction false} Minimal(base: nat, ds: seq<nat>)
    requires Numeral(base, ds) && (ds != [] ==> ds[0] != 0)
    ensures DigitsOf(base, ValueOf(base, ds)) == ds
    ensures ValueOf(base, ds) == 0 <==> ds == []
  {
    if ds != [] {
      var n := |ds| - 1;
      var q := ValueOf(base, ds[..n]);
      Minimal(base, ds[..n]);
      DivModOf(base, q, ds[n]);
      if q > 0 { MulAtLeast(base, q, 2, 1); } else { assert n == 0; }
      assert ds == ds[..n] + [ds[n]];
    }
  }

  lemma {:induction false} ZerosAddNothing(base: nat, n: nat, ds: seq<nat>)
    ensures ValueOf(base, Repeat<nat>(0, n) + ds) == ValueOf(base, ds)
    decreases n + |ds|
  {
    var all := Repeat<nat>(0, n) + ds;
    if ds != [] {
      ZerosAddNothing(base, n, ds[..|ds| - 1]);
      assert all[..|all| - 1] == Repeat<nat>(0, n) + ds[..|ds| - 1];
    } else if n > 0 {
      ZerosAddNothing(base, n - 1, []);
      assert all == (Repeat<nat>(0, n - 1) + []) + [0];
      ValueSnoc(base, Repeat<nat>(0, n - 1) + [], 0);
      assert ValueOf(base, all) == base * ValueOf(base, []) + 0;
    }
  }

  lemma {:induction false} LeadingZerosAre(ds: seq<nat>, n: nat)
    requires n <= |ds| && forall i | 0 <= i < n :: ds[i] == 0
    requires n < |ds| ==> ds[n] != 0
    ensures LeadingZeros(ds) == n
  {
    if n > 0 { LeadingZerosAre(ds[1..], n - 1); }
  }

  lemma SplitZeros(base: nat, ds: seq<nat>)
    requires Numeral(base, ds)
    ensures var z := LeadingZeros(ds);
            && ds == Repeat<nat>(0, z) + ds[z..]
            && ValueOf(base, ds) == ValueOf(base, ds[z..])
            && DigitsOf(base, ValueOf(base, ds)) == ds[z..]
  {
    var z := LeadingZeros(ds);
    assert ds == Repeat<nat>(0, z) + ds[z..];
    ZerosAddNothing(base, z, ds[z..]);
    Minimal(base, ds[z..]);
  }

  /** Moving to another base and back loses nothing, whatever the leading zeros. */
  lemma RebaseRoundTrip(from: nat, to: nat, ds: seq<nat>)
    requires Numeral(from, ds) && to >= 2
    ensures Numeral(to, Rebase(from, to, ds))
    ensures Rebase(to, from, Rebase(from, to, ds)) == ds
  {
    var z, v := LeadingZeros(ds), ValueOf(from, ds);
    SplitZeros(from, ds);
    DigitsRoundTrip(to, v);
    ZerosAddNothing(to, z, DigitsOf(to, v));
    LeadingZerosAre(Rebase(from, to, ds), z);
  }

  /** The number is the same in both bases. */
  lemma RebaseKeepsValue(from: nat, to: nat, ds: seq<nat>)
    requires to >= 2
    ensures ValueOf(to, Rebase(from, to, ds)) == ValueOf(from, ds)
  {
    ZerosAddNothing(to, LeadingZeros(ds), DigitsOf(to, ValueOf(from, ds)));
    DigitsRoundTrip(to, ValueOf(from, ds));
  }

  /** Big-endian: the first digit weighs most. */
  lemma {:induction false} FirstDigitWeighsMost(base: nat, d: nat, ds: seq<nat>)
    ensures ValueOf(base, [d] + ds) == d * Pow(base, |ds|) + ValueOf(base, ds)
  {
    if ds == [] {
      assert [d] + ds == [] + [d];
      ValueSnoc(base, [], d);
    } else {
      var n := |ds| - 1;
      FirstDigitWeighsMost(base, d, ds[..n]);
      assert [d] + ds == ([d] + ds[..n]) + [ds[n]];
      ValueSnoc(base, [d] + ds[..n], ds[n]);
      assert ds == ds[..n] + [ds[n]];
      ValueSnoc(base, ds[..n], ds[n]);
      Distribute(base, d, Pow(base, n), ValueOf(base, ds[..n]));
    }
  }

  lemma Distribute(b: int, d: int, p: int, v: int)
    ensures b * (d * p + v) == d * (b * p) + b * v
  {
    assert b * (d * p) == d * (b * p);
  }

  // ---- lengths -------------------------------------------------------------------

  function Pow(base: nat, e: nat): nat {
    if e == 0 then 1 else base * Pow(base, e - 1)
  }

  lemma {:induction false} PowPlus(base: nat, a: nat, b: nat)
    ensures Pow(base, a + b) == Pow(base, a) * Pow(base, b)
  {
    if a > 0 {
      PowPlus(base, a - 1, b);
      MulAssociative(base, Pow(base, a - 1), Pow(base, b));
    }
  }

  lemma MulAssociative(x: int, y: int, z: int)
    ensures x * (y * z) == (x * y) * z
  {
  }

  lemma {:induction false} ValueBound(base: nat, ds: seq<nat>)
    requires Numeral(base, ds)
    ensures ValueOf(base, ds) < Pow(base, |ds|)
  {
    if ds != [] {
      ValueBound(base, ds[..|ds| - 1]);
      MulAtLeast(base, Pow(base, |ds| - 1), base, ValueOf(base, ds[..|ds| - 1]) + 1);
    }
  }

  lemma {:induction false} DigitCount(base: nat, n: nat, d: nat)
    requires base >= 2 && n < Pow(base, d)
    ensures |DigitsOf(base, n)| <= d
  {
    if n > 0 {
      DivSmaller(n, base);
      assert d > 0 && n == base * (n / base) + n % base;
      if n / base >= Pow(base, d - 1) {
        MulAtLeast(base, n / base, base, Pow(base, d - 1));
      }
      DigitCount(base, n / base, d - 1);
    }
  }
}
