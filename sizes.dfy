/** `format_bytes`: divide a byte count by 1024 while it exceeds 1024 and pick
    the unit label for the number of divisions. The `:.2f` text is not
    modelled; the scaled value and the unit are. */
module Sizes {

  const Power: real := 1024.0

  /** `power_labels`; only four units exist. */
  const Labels: map<nat, string> := map[0 := "", 1 := "KB", 2 := "MB", 3 := "GB"]

  /** The scaled size and its label, or the `KeyError` the label lookup raises. */
  datatype Scaled =
    | Formatted(value: real, units: nat, unitLabel: string)
    | KeyError(key: nat)

  function Pow(k: nat): (p: real)
    ensures p >= 1.0
  {
    if k == 0 then 1.0 else Power * Pow(k - 1)
  }

  /** How many times `while size > power: size /= power` runs. */
  function Divisions(x: real): nat
    decreases if x > 0.0 then x.Floor else 0
  {
    if x > Power then 1 + Divisions(x / Power) else 0
  }

  /** `x` divided by 1024, `k` times over. */
  function Scale(x: real, k: nat): real {
    if k == 0 then x else Scale(x, k - 1) / Power
  }

  /** `format_bytes(size)` as a value: the scaled size and label, or `KeyError`. */
  function FormatBytesSpec(size: nat): Scaled {
    var n := Divisions(size as real);
    if n in Labels then Formatted(Scale(size as real, n), n, Labels[n]) else KeyError(n)
  }

  /** Dividing `k` times by 1024 is dividing once by 1024^k. */
  lemma {:induction false} ScaleIsQuotient(x: real, k: nat)
    ensures Scale(x, k) == x / Pow(k)
  {
    if k > 0 {
      ScaleIsQuotient(x, k - 1);
      DivideLast(x, Pow(k - 1));
    }
  }

  lemma DivideLast(x: real, p: real)
    requires p >= 1.0
    ensures x / p / Power == x / (Power * p)
  {
  }

  /** The loop stops at the fewest divisions that bring the size to at most 1024:
      exactly 1024 is not divided at all. */
  lemma {:induction false} DivisionsLeast(x: real)
    requires x >= 0.0
    ensures x / Pow(Divisions(x)) <= Power
    ensures forall k :: 0 <= k < Divisions(x) ==> x / Pow(k) > Power
  {
    if x > Power {
      var y := x / Power;
      DivisionsLeast(y);
      forall k | 0 <= k < Divisions(x)
        ensures x / Pow(k) > Power
      {
        if k > 0 {
          DivideTwice(x, k - 1);
        }
      }
      DivideTwice(x, Divisions(y));
    }
  }

  /** `x / 1024 / 1024^k == x / 1024^(k+1)`. */
  lemma DivideTwice(x: real, k: nat)
    ensures x / Power / Pow(k) == x / Pow(k + 1)
  {
  }

  /** `format_bytes` raises `KeyError` exactly for sizes above 1024^4 (1 TiB);
      otherwise the unit is KB, MB or GB, or empty for at most 1024 bytes. */
  lemma FormatBytesKeyError(size: nat)
    ensures FormatBytesSpec(size).KeyError? <==> size as real > Pow(4)
    ensures FormatBytesSpec(size).Formatted? ==>
      FormatBytesSpec(size).value <= Power && FormatBytesSpec(size).units <= 3
  {
    var x := size as real;
    var n := Divisions(x);
    DivisionsLeast(x);
    ScaleIsQuotient(x, n);
    assert n in Labels <==> n <= 3;
    DivisionsAboveThree(x, n);
  }

  /** More than three divisions happen exactly for values above 1024^4. */
  lemma DivisionsAboveThree(x: real, n: nat)
    requires x / Pow(n) <= Power
    requires forall k :: 0 <= k < n ==> x / Pow(k) > Power
    ensures n > 3 <==> x > Pow(4)
  {
    if n <= 3 {
      AtMost(x, n);
    } else {
      assert x / Pow(3) > Power;
      Beyond(x);
    }
  }

  lemma AtMost(x: real, n: nat)
    requires n <= 3 && x / Pow(n) <= Power
    ensures x <= Pow(4)
  {
    var p := Pow(n);
    ScaleBelow(x, p, Power);
    assert x <= Power * p;
    assert Power * p == Pow(n + 1);
    PowGrows(n + 1, 4);
  }

  lemma Beyond(x: real)
    requires x / Pow(3) > Power
    ensures x > Pow(4)
  {
    var p := Pow(3);
    ScaleBelow(x, p, Power);
    assert Pow(4) == Power * p;
  }

  /** `x / p <= c` exactly when `x <= c * p`, for positive `p`. */
  lemma ScaleBelow(x: real, p: real, c: real)
    requires p > 0.0
    ensures x / p <= c <==> x <= c * p
  {
    assert x == (x / p) * p;
  }

  lemma {:induction false} PowGrows(i: nat, j: nat)
    requires i <= j
    ensures Pow(i) <= Pow(j)
  {
    if i < j {
      PowGrows(i, j - 1);
    }
  }

  /** The loop of `format_bytes` on an exact number; division by 1024 is exact
      in binary floating point, so the real-valued loop is the float loop for
      sizes below 2^53. */
  method FormatBytes(size: nat) returns (r: Scaled)
    ensures r == FormatBytesSpec(size)
  {
    var s: real := size as real;
    var n: nat := 0;
    while s > Power
      invariant s >= 0.0
      invariant s == Scale(size as real, n)
      invariant n + Divisions(s) == Divisions(size as real)
      decreases s.Floor
    {
      s := s / Power;
      n := n + 1;
    }
    if n in Labels {
      r := Formatted(s, n, Labels[n]);
    } else {
      r := KeyError(n);
    }
  }
}
