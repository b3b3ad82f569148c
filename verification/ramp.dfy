/** `Ramp`: how steeply target weights grow with position on the ladder.
    The same enum appears twice in the source, once in `core.rs` and again,
    with text conversion added, in `core/mod.rs`; both generations agree on
    the base and on the weight at each position, so one datatype models both.
 */
module Ramps {
  import opened Text

  datatype Ramp = Golden | Flat

  /** The base of the golden ramp as written in the source (an approximation
      of the golden ratio). */
  const GoldenBase: real := 1.618

  /** `b` raised to the natural power `n`, exactly. */
  function Pow(b: real, n: nat): real
  {
    if n == 0 then 1.0 else b * Pow(b, n - 1)
  }

  lemma {:induction false} PowPositive(b: real, n: nat)
    requires b > 0.0
    ensures Pow(b, n) > 0.0
  {
    if n > 0 {
      PowPositive(b, n - 1);
    }
  }

  /** For a base above one the powers strictly increase. */
  lemma {:induction false} PowStrictlyIncreasing(b: real, i: nat, j: nat)
    requires b > 1.0 && i < j
    ensures Pow(b, i) < Pow(b, j)
  {
    var k: nat := j - 1;
    PowPositive(b, k);
    assert Pow(b, j) == b * Pow(b, k);
    assert Pow(b, k) < Pow(b, j) by {
      assert b * Pow(b, k) - Pow(b, k) == (b - 1.0) * Pow(b, k);
      MulPositive(b - 1.0, Pow(b, k));
    }
    if i < k {
      PowStrictlyIncreasing(b, i, k);
    }
  }

  lemma MulPositive(x: real, y: real)
    requires x > 0.0 && y > 0.0
    ensures x * y > 0.0
  {
  }

  /** `Ramp::from_str`: lower-case, trim, then "golden" or "flat"; anything
      else falls back to the golden ramp. */
  function FromStr(s: string): (r: Ramp)
    ensures r == Flat <==> Trim(Lower(s)) == "flat"
  {
    match Trim(Lower(s))
    case "golden" => Golden
    case "flat" => Flat
    case _ => Golden
  }

  /** `Ramp::as_str`, the text stored in a pot's ramp file. */
  function AsStr(r: Ramp): string
  {
    match r
    case Golden => "golden"
    case Flat => "flat"
  }

  /** The stored text is already in the lower-case, trimmed form `from_str`
      compares. */
  lemma AsStrCanonical(r: Ramp)
    ensures Trim(Lower(AsStr(r))) == AsStr(r)
  {
    LowerOfLowerCase(AsStr(r));
    TrimFixedPoint(AsStr(r));
  }

  /** `Ramp::as_f64`: the base of the ramp. */
  function AsF64(r: Ramp): (b: real)
    ensures b >= 1.0
    ensures b == 1.0 <==> r == Flat
    ensures r == Golden ==> b == 1.618
  {
    match r
    case Golden => GoldenBase
    case Flat => 1.0
  }

  /** `Ramp::pow_weight`: the weight of ladder position `pos`. */
  function PowWeight(r: Ramp, pos: nat): (w: real)
    ensures w >= 1.0
  {
    PowWeightAtLeastOne(r, pos);
    Pow(AsF64(r), pos)
  }

  lemma {:induction false} PowWeightAtLeastOne(r: Ramp, pos: nat)
    ensures Pow(AsF64(r), pos) >= 1.0
  {
    if pos > 0 {
      PowWeightAtLeastOne(r, pos - 1);
    }
  }

  /** Writing a ramp and reading the text back gives the same ramp. */
  lemma FromStrRoundTrip(r: Ramp)
    ensures FromStr(AsStr(r)) == r
  {
    AsStrCanonical(r);
  }

  /** Every text other than "flat" (after lower-casing and trimming),
      recognised as "golden" or not, gives the golden ramp. */
  lemma FromStrUnrecognised(s: string)
    requires Trim(Lower(s)) != "flat"
    ensures FromStr(s) == Golden
  {
  }

  /** An example of unrecognised text: "steep" falls back to the golden ramp. */
  lemma FromStrSteep()
    ensures FromStr("steep") == Golden
  {
    LowerOfLowerCase("steep");
    TrimFixedPoint("steep");
  }

  /** Position 0 weighs one and each step up multiplies by the base. */
  lemma PowWeightStep(r: Ramp, i: nat)
    ensures PowWeight(r, 0) == 1.0
    ensures PowWeight(r, i + 1) == AsF64(r) * PowWeight(r, i)
  {
  }

  /** The flat ramp weighs every position alike. */
  lemma {:induction false} FlatWeightIsOne(i: nat)
    ensures PowWeight(Flat, i) == 1.0
  {
    if i > 0 {
      FlatWeightIsOne(i - 1);
    }
  }

  /** The golden ramp weighs a later position strictly more. */
  lemma GoldenWeightIncreasing(i: nat, j: nat)
    requires i < j
    ensures PowWeight(Golden, i) < PowWeight(Golden, j)
  {
    PowStrictlyIncreasing(GoldenBase, i, j);
  }
}
