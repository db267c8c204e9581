/** GPS degree/minute/second values: evaluation of one rational component and
    the combination of components into decimal degrees, with exact rationals.

    The source evaluates each component with Python's `eval`; the model accepts
    only the two shapes EXIF rationals take, `n` and `n/d`, with `n` and `d`
    Python decimal integer literals. Every other text is a SyntaxError here,
    even where Python's `eval` would compute something.
 */
module Sexagesimal {
  import opened Wrappers
  import opened Text

  /** A Python decimal integer literal without underscores: `0`, `000`, or
      digits not starting with `0` (`08` is a SyntaxError in Python). The
      compiler converts it like `int()`, so more than `MaxIntDigits` digits
      are a SyntaxError too. */
  predicate IsIntLiteral(t: string) {
    && t != [] && AllDigits(t) && |t| <= MaxIntDigits
    && (t[0] == '0' ==> forall i :: 0 <= i < |t| ==> t[i] == '0')
  }

  /** Index of the first `/` in `t`, or `|t|` when there is none. */
  function SlashIndex(t: string): (k: nat)
    ensures k <= |t|
    ensures forall i :: 0 <= i < k ==> t[i] != '/'
    ensures k < |t| ==> t[k] == '/'
  {
    if t == [] then 0 else if t[0] == '/' then 0 else 1 + SlashIndex(t[1..])
  }

  /** `eval(token)` narrowed to `n` and `n/d`. */
  function EvalComponent(token: string): (r: Result<real>)
    ensures r.Ok? ==> r.value >= 0.0
    ensures r.Err? ==> r.error == SyntaxError || r.error == ZeroDivisionError
    ensures r.Ok? ==> SlashIndex(token) <= MaxIntDigits
    ensures r.Ok? && SlashIndex(token) < |token| ==> |token| - SlashIndex(token) - 1 <= MaxIntDigits
  {
    var k := SlashIndex(token);
    if k == |token| then
      if IsIntLiteral(token) then Ok(DecimalValue(token) as real) else Err(SyntaxError)
    else
      var n := token[..k];
      var d := token[k + 1..];
      if !IsIntLiteral(n) || !IsIntLiteral(d) then Err(SyntaxError)
      else if DecimalValue(d) == 0 then Err(ZeroDivisionError)
      else
        QuotientNonNegative(DecimalValue(n), DecimalValue(d));
        Ok(DecimalValue(n) as real / DecimalValue(d) as real)
  }

  /** A quotient of natural numbers is never negative. */
  lemma {:induction false} QuotientNonNegative(a: nat, b: nat)
    requires b > 0
    ensures a as real / b as real >= 0.0
  {
    var q := a as real / b as real;
    assert q * b as real == a as real;
  }

  /** The text of the rational `n/d` as EXIF writes it (`"37/1"`). */
  function RationalText(n: nat, d: nat): string
  {
    DecimalText(n) + "/" + DecimalText(d)
  }

  /** `n` written in decimal is a literal Python accepts. */
  predicate FitsLiteral(n: nat) {
    |DecimalText(n)| <= MaxIntDigits
  }

  lemma {:induction false} DecimalTextIsLiteral(n: nat)
    ensures IsIntLiteral(DecimalText(n)) <==> FitsLiteral(n)
  {
  }

  /** The evaluator gives back the value of the rational it is shown, unless
      one of its two numerals is too long to compile. */
  lemma {:induction false} EvalRationalText(n: nat, d: nat)
    requires d > 0
    ensures EvalComponent(RationalText(n, d)) ==
      if FitsLiteral(n) && FitsLiteral(d) then Ok(n as real / d as real) else Err(SyntaxError)
  {
    var t := RationalText(n, d);
    var a := DecimalText(n);
    DecimalTextIsLiteral(n);
    DecimalTextIsLiteral(d);
    assert t[|a|] == '/';
    assert SlashIndex(t) == |a|;
    assert t[..|a|] == a;
    assert t[|a| + 1..] == DecimalText(d);
  }

  /** `[eval(v) for v in tokens]`: the values in order, or the first failure. */
  function EvalAll(tokens: seq<string>): (r: Result<seq<real>>)
    ensures r.Ok? ==> |r.value| == |tokens|
    ensures r.Ok? ==> forall i :: 0 <= i < |tokens| ==> EvalComponent(tokens[i]) == Ok(r.value[i])
    ensures r.Err? <==> exists i :: 0 <= i < |tokens| && EvalComponent(tokens[i]).Err?
    ensures r.Err? ==> r.error == SyntaxError || r.error == ZeroDivisionError
  {
    if tokens == [] then Ok([])
    else
      var v :- EvalComponent(tokens[0]);
      var vs :- EvalAll(tokens[1..]);
      assert forall i :: 1 <= i < |tokens| ==> tokens[i] == tokens[1..][i - 1];
      Ok([v] + vs)
  }

  // ---------------------------------------------------------------------------
  // Combining components

  /** `60**i` as a rational. */
  function Pow60(i: nat): (r: real)
    ensures r >= 1.0
  {
    if i == 0 then 1.0 else 60.0 * Pow60(i - 1)
  }

  /** `sum(v / 60**i for i, v in enumerate(vs))`, added left to right. */
  function WeightedSum(vs: seq<real>): real
  {
    if vs == [] then 0.0 else WeightedSum(vs[..|vs| - 1]) + vs[|vs| - 1] / Pow60(|vs| - 1)
  }

  /** The same value read positionally: degrees plus the rest in sixtieths. */
  function Sexagesimal(vs: seq<real>): real
  {
    if vs == [] then 0.0 else vs[0] + Sexagesimal(vs[1..]) / 60.0
  }

  lemma {:induction false} SexagesimalAppend(vs: seq<real>, x: real)
    ensures Sexagesimal(vs + [x]) == Sexagesimal(vs) + x / Pow60(|vs|)
    decreases |vs|
  {
    if vs == [] {
      assert Sexagesimal([x]) == x + Sexagesimal([]) / 60.0;
    } else {
      assert (vs + [x])[1..] == vs[1..] + [x];
      SexagesimalAppend(vs[1..], x);
      var p := Pow60(|vs| - 1);
      assert x / p / 60.0 == x / (60.0 * p);
    }
  }

  /** The enumerated sum of the source is the positional sexagesimal value. */
  lemma {:induction false} WeightedSumIsSexagesimal(vs: seq<real>)
    ensures WeightedSum(vs) == Sexagesimal(vs)
    decreases |vs|
  {
    if vs != [] {
      var init := vs[..|vs| - 1];
      WeightedSumIsSexagesimal(init);
      SexagesimalAppend(init, vs[|vs| - 1]);
      assert init + [vs[|vs| - 1]] == vs;
    }
  }

  /** Three components are degrees, minutes and seconds. */
  lemma {:induction false} ThreeComponents(d: real, m: real, s: real)
    ensures WeightedSum([d, m, s]) == d + m / 60.0 + s / 3600.0
  {
    WeightedSumIsSexagesimal([d, m, s]);
    assert [d, m, s][1..] == [m, s];
    assert [m, s][1..] == [s];
    assert Sexagesimal([s]) == s + Sexagesimal([]) / 60.0;
    assert Sexagesimal([m, s]) == m + s / 60.0;
    assert Sexagesimal([d, m, s]) == d + (m + s / 60.0) / 60.0;
  }

  /** Components after the first that stay in 0..59 (the last one below 60)
      keep the value below 60. */
  lemma {:induction false} SexagesimalBelowSixty(vs: seq<real>)
    requires vs != []
    requires forall i :: 0 <= i < |vs| ==> 0.0 <= vs[i]
    requires forall i :: 0 <= i < |vs| - 1 ==> vs[i] <= 59.0
    requires vs[|vs| - 1] < 60.0
    ensures 0.0 <= Sexagesimal(vs) < 60.0
    decreases |vs|
  {
    if |vs| > 1 {
      SexagesimalBelowSixty(vs[1..]);
    } else {
      assert Sexagesimal(vs) == vs[0] + Sexagesimal([]) / 60.0;
    }
  }

  /** Minutes and seconds never carry into the next degree: a reading whose
      later components are proper minutes and seconds lies within
      `[degrees, degrees + 1)`. */
  lemma {:induction false} MinutesNeverCarry(vs: seq<real>)
    requires |vs| >= 2
    requires forall i :: 1 <= i < |vs| ==> 0.0 <= vs[i]
    requires forall i :: 1 <= i < |vs| - 1 ==> vs[i] <= 59.0
    requires vs[|vs| - 1] < 60.0
    ensures vs[0] <= WeightedSum(vs) < vs[0] + 1.0
  {
    WeightedSumIsSexagesimal(vs);
    SexagesimalBelowSixty(vs[1..]);
  }

  /** Non-negative components give a non-negative sum. */
  lemma {:induction false} WeightedSumNonNegative(vs: seq<real>)
    requires forall i :: 0 <= i < |vs| ==> vs[i] >= 0.0
    ensures WeightedSum(vs) >= 0.0
    decreases |vs|
  {
    if vs != [] {
      var init := vs[..|vs| - 1];
      assert forall i :: 0 <= i < |init| ==> init[i] >= 0.0 by {
        assert forall i :: 0 <= i < |init| ==> init[i] == vs[i];
      }
      WeightedSumNonNegative(init);
      assert vs[|vs| - 1] / Pow60(|vs| - 1) >= 0.0;
    }
  }

  // ---------------------------------------------------------------------------
  // round(x, 6)

  /** The multiple of 10^-6 with index `k`. */
  function Micro(k: int): real { k as real / 1000000.0 }

  function Abs(x: real): real { if x < 0.0 then -x else x }

  /** `round(x, 6)`: a multiple of 10^-6, a tie going up here. */
  function Round6(x: real): real
  {
    Micro((x * 1000000.0 + 0.5).Floor)
  }

  /** `round(x, 6)` is a nearest multiple of 10^-6, within half a step of
      `x` (which nearest one a tie picks is left open). */
  lemma {:induction false} Round6Nearest(x: real)
    ensures Micro((Round6(x) * 1000000.0).Floor) == Round6(x)
    ensures Abs(Round6(x) - x) <= 0.0000005
    ensures forall k: int :: Abs(x - Round6(x)) <= Abs(x - Micro(k))
  {
    NearestMicro(x, (x * 1000000.0 + 0.5).Floor);
  }

  /** The grid point reached by rounding `x * 10^6` half up is a nearest one. */
  lemma {:induction false} NearestMicro(x: real, k: int)
    requires k as real <= x * 1000000.0 + 0.5 < k as real + 1.0
    ensures Micro((Micro(k) * 1000000.0).Floor) == Micro(k)
    ensures Abs(Micro(k) - x) <= 0.0000005
    ensures forall j: int :: Abs(x - Micro(k)) <= Abs(x - Micro(j))
  {
    var X := x * 1000000.0;
    assert Micro(k) * 1000000.0 == k as real;
    assert x - Micro(k) == (X - k as real) / 1000000.0;
    forall j: int
      ensures Abs(x - Micro(k)) <= Abs(x - Micro(j))
    {
      assert x - Micro(j) == (X - j as real) / 1000000.0;
      if j < k {
        assert j as real <= k as real - 1.0;
      } else if j > k {
        assert j as real >= k as real + 1.0;
      }
    }
  }

  /** Rounding keeps a non-negative value non-negative. */
  lemma {:induction false} Round6NonNegative(x: real)
    requires x >= 0.0
    ensures Round6(x) >= 0.0
  {
    var k := (x * 1000000.0 + 0.5).Floor;
    assert k >= 0;
  }

  /** Rounding twice is rounding once. */
  lemma {:induction false} Round6Idempotent(x: real)
    ensures Round6(Round6(x)) == Round6(x)
  {
    var r := Round6(x);
    var k := (r * 1000000.0).Floor;
    assert r * 1000000.0 == k as real;
    assert (r * 1000000.0 + 0.5).Floor == k;
  }

  // ---------------------------------------------------------------------------
  // EXIF rationals

  /** The EXIF texts of the rationals `ns[i] / ds[i]`. */
  function RationalTexts(ns: seq<nat>, ds: seq<nat>): (r: seq<string>)
    requires |ns| == |ds|
    ensures |r| == |ns|
    ensures forall i :: 0 <= i < |r| ==> r[i] == RationalText(ns[i], ds[i])
  {
    seq(|ns|, i requires 0 <= i < |ns| => RationalText(ns[i], ds[i]))
  }

  /** The values of the rationals `ns[i] / ds[i]`. */
  function Quotients(ns: seq<nat>, ds: seq<nat>): (r: seq<real>)
    requires |ns| == |ds|
    requires forall i :: 0 <= i < |ds| ==> ds[i] > 0
    ensures |r| == |ns|
    ensures forall i :: 0 <= i < |r| ==> r[i] == ns[i] as real / ds[i] as real
  {
    seq(|ns|, i requires 0 <= i < |ns| => ns[i] as real / ds[i] as real)
  }

  lemma {:induction false} RationalTextIsToken(n: nat, d: nat)
    ensures RationalText(n, d) != [] && NoSpace(RationalText(n, d))
  {
    var a := DecimalText(n);
    var b := DecimalText(d);
    var t := RationalText(n, d);
    forall i | 0 <= i < |t|
      ensures !IsSpace(t[i])
    {
      if i < |a| {
        assert t[i] == a[i];
      } else if i > |a| {
        assert t[i] == b[i - |a| - 1];
      }
    }
  }

  /** Every numeral of the rationals `ns[i] / ds[i]` compiles. */
  predicate AllFit(ns: seq<nat>, ds: seq<nat>)
    requires |ns| == |ds|
  {
    forall i :: 0 <= i < |ns| ==> FitsLiteral(ns[i]) && FitsLiteral(ds[i])
  }

  /** Evaluating the EXIF texts of rationals gives their quotients, or a
      SyntaxError when some numeral is too long. */
  lemma {:induction false} EvalRationalTexts(ns: seq<nat>, ds: seq<nat>)
    requires |ns| == |ds|
    requires forall i :: 0 <= i < |ds| ==> ds[i] > 0
    ensures EvalAll(RationalTexts(ns, ds)) ==
      if AllFit(ns, ds) then Ok(Quotients(ns, ds)) else Err(SyntaxError)
    decreases |ns|
  {
    if ns != [] {
      var ts := RationalTexts(ns, ds);
      assert ts[1..] == RationalTexts(ns[1..], ds[1..]);
      var fits := FitsLiteral(ns[0]) && FitsLiteral(ds[0]);
      assert EvalComponent(ts[0]) == if fits then Ok(ns[0] as real / ds[0] as real) else Err(SyntaxError) by {
        EvalRationalText(ns[0], ds[0]);
      }
      assert EvalAll(ts[1..]) ==
        if AllFit(ns[1..], ds[1..]) then Ok(Quotients(ns[1..], ds[1..])) else Err(SyntaxError) by {
        EvalRationalTexts(ns[1..], ds[1..]);
      }
      assert AllFit(ns, ds) <==> fits && AllFit(ns[1..], ds[1..]) by {
        AllFitCons(ns, ds);
      }
      QuotientsCons(ns, ds);
    }
  }

  /** Numbers below a thousand are written with at most three digits. */
  lemma {:induction false} SmallFits(n: nat)
    requires n < 1000
    ensures FitsLiteral(n)
  {
    DecimalTextLength(n, 3);
  }

  /** Whole numbers over 1 compile exactly when the numerators do. */
  lemma {:induction false} AllFitWholes(a: nat, b: nat, c: nat)
    ensures AllFit([a, b, c], [1, 1, 1]) <==> FitsLiteral(a) && FitsLiteral(b) && FitsLiteral(c)
  {
    assert FitsLiteral(1);
    var ns := [a, b, c];
    assert ns[0] == a && ns[1] == b && ns[2] == c;
  }

  lemma {:induction false} QuotientsCons(ns: seq<nat>, ds: seq<nat>)
    requires |ns| == |ds| > 0
    requires forall i :: 0 <= i < |ds| ==> ds[i] > 0
    ensures Quotients(ns, ds) == [ns[0] as real / ds[0] as real] + Quotients(ns[1..], ds[1..])
  {
    var qs := Quotients(ns, ds);
    assert qs == [qs[0]] + Quotients(ns[1..], ds[1..]);
  }

  lemma {:induction false} AllFitCons(ns: seq<nat>, ds: seq<nat>)
    requires |ns| == |ds| > 0
    ensures AllFit(ns, ds) <==> FitsLiteral(ns[0]) && FitsLiteral(ds[0]) && AllFit(ns[1..], ds[1..])
  {
    if FitsLiteral(ns[0]) && FitsLiteral(ds[0]) && AllFit(ns[1..], ds[1..]) {
      forall i | 0 <= i < |ns|
        ensures FitsLiteral(ns[i]) && FitsLiteral(ds[i])
      {
        if i > 0 {
          assert ns[i] == ns[1..][i - 1] && ds[i] == ds[1..][i - 1];
        }
      }
    }
  }

  /** A whole number over 1 is itself. */
  lemma {:induction false} OverOne(n: nat)
    ensures n as real / 1 as real == n as real
  {
  }

  /** Three rationals are degrees, minutes and seconds. */
  lemma {:induction false} WeightedSumOfThree(n0: nat, n1: nat, n2: nat, d0: nat, d1: nat, d2: nat)
    requires d0 > 0 && d1 > 0 && d2 > 0
    ensures WeightedSum(Quotients([n0, n1, n2], [d0, d1, d2])) ==
      n0 as real / d0 as real + (n1 as real / d1 as real) / 60.0 + (n2 as real / d2 as real) / 3600.0
    ensures Quotients([n0, n1, n2], [d0, d1, d2])[..3] == Quotients([n0, n1, n2], [d0, d1, d2])
  {
    var q := Quotients([n0, n1, n2], [d0, d1, d2]);
    assert q == [q[0], q[1], q[2]];
    ThreeComponents(q[0], q[1], q[2]);
  }

}
