/** Positional numerals: the digits of a number, and reading them back. */
module Numerals {

  /** The two bases that the printers use. */
  datatype Base = Dec | Hex {
    function Size(): (n: nat)
      ensures n <= 16
    {
      if Dec? then 10 else 16
    }
    function Quot(v: nat): nat {
      if Dec? then v / 10 else v / 16
    }
    function Rem(v: nat): (d: nat)
      ensures d < Size()
    {
      if Dec? then v % 10 else v % 16
    }
    function Scale(v: nat): nat {
      if Dec? then 10 * v else 16 * v
    }
    function Pow(k: nat): (p: nat)
      ensures p >= 1
    {
      if k == 0 then 1 else Scale(Pow(k - 1))
    }
  }

  /** The digits of v, most significant first; none for zero. */
  function Digits(v: nat, base: Base): (ds: seq<nat>)
    ensures ds == [] <==> v == 0
    ensures forall i | 0 <= i < |ds| :: ds[i] < base.Size()
  {
    if v == 0 then [] else Digits(base.Quot(v), base) + [base.Rem(v)]
  }

  function Eval(ds: seq<nat>, base: Base): nat {
    if ds == [] then 0 else base.Scale(Eval(ds[..|ds| - 1], base)) + ds[|ds| - 1]
  }

  lemma {:induction false} EvalDigits(v: nat, base: Base)
    ensures Eval(Digits(v, base), base) == v
  {
    if v > 0 {
      EvalDigits(base.Quot(v), base);
      var ds := Digits(v, base);
      assert ds[..|ds| - 1] == Digits(base.Quot(v), base);
    }
  }

  lemma DigitsOfNothing(v: nat, base: Base)
    ensures Digits(v, base) == [] <==> v == 0
  {
  }

  lemma DigitsStep(q: nat, d: nat, base: Base)
    requires d < base.Size() && (q > 0 || d > 0)
    ensures Digits(base.Scale(q) + d, base) == Digits(q, base) + [d]
  {
    assert base.Quot(base.Scale(q) + d) == q && base.Rem(base.Scale(q) + d) == d;
  }

  lemma EvalStep(ds: seq<nat>, base: Base)
    requires ds != []
    ensures Eval(ds, base) == base.Scale(Eval(ds[..|ds| - 1], base)) + ds[|ds| - 1]
  {
    hide Base.Scale;
  }

  /** Digits of the base, the first of them, if any, not zero. */
  ghost predicate IsNumeral(ds: seq<nat>, base: Base) {
    (forall i | 0 <= i < |ds| :: ds[i] < base.Size()) && (ds != [] ==> ds[0] != 0)
  }

  lemma NumeralPrefix(ds: seq<nat>, base: Base)
    requires IsNumeral(ds, base) && ds != []
    ensures IsNumeral(ds[..|ds| - 1], base) && ds[|ds| - 1] < base.Size()
    ensures ds == ds[..|ds| - 1] + [ds[|ds| - 1]]
    ensures ds[..|ds| - 1] == [] ==> ds[|ds| - 1] != 0
  {
  }

  /** A numeral without a leading zero is the digits of its value: no other one denotes it. */
  lemma {:induction false} DigitsAreCanonical(ds: seq<nat>, base: Base)
    requires IsNumeral(ds, base)
    ensures Digits(Eval(ds, base), base) == ds
  {
    if ds != [] {
      NumeralPrefix(ds, base);
      EvalStep(ds, base);
      hide IsNumeral, Digits, Eval, Base.Scale, Base.Size;
      var rest, d := ds[..|ds| - 1], ds[|ds| - 1];
      DigitsAreCanonical(rest, base);
      DigitsOfNothing(Eval(rest, base), base);
      DigitsStep(Eval(rest, base), d, base);
    }
  }

  lemma {:induction false} NoLeadingZero(v: nat, base: Base)
    requires 0 < v
    ensures Digits(v, base)[0] != 0
  {
    if base.Quot(v) > 0 {
      NoLeadingZero(base.Quot(v), base);
    }
  }

  /** k digits are enough exactly for the numbers below base^k. */
  lemma {:induction false} DigitCount(v: nat, base: Base, k: nat)
    ensures |Digits(v, base)| <= k <==> v < base.Pow(k)
  {
    if v > 0 && k > 0 {
      DigitCount(base.Quot(v), base, k - 1);
    }
  }
}
