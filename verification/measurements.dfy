/** The measurement averager of correct_task3.py: which elements are
    accepted as measurements, and the mean of the accepted ones. */
module Measurements {
  import opened PyValues
  import opened Counting

  /** Python's `float()` on a value that is neither an int, a float nor a
      bool (a string, a Decimal, a complex number, any object): it yields a
      float or fails. Its grammar is not modelled, so every operation here
      takes it as a parameter. */
  type Parser = Value -> Option<Double>

  // ---------------------------------------------------------------------
  // float() and the notion of a valid measurement
  // ---------------------------------------------------------------------

  /** 2^n. */
  function Pow2(n: nat): (p: nat)
    ensures p >= 1
  {
    if n == 0 then 1 else 2 * Pow2(n - 1)
  }

  lemma {:induction false} Pow2Add(a: nat, b: nat)
    ensures Pow2(a + b) == Pow2(a) * Pow2(b)
    decreases a
  {
    if a > 0 {
      Pow2Add(a - 1, b);
    }
  }

  /** A double carries 53 significant bits, and 2^1024 is the first power
      of two beyond its range. */
  const SignificandBits: nat := 53
  const MaxExponent: nat := 1024

  /** The largest finite double, (2^53 - 1) * 2^971. */
  const MaxFiniteDouble: int := (Pow2(SignificandBits) - 1) * Pow2(MaxExponent - SignificandBits)

  /** The smallest magnitude of an int that `float()` refuses with
      OverflowError, 2^1024 - 2^970. */
  const FloatOverflowBound: int := Pow2(MaxExponent) - Pow2(MaxExponent - SignificandBits - 1)

  lemma DoubleStep(m: nat, e: nat)
    ensures Pow2(m + 1 + e) == 2 * (Pow2(m) * Pow2(e))
  {
    Pow2Add(m, e);
  }

  lemma TopSignificand(m: nat, e: nat)
    ensures (Pow2(m) - 1) * Pow2(e + 1) == 2 * (Pow2(m) * Pow2(e)) - 2 * Pow2(e)
  {
    var p, q := Pow2(m), Pow2(e);
    assert Pow2(e + 1) == 2 * q;
    assert (p - 1) * (2 * q) == 2 * (p * q) - 2 * q;
  }

  /** For m significant bits and top exponent m + 1 + e, the number
      2^(m+1+e) - 2^e lies strictly between the largest representable value
      (2^m - 1) * 2^(e+1) and 2^(m+1+e), exactly halfway. */
  lemma Midpoint(m: nat, e: nat)
    ensures var top, largest := Pow2(m + 1 + e), (Pow2(m) - 1) * Pow2(e + 1);
      largest < top - Pow2(e) < top && 2 * (top - Pow2(e)) == largest + top
  {
    DoubleStep(m, e);
    TopSignificand(m, e);
  }

  /** The overflow bound is where round-half-even stops rounding down to
      the largest finite double: it is the midpoint between that double and
      2^1024, and the largest double's significand is odd, so the tie at the
      bound rounds up to 2^1024, which overflows. Below the bound, `float()`
      converts; at the bound, it raises. */
  lemma OverflowBoundIsRoundingMidpoint()
    ensures MaxFiniteDouble < FloatOverflowBound < Pow2(MaxExponent)
    ensures 2 * FloatOverflowBound == MaxFiniteDouble + Pow2(MaxExponent)
    ensures (Pow2(SignificandBits) - 1) % 2 == 1
    ensures IntToFloat(MaxFiniteDouble) == Some(Finite(MaxFiniteDouble as real))
    ensures IntToFloat(-MaxFiniteDouble) == Some(Finite(-MaxFiniteDouble as real))
    ensures IntToFloat(FloatOverflowBound) == None && IntToFloat(-FloatOverflowBound) == None
  {
    Midpoint(SignificandBits, MaxExponent - SignificandBits - 1);
    OddBelowPow2(SignificandBits);
    NonNegativeProduct(Pow2(SignificandBits) - 1, Pow2(MaxExponent - SignificandBits));
  }

  lemma OddBelowPow2(m: nat)
    requires m >= 1
    ensures (Pow2(m) - 1) % 2 == 1
  {
    assert Pow2(m) - 1 == 2 * (Pow2(m - 1) - 1) + 1;
  }

  lemma NonNegativeProduct(a: nat, b: nat)
    ensures a * b >= 0
  {
  }

  /** Every int up to 53 in magnitude is within the float range. */
  lemma SmallIntsConvert()
    ensures FloatOverflowBound > SignificandBits
  {
    OverflowBoundIsRoundingMidpoint();
    Pow2Exceeds(SignificandBits);
    ProductAtLeast(Pow2(SignificandBits) - 1, Pow2(MaxExponent - SignificandBits));
  }

  lemma ProductAtLeast(a: nat, b: nat)
    requires b >= 1
    ensures a * b >= a
  {
    assert a * b == a * (b - 1) + a;
    NonNegativeProduct(a, b - 1);
  }

  lemma {:induction false} Pow2Exceeds(n: nat)
    ensures Pow2(n) > n
  {
    if n > 0 {
      Pow2Exceeds(n - 1);
    }
  }

  /** `float(i)` for an int: the number itself, or None where Python raises
      OverflowError. Rounding to 53 bits is not modelled. */
  function IntToFloat(i: int): (d: Option<Double>)
    ensures d.Some? <==> -FloatOverflowBound < i < FloatOverflowBound
    ensures d.Some? ==> d.value == Finite(i as real)
  {
    if -FloatOverflowBound < i < FloatOverflowBound then Some(Finite(i as real)) else None
  }

  /** `float(v)` for every kind: None raises TypeError (None here), a bool
      gives 1.0 or 0.0, an int converts or overflows, a float is itself,
      and everything else goes to the parser. */
  function FloatOf(v: Value, parse: Parser): (r: Option<Double>)
    ensures v.Null? ==> r == None
    ensures v.Bool? || v.Int? ==> r.Some? ==> r.value.Finite?
    ensures v.Int? ==> (r.Some? <==> -FloatOverflowBound < v.i < FloatOverflowBound)
    ensures v.Float? ==> r == Some(v.f)
  {
    match v
    case Null => None
    case Bool(b) => Some(Finite(if b then 1.0 else 0.0))
    case Int(i) => IntToFloat(i)
    case Float(f) => Some(f)
    case Str(_) => parse(v)
    case Other(_) => parse(v)
  }

  /** A valid measurement: a value that is not a bool and that `float()`
      turns into a finite number. */
  predicate IsValidMeasurement(v: Value, parse: Parser) {
    !v.Bool? && FloatOf(v, parse).Some? && FloatOf(v, parse).value.Finite?
  }

  // ---------------------------------------------------------------------
  // The per-element classification, in the source's order
  // ---------------------------------------------------------------------

  /** The guard `math.isinf(x) or math.isnan(x)`: a float that is kept
      yields its value, one that is skipped yields nothing. */
  function KeepFinite(d: Double): (r: Option<real>)
    ensures r.Some? <==> d.Finite?
    ensures r.Some? ==> r.value == d.r
  {
    if IsInf(d) || IsNaN(d) then None else Some(d.r)
  }

  /** What one loop step does with an element, as the source is written. */
  datatype Step = Skip | Add(x: real) | Raise

  /** The loop body as written: None and bools are skipped; an int or a
      float is converted by a `float()` call that no `try` guards, so an
      OverflowError escapes the whole call; anything else is parsed inside
      a `try`, and a failed parse skips the element; a converted value is
      added only when it is finite. */
  function StepAsWritten(v: Value, parse: Parser): (s: Step)
    ensures v.Null? || v.Bool? ==> s == Skip
    ensures s == Raise ==> v.Int?
    ensures s.Add? ==> FloatOf(v, parse) == Some(Finite(s.x))
  {
    if v.Null? then Skip
    else if v.Bool? then Skip
    else if v.Int? || v.Float? then
      match FloatOf(v, parse)
      case None => Raise
      case Some(d) => if IsInf(d) || IsNaN(d) then Skip else Add(d.r)
    else
      match parse(v)
      case None => Skip
      case Some(d) => if IsInf(d) || IsNaN(d) then Skip else Add(d.r)
  }

  /** As written, an element equal to the int 2^1024 - 2^970 makes the
      function raise OverflowError, although it promises to skip invalid
      entries and to handle every input safely. */
  lemma AsWrittenRaisesOnHugeInt(parse: Parser)
    ensures StepAsWritten(Int(FloatOverflowBound), parse) == Raise
  {
  }

  /** The loop body as intended, which the rest of this model uses: the
      same verdicts, except that an int too large for a float is skipped,
      like the infinity it would round to. */
  function Accept(v: Value, parse: Parser): (r: Option<real>)
    ensures v.Null? || v.Bool? ==> r == None
    ensures v.Int? ==> (r.Some? <==> -FloatOverflowBound < v.i < FloatOverflowBound)
                       && (r.Some? ==> r.value == v.i as real)
    ensures v.Float? ==> (r.Some? <==> v.f.Finite?) && (r.Some? ==> r.value == v.f.r)
    ensures v.Str? || v.Other? ==>
              (r.Some? <==> parse(v).Some? && parse(v).value.Finite?)
              && (r.Some? ==> r.value == parse(v).value.r)
  {
    if v.Null? then None
    else if v.Bool? then None
    else if v.Int? || v.Float? then
      match FloatOf(v, parse)
      case None => None
      case Some(d) => KeepFinite(d)
    else
      match parse(v)
      case None => None
      case Some(d) => KeepFinite(d)
  }

  /** As intended, the same element is skipped: a list holding only it
      averages to the default 0.0. */
  lemma HugeIntIsSkipped(parse: Parser)
    ensures Accept(Int(FloatOverflowBound), parse) == None
    ensures Average(Items([Int(FloatOverflowBound)]), parse) == 0.0
  {
    NothingAcceptedGivesZero([Int(FloatOverflowBound)], parse);
  }

  /** The intended step differs from the written one only where the written
      one raises, and that happens only for an int beyond the float range. */
  lemma AcceptMatchesAsWritten(v: Value, parse: Parser)
    ensures StepAsWritten(v, parse) == Raise <==> v.Int? && !(-FloatOverflowBound < v.i < FloatOverflowBound)
    ensures StepAsWritten(v, parse) == Skip ==> Accept(v, parse) == None
    ensures StepAsWritten(v, parse).Add? ==> Accept(v, parse) == Some(StepAsWritten(v, parse).x)
  {
  }

  /** An element is accepted exactly when it is not a bool and float()
      makes it finite (the docstring, correct_task3.py:10-12, 19), and then
      with its float value. */
  lemma AcceptIffValidMeasurement(v: Value, parse: Parser)
    ensures Accept(v, parse).Some? <==> IsValidMeasurement(v, parse)
    ensures Accept(v, parse).Some? ==> Accept(v, parse).value == FloatOf(v, parse).value.r
  {
  }

  /** Bools convert to finite floats, yet they are never accepted. */
  lemma BoolsConvertButAreRejected(b: bool, parse: Parser)
    ensures FloatOf(Bool(b), parse).Some? && FloatOf(Bool(b), parse).value.Finite?
    ensures Accept(Bool(b), parse) == None
  {
  }

  // ---------------------------------------------------------------------
  // Sum, count and mean of the accepted values
  // ---------------------------------------------------------------------

  /** The accepted values of xs, in order. */
  function Accepted(xs: seq<Value>, parse: Parser): (a: seq<real>)
    ensures |a| <= |xs|
  {
    if xs == [] then []
    else
      var init := Accepted(xs[..|xs| - 1], parse);
      match Accept(xs[|xs| - 1], parse)
      case Some(x) => init + [x]
      case None => init
  }

  /** Sum of a sequence of reals, added left to right, in loop order. */
  function Sum(a: seq<real>): real {
    if a == [] then 0.0 else Sum(a[..|a| - 1]) + a[|a| - 1]
  }

  /** `total / count`, or 0.0 when nothing was accepted. */
  function Mean(a: seq<real>): real {
    if |a| == 0 then 0.0 else Sum(a) / (|a| as real)
  }

  /** What `average_valid_measurements` returns: 0.0 for None and for a
      non-iterable value, the mean of the accepted values otherwise. */
  function Average(values: Input, parse: Parser): real {
    match values
    case Items(xs) => Mean(Accepted(xs, parse))
    case _ => 0.0
  }

  /** Accepting distributes over concatenation. */
  lemma {:induction false} AcceptedConcat(xs: seq<Value>, ys: seq<Value>, parse: Parser)
    ensures Accepted(xs + ys, parse) == Accepted(xs, parse) + Accepted(ys, parse)
    decreases |ys|
  {
    if ys == [] {
      assert xs + ys == xs;
    } else {
      var n := |ys| - 1;
      assert (xs + ys)[..|xs + ys| - 1] == xs + ys[..n];
      assert (xs + ys)[|xs + ys| - 1] == ys[n];
      AcceptedConcat(xs, ys[..n], parse);
    }
  }

  /** One more element: its accepted value, if any, goes at the end. */
  lemma AcceptedStep(xs: seq<Value>, i: nat, parse: Parser)
    requires i < |xs|
    ensures Accepted(xs[..i + 1], parse)
            == Accepted(xs[..i], parse) + (match Accept(xs[i], parse) case Some(x) => [x] case None => [])
    ensures Sum(Accepted(xs[..i + 1], parse))
            == Sum(Accepted(xs[..i], parse)) + (match Accept(xs[i], parse) case Some(x) => x case None => 0.0)
  {
    var before := Accepted(xs[..i], parse);
    assert xs[..i + 1][..i] == xs[..i];
    match Accept(xs[i], parse)
    case Some(x) =>
      assert (before + [x])[..|before|] == before;
    case None =>
      assert before + [] == before;
  }

  /** Summing distributes over concatenation. */
  lemma {:induction false} SumConcat(a: seq<real>, b: seq<real>)
    ensures Sum(a + b) == Sum(a) + Sum(b)
    decreases |b|
  {
    if b == [] {
      assert a + b == a;
    } else {
      var n := |b| - 1;
      assert (a + b)[..|a + b| - 1] == a + b[..n];
      SumConcat(a, b[..n]);
    }
  }

  /** The accepted values are exactly the values of the accepted elements. */
  lemma {:induction false} AcceptedMembers(xs: seq<Value>, parse: Parser, x: real)
    ensures x in Accepted(xs, parse) <==> exists i :: 0 <= i < |xs| && Accept(xs[i], parse) == Some(x)
    decreases |xs|
  {
    if xs != [] {
      var n := |xs| - 1;
      var init := xs[..n];
      AcceptedMembers(init, parse, x);
      if exists i :: 0 <= i < |xs| && Accept(xs[i], parse) == Some(x) {
        var i :| 0 <= i < |xs| && Accept(xs[i], parse) == Some(x);
        if i < n {
          assert init[i] == xs[i];
        }
      }
      if exists i :: 0 <= i < |init| && Accept(init[i], parse) == Some(x) {
        var i :| 0 <= i < |init| && Accept(init[i], parse) == Some(x);
        assert xs[i] == init[i];
      }
    }
  }

  /** The count of accepted values is the number of elements accepted. */
  lemma {:induction false} AcceptedCount(xs: seq<Value>, parse: Parser)
    ensures |Accepted(xs, parse)| == CountWhere(xs, v => Accept(v, parse).Some?)
    decreases |xs|
  {
    if xs != [] {
      AcceptedCount(xs[..|xs| - 1], parse);
    }
  }

  /** A sum of values between lo and hi lies between n * lo and n * hi. */
  lemma {:induction false} SumBounds(a: seq<real>, lo: real, hi: real)
    requires forall i :: 0 <= i < |a| ==> lo <= a[i] <= hi
    ensures (|a| as real) * lo <= Sum(a) <= (|a| as real) * hi
    decreases |a|
  {
    if a != [] {
      SumBounds(a[..|a| - 1], lo, hi);
    }
  }

  /** The mean of values between lo and hi lies between lo and hi. */
  lemma MeanBounds(a: seq<real>, lo: real, hi: real)
    requires a != []
    requires forall i :: 0 <= i < |a| ==> lo <= a[i] <= hi
    ensures lo <= Mean(a) <= hi
  {
    SumBounds(a, lo, hi);
    var n := |a| as real;
    var m := Sum(a) / n;
    assert m * n == Sum(a);
    NonNegativeFactor(m - lo, n);
    NonNegativeFactor(hi - m, n);
  }

  lemma NonNegativeFactor(x: real, n: real)
    requires n > 0.0 && x * n >= 0.0
    ensures x >= 0.0
  {
  }

  /** Smallest and largest element of a non-empty sequence. */
  function Min(a: seq<real>): (m: real)
    requires a != []
    ensures m in a && forall i :: 0 <= i < |a| ==> m <= a[i]
  {
    if |a| == 1 then a[0]
    else
      var m := Min(a[..|a| - 1]);
      assert forall i :: 0 <= i < |a| - 1 ==> a[..|a| - 1][i] == a[i];
      if a[|a| - 1] < m then a[|a| - 1] else m
  }

  function Max(a: seq<real>): (m: real)
    requires a != []
    ensures m in a && forall i :: 0 <= i < |a| ==> a[i] <= m
  {
    if |a| == 1 then a[0]
    else
      var m := Max(a[..|a| - 1]);
      assert forall i :: 0 <= i < |a| - 1 ==> a[..|a| - 1][i] == a[i];
      if a[|a| - 1] > m then a[|a| - 1] else m
  }

  /** When something is accepted, the average lies between the smallest
      and the largest accepted value. */
  lemma AverageBetweenMinAndMax(xs: seq<Value>, parse: Parser)
    requires Accepted(xs, parse) != []
    ensures Min(Accepted(xs, parse)) <= Average(Items(xs), parse) <= Max(Accepted(xs, parse))
  {
    var a := Accepted(xs, parse);
    MeanBounds(a, Min(a), Max(a));
  }

  /** When nothing is accepted, including for the empty list, the average
      is 0.0. */
  lemma {:induction false} NothingAcceptedGivesZero(xs: seq<Value>, parse: Parser)
    requires forall i :: 0 <= i < |xs| ==> Accept(xs[i], parse) == None
    ensures Accepted(xs, parse) == []
    ensures Average(Items(xs), parse) == 0.0
    decreases |xs|
  {
    if xs != [] {
      var n := |xs| - 1;
      assert forall i :: 0 <= i < n ==> xs[..n][i] == xs[i];
      NothingAcceptedGivesZero(xs[..n], parse);
    }
  }

  /** A skipped element, wherever it stands, does not change the average. */
  lemma SkippedElementIsIgnored(xs: seq<Value>, v: Value, ys: seq<Value>, parse: Parser)
    requires Accept(v, parse) == None
    ensures Average(Items(xs + [v] + ys), parse) == Average(Items(xs + ys), parse)
  {
    AcceptedConcat(xs + [v], ys, parse);
    AcceptedConcat(xs, [v], parse);
    AcceptedConcat(xs, ys, parse);
    assert [v][..0] == [];
  }

  // ---------------------------------------------------------------------
  // average_valid_measurements
  // ---------------------------------------------------------------------

  /** `average_valid_measurements`: 0.0 for None and for a non-iterable
      value; otherwise one pass that skips rejected elements and adds each
      accepted one to a running total and count, then `total / count`, or
      0.0 when the count is zero. */
  method AverageValidMeasurements(values: Input, parse: Parser) returns (avg: real)
    ensures !values.Items? ==> avg == 0.0
    ensures values.Items? ==> avg == Mean(Accepted(values.elems, parse))
    ensures avg == Average(values, parse)
  {
    if values.Absent? {
      return 0.0;
    }
    if values.NonIterable? {
      return 0.0;
    }
    var xs := values.elems;
    var total: real := 0.0;
    var count: nat := 0;
    for i := 0 to |xs|
      invariant total == Sum(Accepted(xs[..i], parse))
      invariant count == |Accepted(xs[..i], parse)|
    {
      var v := xs[i];
      AcceptedStep(xs, i, parse);
      if !v.Null? {
        if v.Bool? {
          continue;
        }
        if v.Int? || v.Float? {
          var converted := FloatOf(v, parse);
          if converted.None? {
            continue;
          }
          var num := converted.value;
          if IsInf(num) || IsNaN(num) {
            continue;
          }
          total := total + num.r;
          count := count + 1;
        } else {
          var parsed := parse(v);
          if parsed.None? {
            continue;
          }
          var num := parsed.value;
          if IsInf(num) || IsNaN(num) {
            continue;
          }
          total := total + num.r;
          count := count + 1;
        }
      }
    }
    assert xs[..|xs|] == xs;
    if count == 0 {
      return 0.0;
    }
    avg := total / (count as real);
  }

  // ---------------------------------------------------------------------
  // Worked inputs
  // ---------------------------------------------------------------------

  /** Peeling the first element off a list. */
  lemma AcceptedFront(v: Value, xs: seq<Value>, parse: Parser)
    ensures Accepted([v] + xs, parse)
            == (match Accept(v, parse) case Some(x) => [x] case None => []) + Accepted(xs, parse)
  {
    AcceptedConcat([v], xs, parse);
    assert [v][..0] == [];
  }

  lemma SumFront(x: real, a: seq<real>)
    ensures Sum([x] + a) == x + Sum(a)
  {
    SumConcat([x], a);
    assert [x][..0] == [];
  }

  /** [1, 2, 3] averages to 2.0, whatever the parser. */
  lemma IntegersExample(parse: Parser)
    ensures Average(Items([Int(1), Int(2), Int(3)]), parse) == 2.0
  {
    IntegersAccepted(parse);
    SumFront(3.0, []);
    SumFront(2.0, [3.0]);
    SumFront(1.0, [2.0, 3.0]);
    assert [1.0, 2.0, 3.0] == [1.0] + [2.0, 3.0];
    assert [2.0, 3.0] == [2.0] + [3.0] && [3.0] == [3.0] + [];
  }

  lemma IntegersAccepted(parse: Parser)
    ensures Accepted([Int(1), Int(2), Int(3)], parse) == [1.0, 2.0, 3.0]
  {
    SmallIntsConvert();
    AcceptedFront(Int(3), [], parse);
    AcceptedFront(Int(2), [Int(3)], parse);
    AcceptedFront(Int(1), [Int(2), Int(3)], parse);
    assert [Int(1), Int(2), Int(3)] == [Int(1)] + [Int(2), Int(3)];
    assert [Int(2), Int(3)] == [Int(2)] + [Int(3)] && [Int(3)] == [Int(3)] + [];
  }

  /** In [1, "2", None, True, nan, inf, "x"], with a parser that reads "2"
      as 2.0 and fails on "x", only 1 and "2" are accepted: the average is
      1.5. */
  lemma MixedExample(parse: Parser)
    requires parse(Str("2")) == Some(Finite(2.0))
    requires parse(Str("x")) == None
    ensures Average(Items([Int(1), Str("2"), Null, Bool(true), Float(NaN), Float(PosInf), Str("x")]), parse) == 1.5
  {
    MixedAccepted(parse);
    SumFront(2.0, []);
    SumFront(1.0, [2.0]);
    assert [1.0, 2.0] == [1.0] + [2.0] && [2.0] == [2.0] + [];
  }

  lemma MixedAccepted(parse: Parser)
    requires parse(Str("2")) == Some(Finite(2.0))
    requires parse(Str("x")) == None
    ensures Accepted([Int(1), Str("2"), Null, Bool(true), Float(NaN), Float(PosInf), Str("x")], parse) == [1.0, 2.0]
  {
    SmallIntsConvert();
    var xs := [Int(1), Str("2"), Null, Bool(true), Float(NaN), Float(PosInf), Str("x")];
    var rejected := xs[2..];
    NothingAcceptedGivesZero(rejected, parse);
    AcceptedFront(Str("2"), rejected, parse);
    AcceptedFront(Int(1), xs[1..], parse);
    assert xs == [xs[0]] + xs[1..] && xs[1..] == [xs[1]] + rejected;
  }

  /** [-5, "-3.5"], with a parser that reads "-3.5" as -3.5, averages to
      -4.25. */
  lemma NegativeExample(parse: Parser)
    requires parse(Str("-3.5")) == Some(Finite(-3.5))
    ensures Average(Items([Int(-5), Str("-3.5")]), parse) == -4.25
  {
    NegativeAccepted(parse);
    SumFront(-3.5, []);
    SumFront(-5.0, [-3.5]);
    assert [-5.0, -3.5] == [-5.0] + [-3.5] && [-3.5] == [-3.5] + [];
  }

  lemma NegativeAccepted(parse: Parser)
    requires parse(Str("-3.5")) == Some(Finite(-3.5))
    ensures Accepted([Int(-5), Str("-3.5")], parse) == [-5.0, -3.5]
  {
    SmallIntsConvert();
    AcceptedFront(Str("-3.5"), [], parse);
    AcceptedFront(Int(-5), [Str("-3.5")], parse);
    assert [Int(-5), Str("-3.5")] == [Int(-5)] + [Str("-3.5")] && [Str("-3.5")] == [Str("-3.5")] + [];
  }
}
