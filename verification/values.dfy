/** The dynamically typed values both validators receive, as a tagged union.
    Python decides by run-time type tests (`isinstance`, `is None`, `iter`);
    here every such test is a constructor test on one of these datatypes. */
module PyValues {

  datatype Option<+T> = None | Some(value: T)

  /** A Python float: a finite number, one of the two infinities, or NaN.
      Rounding is not modelled: a finite float is an exact real. */
  datatype Double = Finite(r: real) | PosInf | NegInf | NaN

  /** `math.isinf` */
  predicate IsInf(d: Double) {
    d.PosInf? || d.NegInf?
  }

  /** `math.isnan` */
  predicate IsNaN(d: Double) {
    d.NaN?
  }

  /** One element of an input list.
      Null is Python's None; Other is any object that is none of the
      listed kinds (a list, a dict, a complex number, a Decimal, ...),
      identified only by a description of its kind. */
  datatype Value =
    | Null
    | Bool(b: bool)
    | Int(i: int)
    | Float(f: Double)
    | Str(s: string)
    | Other(kind: string)

  /** The whole argument of an aggregator: None, something `iter()`
      refuses, or a finite sequence of elements. */
  datatype Input =
    | Absent
    | NonIterable
    | Items(elems: seq<Value>)
}
