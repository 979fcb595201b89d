/** The derivative callbacks of the `physics` package: `\dv[n]{f}{x}` and
    `\pdv[n]{f}{x}{y}` become explicit `\frac` expressions, since MathJax
    does not know these commands. The regular expressions that find them
    (balanced braces, one or two arguments for `\dv`, one to three for
    `\pdv`) are not modelled: their captured groups are the input. */
module Derivatives {
  import opened Strings
  import Scanners

  /** The braced arguments a match captured. An optional group only matches
      after the one before it, so the shapes are one, two or three
      arguments. */
  datatype Args = One(f: string) | Two(f: string, x: string) | Three(f: string, x: string, y: string)

  /** `dvReplace`: the order (group 2, present exactly when group 1 is) and
      the arguments; `\dv` takes at most two. */
  function DvReplace(order: Option<string>, args: Args): string
    requires !args.Three?
  {
    "\\frac" + "{" + "\\mathrm{d}"
    + (if order.Some? then "^" + order.value + " " else "")
    + (if args.Two? then args.f + "}" + "{" + "\\mathrm{d}" + args.x else "}" + "{" + "\\mathrm{d}" + args.f)
    + (if order.Some? then "^" + order.value else "")
    + "}"
  }

  /** `pdvReplace`: without an order, three arguments give a second-order
      mixed derivative; with one, the order is written in the denominator
      only when there is a single variable. */
  function PdvReplace(order: Option<string>, args: Args): string {
    "\\frac" + "{" + "\\partial"
    + (if order.Some? then "^" + order.value + " " else if args.Three? then "^2 " else " ")
    + (match args
       case One(f) => "}" + "{" + "\\partial " + f
       case Two(f, x) => f + "}" + "{" + "\\partial " + x
       case Three(f, x, y) => f + "}" + "{" + "\\partial " + (x + " \\partial " + y))
    + (if order.Some? && !args.Three? then "^" + order.value else "")
    + "}"
  }

  // ---------------------------------------------------------------------------
  // What the fractions say

  /** A LaTeX fraction. */
  function Frac(numerator: string, denominator: string): string {
    "\\frac" + Scanners.Braced(numerator) + Scanners.Braced(denominator)
  }

  /** `^n` for an order, nothing for a first derivative. */
  function Power(order: Option<string>): string {
    if order.Some? then "^" + order.value else ""
  }

  /** The function being differentiated: none when only the variable is
      given. */
  function Differentiated(args: Args): string {
    if args.One? then "" else args.f
  }

  /** The variable of an ordinary derivative. */
  function Variable(args: Args): string
    requires !args.Three?
  {
    if args.Two? then args.x else args.f
  }

  /** The operator of an ordinary derivative of the given order. */
  function DOperator(order: Option<string>): string {
    "\\mathrm{d}" + (if order.Some? then "^" + order.value + " " else "")
  }

  /** An ordinary derivative is the fraction with the operator of its order
      applied to the function above, and the differential of the variable to
      the same order below. */
  lemma DvFraction(order: Option<string>, args: Args)
    requires !args.Three?
    ensures DvReplace(order, args) == Frac(DOperator(order) + Differentiated(args), "\\mathrm{d}" + Variable(args) + Power(order))
  {
    var head := if order.Some? then "^" + order.value + " " else "";
    if args.Two? {
      FracLayout("\\frac", "{", "}", "\\mathrm{d}", head, args.f, "\\mathrm{d}", args.x, Power(order));
    } else {
      FracLayoutAlone("\\frac", "{", "}", "\\mathrm{d}", head, "\\mathrm{d}", args.f, Power(order));
    }
  }

  /** How the callbacks' pieces group into a fraction. */
  lemma FracLayout(frac: string, lb: string, rb: string, op: string, head: string, f: string,
                   den: string, v: string, p: string)
    ensures frac + lb + op + head + (f + rb + lb + den + v) + p + rb
      == frac + (lb + (op + head + f) + rb) + (lb + (den + v + p) + rb)
  {
  }

  lemma FracLayoutAlone(frac: string, lb: string, rb: string, op: string, head: string,
                        den: string, v: string, p: string)
    ensures frac + lb + op + head + (rb + lb + den + v) + p + rb
      == frac + (lb + (op + head + "") + rb) + (lb + (den + v + p) + rb)
  {
    assert op + head + "" == op + head;
  }

  /** The operator of a partial derivative: an explicit order, the second
      order of a mixed derivative, or none, then a space. */
  function PartialOperator(order: Option<string>, args: Args): string {
    "\\partial" + (if order.Some? then "^" + order.value + " " else if args.Three? then "^2 " else " ")
  }

  /** The differentials below a partial derivative. */
  function PartialVariables(order: Option<string>, args: Args): string {
    match args
    case One(f) => "\\partial " + f + Power(order)
    case Two(_, x) => "\\partial " + x + Power(order)
    case Three(_, x, y) => "\\partial " + (x + " \\partial " + y) + ""
  }

  /** A partial derivative is the fraction with its operator applied to the
      function above and the differentials of its variables below; the
      order is repeated below only for a single variable. */
  lemma PdvFraction(order: Option<string>, args: Args)
    ensures PdvReplace(order, args) == Frac(PartialOperator(order, args) + Differentiated(args), PartialVariables(order, args))
  {
    var head := if order.Some? then "^" + order.value + " " else if args.Three? then "^2 " else " ";
    match args
    case One(f) =>
      FracLayoutAlone("\\frac", "{", "}", "\\partial", head, "\\partial ", f, Power(order));
    case Two(f, x) =>
      FracLayout("\\frac", "{", "}", "\\partial", head, f, "\\partial ", x, Power(order));
    case Three(f, x, y) =>
      FracLayout("\\frac", "{", "}", "\\partial", head, f, "\\partial ", x + " \\partial " + y, "");
  }

  /** A one-argument `\dv` is the derivative operator alone: the same as
      differentiating an empty function. */
  lemma DvOperatorAlone(order: Option<string>, x: string)
    ensures DvReplace(order, One(x)) == DvReplace(order, Two("", x))
  {
    DvFraction(order, One(x));
    DvFraction(order, Two("", x));
  }

  /** The same holds for a one-argument `\pdv`. */
  lemma PdvOperatorAlone(order: Option<string>, x: string)
    ensures PdvReplace(order, One(x)) == PdvReplace(order, Two("", x))
  {
    PdvFraction(order, One(x));
    PdvFraction(order, Two("", x));
  }

  /** Three arguments without an order give a mixed second derivative. */
  lemma MixedSecondOrder(f: string, x: string, y: string)
    ensures PdvReplace(None, Three(f, x, y)) == Frac("\\partial^2 " + f, "\\partial " + x + " \\partial " + y)
  {
    PdvFraction(None, Three(f, x, y));
  }

  /** With an order and a single variable, the order appears both on the
      operator and on the variable, as in the ordinary derivative. */
  lemma PartialOrder(n: string, f: string, x: string)
    ensures PdvReplace(Some(n), Two(f, x)) == Frac("\\partial^" + n + " " + f, "\\partial " + x + "^" + n)
    ensures DvReplace(Some(n), Two(f, x)) == Frac("\\mathrm{d}^" + n + " " + f, "\\mathrm{d}" + x + "^" + n)
  {
    assert PdvReplace(Some(n), Two(f, x)) == Frac("\\partial^" + n + " " + f, "\\partial " + x + "^" + n) by {
      PdvFraction(Some(n), Two(f, x));
    }
    assert DvReplace(Some(n), Two(f, x)) == Frac("\\mathrm{d}^" + n + " " + f, "\\mathrm{d}" + x + "^" + n) by {
      DvFraction(Some(n), Two(f, x));
    }
  }

  /** A first derivative has no power anywhere: `\pdv{f}{x}` becomes
      `\frac{\partial f}{\partial x}` and `\dv{f}{x}` becomes
      `\frac{\mathrm{d}f}{\mathrm{d}x}`. */
  lemma FirstOrder(f: string, x: string)
    ensures PdvReplace(None, Two(f, x)) == Frac("\\partial " + f, "\\partial " + x)
    ensures DvReplace(None, Two(f, x)) == Frac("\\mathrm{d}" + f, "\\mathrm{d}" + x)
  {
    PdvFraction(None, Two(f, x));
    DvFraction(None, Two(f, x));
  }
}
