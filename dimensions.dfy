/** The usual optional value: a failure carries no information beyond "it failed". */
module Optional {
  datatype Option<+T> = None | Some(value: T)
}

/**
 * The six dimension values that an entry of a DE-9IM matrix can hold, their
 * fixed integer codes, and the conversion between values and the symbols
 * `T F * 0 1 2` used in the nine-character string form of a matrix.
 */
module Dimensions {
  import opened Optional

  /** The first constructor is the default value of a fresh array (code 0). */
  datatype Dimension = Point | Curve | Surface | False | True | Dontcare

  /** The integer code of each value; comparisons between dimensions use these codes. */
  function Code(d: Dimension): int
  {
    match d
    case Point => 0
    case Curve => 1
    case Surface => 2
    case False => -1
    case True => -2
    case Dontcare => -3
  }

  /** All six values, from the smallest code to the largest. */
  const Ascending: seq<Dimension> := [Dontcare, True, False, Point, Curve, Surface]

  /** The six dimension symbols, each the upper-case form of itself. */
  const Alphabet: string := "TF*012"

  /** Upper-casing of a character; only the ASCII letters `a`..`z` change. */
  function ToUpper(c: char): (u: char)
    ensures 'a' <= c <= 'z' ==> 'A' <= u <= 'Z' && u as int == c as int - 32
    ensures !('a' <= c <= 'z') ==> u == c
  {
    if 'a' <= c <= 'z' then (c as int - 32) as char else c
  }

  /** The symbol that represents a dimension value in a matrix string. */
  function ToDimensionSymbol(d: Dimension): (c: char)
    ensures c in Alphabet
    ensures ToUpper(c) == c
  {
    match d
    case False => 'F'
    case True => 'T'
    case Dontcare => '*'
    case Point => '0'
    case Curve => '1'
    case Surface => '2'
  }

  /** The dimension value a symbol stands for, letters in either case; None for any other character. */
  function ToDimensionValue(c: char): (r: Option<Dimension>)
    ensures r.Some? <==> ToUpper(c) in Alphabet
  {
    match ToUpper(c)
    case 'F' => Some(False)
    case 'T' => Some(True)
    case '*' => Some(Dontcare)
    case '0' => Some(Point)
    case '1' => Some(Curve)
    case '2' => Some(Surface)
    case _ => None
  }

  /** The codes are Dontcare=-3 < True=-2 < False=-1 < Point=0 < Curve=1 < Surface=2. */
  lemma CodesAscend()
    ensures |Ascending| == 6
    ensures forall d :: d in Ascending
    ensures forall i | 0 <= i < |Ascending| :: Code(Ascending[i]) == i - 3
  {
    forall d ensures d in Ascending {
      match d
      case Dontcare => assert Ascending[0] == d;
      case True => assert Ascending[1] == d;
      case False => assert Ascending[2] == d;
      case Point => assert Ascending[3] == d;
      case Curve => assert Ascending[4] == d;
      case Surface => assert Ascending[5] == d;
    }
  }

  /** Distinct values have distinct codes, so comparing codes is a total order on dimensions. */
  lemma CodeInjective(a: Dimension, b: Dimension)
    ensures Code(a) == Code(b) <==> a == b
  {
  }

  /** Every dimension value survives the trip to its symbol and back. */
  lemma SymbolRoundTrip(d: Dimension)
    ensures ToDimensionValue(ToDimensionSymbol(d)) == Some(d)
  {
  }

  /** Every accepted character comes back as its own upper-case form. */
  lemma ValueRoundTrip(c: char)
    requires ToDimensionValue(c).Some?
    ensures ToDimensionSymbol(ToDimensionValue(c).value) == ToUpper(c)
  {
  }

  /** Decoding ignores the case of letters: `t` is True and `f` is False. */
  lemma DecodingIgnoresCase(c: char)
    ensures ToDimensionValue(c) == ToDimensionValue(ToUpper(c))
    ensures ToDimensionValue('t') == Some(True) && ToDimensionValue('f') == Some(False)
  {
  }

  /** Exactly eight characters are accepted: the six symbols and the lower-case `t` and `f`. */
  lemma AcceptedCharacters(c: char)
    ensures ToDimensionValue(c).Some? <==> c in "TF*012tf"
  {
  }
}
