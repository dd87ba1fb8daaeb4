/**
 * The named spatial relationships of two geometries, read off their DE-9IM
 * matrix (and, for some, the dimensions of the two geometries). Each is
 * written as the entry tests it makes and then proved equal to matching the
 * DE-9IM pattern it stands for.
 */
module SpatialPredicates {
  import opened Dimensions
  import opened De9im

  /** The dimension of a geometry: a point, a curve or a surface. */
  predicate IsShape(d: Dimension)
  {
    d == Point || d == Curve || d == Surface
  }

  predicate IsDisjoint(m: Cells)
  {
    Cell(m, Interior, Interior) == False &&
    Cell(m, Interior, Boundary) == False &&
    Cell(m, Boundary, Interior) == False &&
    Cell(m, Boundary, Boundary) == False
  }

  predicate IsIntersects(m: Cells)
  {
    !IsDisjoint(m)
  }

  /** Pairs are put in ascending order of code first; two points never touch. */
  predicate IsTouches(m: Cells, lhs: Dimension, rhs: Dimension)
    decreases if Code(lhs) > Code(rhs) then 1 else 0
  {
    if Code(lhs) > Code(rhs) then
      IsTouches(m, rhs, lhs)
    else if (lhs == Surface && rhs == Surface) ||
            (lhs == Curve && rhs == Curve) ||
            (lhs == Curve && rhs == Surface) ||
            (lhs == Point && rhs == Surface) ||
            (lhs == Point && rhs == Curve) then
      Cell(m, Interior, Interior) == False &&
      (MatchesSymbol(Cell(m, Interior, Boundary), 'T') ||
       MatchesSymbol(Cell(m, Boundary, Interior), 'T') ||
       MatchesSymbol(Cell(m, Boundary, Boundary), 'T'))
    else
      false
  }

  predicate IsCrosses(m: Cells, lhs: Dimension, rhs: Dimension)
  {
    if (lhs == Point && rhs == Curve) ||
       (lhs == Point && rhs == Surface) ||
       (lhs == Curve && rhs == Surface) then
      MatchesSymbol(Cell(m, Interior, Interior), 'T') &&
      MatchesSymbol(Cell(m, Interior, Exterior), 'T')
    else if (lhs == Curve && rhs == Point) ||
            (lhs == Surface && rhs == Point) ||
            (lhs == Surface && rhs == Curve) then
      MatchesSymbol(Cell(m, Interior, Interior), 'T') &&
      MatchesSymbol(Cell(m, Exterior, Interior), 'T')
    else if lhs == Curve && rhs == Curve then
      Code(Cell(m, Interior, Interior)) == 0
    else
      false
  }

  predicate IsWithin(m: Cells)
  {
    MatchesSymbol(Cell(m, Interior, Interior), 'T') &&
    Cell(m, Interior, Exterior) == False &&
    Cell(m, Boundary, Exterior) == False
  }

  predicate IsContains(m: Cells)
  {
    MatchesSymbol(Cell(m, Interior, Interior), 'T') &&
    Cell(m, Exterior, Interior) == False &&
    Cell(m, Exterior, Boundary) == False
  }

  predicate IsCovers(m: Cells)
  {
    var hasPointInCommon :=
      MatchesSymbol(Cell(m, Interior, Interior), 'T') ||
      MatchesSymbol(Cell(m, Interior, Boundary), 'T') ||
      MatchesSymbol(Cell(m, Boundary, Interior), 'T') ||
      MatchesSymbol(Cell(m, Boundary, Boundary), 'T');
    hasPointInCommon &&
    Cell(m, Exterior, Interior) == False &&
    Cell(m, Exterior, Boundary) == False
  }

  predicate IsEquals(m: Cells, lhs: Dimension, rhs: Dimension)
  {
    if lhs != rhs then
      false
    else
      MatchesSymbol(Cell(m, Interior, Interior), 'T') &&
      Cell(m, Exterior, Interior) == False &&
      Cell(m, Interior, Exterior) == False &&
      Cell(m, Exterior, Boundary) == False &&
      Cell(m, Boundary, Exterior) == False
  }

  predicate IsOverlaps(m: Cells, lhs: Dimension, rhs: Dimension)
  {
    if (lhs == Point && rhs == Point) || (lhs == Surface && rhs == Surface) then
      MatchesSymbol(Cell(m, Interior, Interior), 'T') &&
      MatchesSymbol(Cell(m, Interior, Exterior), 'T') &&
      MatchesSymbol(Cell(m, Exterior, Interior), 'T')
    else if lhs == Curve && rhs == Curve then
      Cell(m, Interior, Interior) == Curve &&
      MatchesSymbol(Cell(m, Interior, Exterior), 'T') &&
      MatchesSymbol(Cell(m, Exterior, Interior), 'T')
    else
      false
  }

  // ---------------------------------------------------------------------------
  // Each predicate is a DE-9IM pattern
  // ---------------------------------------------------------------------------

  /** Disjoint is the pattern FF*FF****, and intersects is its negation. */
  lemma DisjointPattern(m: Cells)
    ensures IsDisjoint(m) <==> Matches(m, "FF*FF****")
    ensures IsIntersects(m) <==> !Matches(m, "FF*FF****")
    ensures IsIntersects(m) <==> exists i | i in {0, 1, 3, 4} :: m[i] != False
  {
    MatchesUnrolled(m, "FF*FF****");
    if IsIntersects(m) {
      var i :| i in {0, 1, 3, 4} && m[i] != False;
    }
  }

  /**
   * Touches holds for two geometries that are not both points exactly when
   * the matrix is FT*******, F**T***** or F***T****; the order of the two
   * dimensions does not matter.
   */
  lemma TouchesPattern(m: Cells, lhs: Dimension, rhs: Dimension)
    ensures IsTouches(m, lhs, rhs) <==>
      IsShape(lhs) && IsShape(rhs) && !(lhs == Point && rhs == Point) &&
      (Matches(m, "FT*******") || Matches(m, "F**T*****") || Matches(m, "F***T****"))
  {
    MatchesUnrolled(m, "FT*******");
    MatchesUnrolled(m, "F**T*****");
    MatchesUnrolled(m, "F***T****");
  }

  /** Touches is symmetric in the two dimensions and never holds for two points. */
  lemma TouchesSymmetric(m: Cells, lhs: Dimension, rhs: Dimension)
    ensures IsTouches(m, lhs, rhs) == IsTouches(m, rhs, lhs)
    ensures !IsTouches(m, Point, Point)
  {
    TouchesPattern(m, lhs, rhs);
    TouchesPattern(m, rhs, lhs);
    TouchesPattern(m, Point, Point);
  }

  /** The touches pattern is symmetric, so transposing the matrix does not change the answer. */
  lemma TouchesTransposed(m: Cells, lhs: Dimension, rhs: Dimension)
    ensures IsTouches(Transposed(m), lhs, rhs) == IsTouches(m, lhs, rhs)
  {
    TouchesPattern(m, lhs, rhs);
    TouchesPattern(Transposed(m), lhs, rhs);
    MatchesUnrolled(m, "FT*******");
    MatchesUnrolled(m, "F**T*****");
    MatchesUnrolled(Transposed(m), "FT*******");
    MatchesUnrolled(Transposed(m), "F**T*****");
  }

  /**
   * Crosses is T*T****** when the first geometry has the lower dimension,
   * T*****T** when it has the higher one, 0******** for two curves, and never
   * holds otherwise.
   */
  lemma CrossesPattern(m: Cells, lhs: Dimension, rhs: Dimension)
    ensures IsCrosses(m, lhs, rhs) <==>
      IsShape(lhs) && IsShape(rhs) &&
      if Code(lhs) < Code(rhs) then Matches(m, "T*T******")
      else if Code(lhs) > Code(rhs) then Matches(m, "T*****T**")
      else lhs == Curve && Matches(m, "0********")
  {
    MatchesUnrolled(m, "T*T******");
    MatchesUnrolled(m, "T*****T**");
    MatchesUnrolled(m, "0********");
  }

  /** Crossing of A with B is crossing of B with A on the transposed matrix. */
  lemma CrossesConverse(m: Cells, lhs: Dimension, rhs: Dimension)
    ensures IsCrosses(Transposed(m), rhs, lhs) == IsCrosses(m, lhs, rhs)
  {
  }

  /** Within is the pattern T*F**F***. */
  lemma WithinPattern(m: Cells)
    ensures IsWithin(m) <==> Matches(m, "T*F**F***")
  {
    MatchesUnrolled(m, "T*F**F***");
    assert Cell(m, Interior, Exterior) == m[2] && Cell(m, Boundary, Exterior) == m[5];
  }

  /** Contains is the pattern T*****FF*, and A contains B exactly when B is within A. */
  lemma ContainsPattern(m: Cells)
    ensures IsContains(m) <==> Matches(m, "T*****FF*")
    ensures IsContains(m) == IsWithin(Transposed(m))
  {
    MatchesUnrolled(m, "T*****FF*");
  }

  /** Covers is one of T*****FF*, *T****FF*, ***T**FF*, ****T*FF*; containing implies covering. */
  lemma CoversPattern(m: Cells)
    ensures IsCovers(m) <==>
      Matches(m, "T*****FF*") || Matches(m, "*T****FF*") ||
      Matches(m, "***T**FF*") || Matches(m, "****T*FF*")
    ensures IsContains(m) ==> IsCovers(m)
  {
    MatchesUnrolled(m, "T*****FF*");
    MatchesUnrolled(m, "*T****FF*");
    MatchesUnrolled(m, "***T**FF*");
    MatchesUnrolled(m, "****T*FF*");
  }

  /**
   * Equals is the pattern T*F**FFF* for geometries of one dimension and never
   * holds for different dimensions; it is within and contains together.
   */
  lemma EqualsPattern(m: Cells, lhs: Dimension, rhs: Dimension)
    ensures IsEquals(m, lhs, rhs) <==> lhs == rhs && Matches(m, "T*F**FFF*")
    ensures lhs != rhs ==> !IsEquals(m, lhs, rhs)
    ensures IsEquals(m, lhs, lhs) <==> IsWithin(m) && IsContains(m)
    ensures IsEquals(Transposed(m), lhs, rhs) == IsEquals(m, lhs, rhs)
  {
    MatchesUnrolled(m, "T*F**FFF*");
  }

  /**
   * Overlaps is T*T***T** for two points or two surfaces, 1*T***T** for two
   * curves, and never holds for geometries of different dimensions.
   */
  lemma OverlapsPattern(m: Cells, lhs: Dimension, rhs: Dimension)
    ensures IsOverlaps(m, lhs, rhs) <==>
      lhs == rhs &&
      (((lhs == Point || lhs == Surface) && Matches(m, "T*T***T**")) ||
       (lhs == Curve && Matches(m, "1*T***T**")))
    ensures lhs != rhs ==> !IsOverlaps(m, lhs, rhs)
    ensures IsOverlaps(Transposed(m), rhs, lhs) == IsOverlaps(m, lhs, rhs)
  {
    MatchesUnrolled(m, "T*T***T**");
    MatchesUnrolled(m, "1*T***T**");
  }
}
