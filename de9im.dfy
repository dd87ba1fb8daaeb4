/**
 * The value level of a Dimensionally Extended Nine-Intersection Model matrix:
 * its nine entries, their string form, single-cell and whole-matrix template
 * matching, transposition and the cell-wise maximum used to accumulate
 * matrices.
 */
module De9im {
  import opened Optional
  import opened Dimensions

  /**
   * The entries of a matrix in row-major order. Rows describe the first
   * geometry and columns the second; both are indexed Interior, Boundary,
   * Exterior.
   */
  type Cells = m: seq<Dimension> | |m| == 9
    witness [False, False, False, False, False, False, False, False, False]

  const Interior: int := 0
  const Boundary: int := 1
  const Exterior: int := 2

  /** The matrix a new object starts with. */
  const AllFalse: Cells := [False, False, False, False, False, False, False, False, False]

  predicate InRange(row: int, column: int)
  {
    0 <= row < 3 && 0 <= column < 3
  }

  /** Position of entry (row, column) in the row-major layout. */
  function Index(row: int, column: int): int
  {
    3 * row + column
  }

  predicate IsInt32(x: int)
  {
    -0x8000_0000 <= x < 0x8000_0000
  }

  /** The signed 32-bit value with the same low 32 bits, as unchecked .NET Int32 arithmetic gives. */
  function Wrap32(x: int): (w: int)
    ensures IsInt32(w)
    ensures IsInt32(x) ==> w == x
    ensures (x - w) % 0x1_0000_0000 == 0
  {
    (x + 0x8000_0000) % 0x1_0000_0000 - 0x8000_0000
  }

  /**
   * The array position the private setter computes for Int32 coordinates
   * (row, column): `row * 3 + column` evaluated in wrap-around Int32
   * arithmetic, so it agrees with the exact value modulo 2^32.
   */
  function Position(row: int, column: int): (k: int)
    ensures IsInt32(k)
    ensures (k - (3 * row + column)) % 0x1_0000_0000 == 0
  {
    var product := Wrap32(row * 3);
    var k := Wrap32(product + column);
    MultiplesAdd(k - (product + column), product - row * 3);
    k
  }

  /** The sum of two multiples of 2^32 is one. */
  lemma MultiplesAdd(x: int, y: int)
    requires x % 0x1_0000_0000 == 0 && y % 0x1_0000_0000 == 0
    ensures (x + y) % 0x1_0000_0000 == 0
  {
    assert x == (x / 0x1_0000_0000) * 0x1_0000_0000;
    assert y == (y / 0x1_0000_0000) * 0x1_0000_0000;
    assert x + y == (x / 0x1_0000_0000 + y / 0x1_0000_0000) * 0x1_0000_0000;
  }

  /** Without overflow the position is the row-major index, as it is for every entry of the matrix. */
  lemma PositionWithoutOverflow(row: int, column: int)
    requires IsInt32(row) && IsInt32(column) && IsInt32(3 * row) && IsInt32(3 * row + column)
    ensures Position(row, column) == Index(row, column)
  {
  }

  /** A coordinate pair far out of range can still land on an entry: the position wraps around. */
  lemma PositionWraps()
    ensures Position(1431655765, 1) == Index(0, 0)
    ensures Position(1, -1) == Index(0, 2)
  {
    assert Wrap32(4294967295) == -1;
    assert Wrap32(0) == 0;
    PositionWithoutOverflow(1, -1);
  }

  function Cell(m: Cells, row: int, column: int): Dimension
    requires InRange(row, column)
  {
    m[Index(row, column)]
  }

  /** Linear index i and the pair (i / 3, i % 3) name the same entry. */
  lemma LinearIndex(i: int)
    requires 0 <= i < 9
    ensures InRange(i / 3, i % 3) && Index(i / 3, i % 3) == i
  {
  }

  /** Every entry has one linear index, from which its row and column are recovered. */
  lemma IndexOfCell(row: int, column: int)
    requires InRange(row, column)
    ensures 0 <= Index(row, column) < 9
    ensures Index(row, column) / 3 == row && Index(row, column) % 3 == column
  {
  }

  // ---------------------------------------------------------------------------
  // String form
  // ---------------------------------------------------------------------------

  /** The symbols of a sequence of dimension values, one per value. */
  function Encode(ds: seq<Dimension>): (s: string)
    ensures |s| == |ds|
    ensures forall k | 0 <= k < |ds| :: s[k] == ToDimensionSymbol(ds[k])
  {
    if ds == [] then [] else [ToDimensionSymbol(ds[0])] + Encode(ds[1..])
  }

  /** The values of a string of symbols; None as soon as one character is not a symbol. */
  function Decode(s: string): (r: Option<seq<Dimension>>)
    ensures r.Some? <==> forall k | 0 <= k < |s| :: ToDimensionValue(s[k]).Some?
    ensures r.Some? ==> |r.value| == |s|
    ensures r.Some? ==> forall k | 0 <= k < |s| :: ToDimensionValue(s[k]) == Some(r.value[k])
  {
    if s == [] then Some([])
    else
      match (ToDimensionValue(s[0]), Decode(s[1..]))
      case (Some(d), Some(ds)) => Some([d] + ds)
      case _ => None
  }

  /** Reading a matrix from its string form: exactly nine characters, each a symbol. */
  function Parse(s: string): (r: Option<Cells>)
    ensures r.Some? <==> |s| == 9 && forall k | 0 <= k < |s| :: ToDimensionValue(s[k]).Some?
    ensures r.Some? ==> forall k | 0 <= k < 9 :: ToDimensionValue(s[k]) == Some(r.value[k])
  {
    if |s| != 9 then None
    else
      match Decode(s)
      case Some(ds) => Some(ds)
      case None => None
  }

  /** A character that a .NET string stores as a single UTF-16 code unit. */
  predicate IsBmp(c: char)
  {
    (c as int) < 0x1_0000
  }

  /**
   * The length .NET reports for a string: one UTF-16 code unit for each
   * character of the Basic Multilingual Plane, two (a surrogate pair) for
   * any other character.
   */
  function Utf16Length(s: string): (n: nat)
    ensures n >= |s|
    ensures n == |s| <==> forall k | 0 <= k < |s| :: IsBmp(s[k])
  {
    if s == [] then 0 else (if IsBmp(s[0]) then 1 else 2) + Utf16Length(s[1..])
  }

  /** The number of leading characters that are dimension symbols. */
  function AcceptedPrefix(s: string): (n: nat)
    ensures n <= |s|
    ensures forall k | 0 <= k < n :: ToDimensionValue(s[k]).Some?
    ensures n < |s| ==> ToDimensionValue(s[n]).None?
  {
    if s == [] || ToDimensionValue(s[0]).None? then 0 else 1 + AcceptedPrefix(s[1..])
  }

  /** Every dimension symbol is a single code unit. */
  lemma SymbolIsBmp(c: char)
    requires ToDimensionValue(c).Some? || c in Alphabet
    ensures IsBmp(c)
  {
    AcceptedCharacters(c);
  }

  /**
   * A string of symbols has as many code units as characters, so a string
   * parses exactly when .NET sees nine code units and every character is a
   * symbol.
   */
  lemma ParseByCodeUnits(s: string)
    ensures AcceptedPrefix(s) == |s| ==> Utf16Length(s) == |s|
    ensures Parse(s).Some? <==> Utf16Length(s) == 9 && AcceptedPrefix(s) == |s|
  {
    if AcceptedPrefix(s) == |s| {
      forall k | 0 <= k < |s| ensures IsBmp(s[k]) {
        SymbolIsBmp(s[k]);
      }
    }
  }

  /** A string with every letter upper-cased. */
  function UpperString(s: string): (u: string)
  {
    seq(|s|, k requires 0 <= k < |s| => ToUpper(s[k]))
  }

  /** Printing and then reading back gives the same values. */
  lemma {:induction false} EncodeDecode(ds: seq<Dimension>)
    ensures Decode(Encode(ds)) == Some(ds)
  {
    if ds != [] {
      EncodeDecode(ds[1..]);
      SymbolRoundTrip(ds[0]);
      assert Encode(ds)[1..] == Encode(ds[1..]);
      assert [ds[0]] + ds[1..] == ds;
    }
  }

  /** Reading and then printing gives the string upper-cased. */
  lemma DecodeEncode(s: string)
    requires Decode(s).Some?
    ensures Encode(Decode(s).value) == UpperString(s)
  {
    var ds := Decode(s).value;
    forall k | 0 <= k < |s| ensures Encode(ds)[k] == UpperString(s)[k] {
      ValueRoundTrip(s[k]);
    }
  }

  /** The string form of a parsed matrix is the input upper-cased, and a matrix is recovered from its string form. */
  lemma ParsePrint(s: string, m: Cells)
    ensures Parse(s).Some? ==> Encode(Parse(s).value) == UpperString(s)
    ensures Parse(Encode(m)) == Some(m)
    ensures |Encode(m)| == 9
  {
    if Parse(s).Some? {
      DecodeEncode(s);
    }
    EncodeDecode(m);
  }

  /** A new matrix prints as nine F. */
  lemma AllFalsePrints()
    ensures Encode(AllFalse) == "FFFFFFFFF"
  {
  }

  // ---------------------------------------------------------------------------
  // Template matching
  // ---------------------------------------------------------------------------

  /** Whether an entry satisfies one template symbol; the comparison for T uses the integer codes. */
  function MatchesSymbol(d: Dimension, ch: char): (r: bool)
    ensures ch == '*' ==> r
    ensures ch == 'T' ==> (r <==> d in {True, Point, Curve, Surface})
    ensures ch == 'F' ==> (r <==> d == False)
    ensures ch == '0' ==> (r <==> d == Point)
    ensures ch == '1' ==> (r <==> d == Curve)
    ensures ch == '2' ==> (r <==> d == Surface)
    ensures ch !in Alphabet ==> !r
  {
    if ch == '*' then true
    else if ch == 'T' && (Code(d) >= Code(Point) || d == True) then true
    else if ch == 'F' && d == False then true
    else if ch == '0' && d == Point then true
    else if ch == '1' && d == Curve then true
    else if ch == '2' && d == Surface then true
    else false
  }

  /** Whether every entry satisfies the template symbol at its position. */
  predicate Matches(m: Cells, t: string)
    requires |t| == 9
  {
    forall i | 0 <= i < 9 :: MatchesSymbol(m[i], t[i])
  }

  /** Matching, spelled out entry by entry. */
  lemma MatchesUnrolled(m: Cells, t: string)
    requires |t| == 9
    ensures Matches(m, t) <==>
      MatchesSymbol(m[0], t[0]) && MatchesSymbol(m[1], t[1]) && MatchesSymbol(m[2], t[2]) &&
      MatchesSymbol(m[3], t[3]) && MatchesSymbol(m[4], t[4]) && MatchesSymbol(m[5], t[5]) &&
      MatchesSymbol(m[6], t[6]) && MatchesSymbol(m[7], t[7]) && MatchesSymbol(m[8], t[8])
  {
    if MatchesSymbol(m[0], t[0]) && MatchesSymbol(m[1], t[1]) && MatchesSymbol(m[2], t[2]) &&
      MatchesSymbol(m[3], t[3]) && MatchesSymbol(m[4], t[4]) && MatchesSymbol(m[5], t[5]) &&
      MatchesSymbol(m[6], t[6]) && MatchesSymbol(m[7], t[7]) && MatchesSymbol(m[8], t[8])
    {
      forall i | 0 <= i < 9 ensures MatchesSymbol(m[i], t[i]) {
        assert i == 0 || i == 1 || i == 2 || i == 3 || i == 4 || i == 5 || i == 6 || i == 7 || i == 8;
      }
    }
  }

  /** Each value satisfies its own symbol, and a symbol other than T and * is satisfied by its own value only. */
  lemma MatchesOwnSymbol(d: Dimension, ch: char)
    ensures MatchesSymbol(d, ToDimensionSymbol(d))
    ensures ch in "F012" ==> (MatchesSymbol(d, ch) <==> ToDimensionSymbol(d) == ch)
  {
  }

  /** The all-wildcard template matches every matrix. */
  lemma MatchesWildcard(m: Cells)
    ensures Matches(m, "*********")
  {
  }

  /** A matrix matches its own string form. */
  lemma MatchesOwnString(m: Cells)
    ensures |Encode(m)| == 9 && Matches(m, Encode(m))
  {
    forall i | 0 <= i < 9 ensures MatchesSymbol(m[i], Encode(m)[i]) {
      MatchesOwnSymbol(m[i], '*');
    }
  }

  /**
   * A valid symbol string used as its own template matches the matrix it
   * denotes exactly when it has no lower-case letter, because `t` and `f` are
   * accepted when reading but not when matching.
   */
  lemma SelfTemplate(s: string)
    requires Parse(s).Some?
    ensures Matches(Parse(s).value, s) <==> UpperString(s) == s
  {
    var m := Parse(s).value;
    if Matches(m, s) {
      forall k | 0 <= k < |s| ensures UpperString(s)[k] == s[k] {
        assert MatchesSymbol(m[k], s[k]);
      }
    }
    if UpperString(s) == s {
      forall k | 0 <= k < 9 ensures MatchesSymbol(m[k], s[k]) {
        assert ToUpper(s[k]) == s[k] by { assert UpperString(s)[k] == ToUpper(s[k]); }
        ValueRoundTrip(s[k]);
        MatchesOwnSymbol(m[k], '*');
      }
    }
  }

  // ---------------------------------------------------------------------------
  // Transposition
  // ---------------------------------------------------------------------------

  /** The matrix of the same two geometries taken in the other order. */
  function Transposed(m: Cells): (t: Cells)
    ensures forall row, column | InRange(row, column) :: Cell(t, row, column) == Cell(m, column, row)
  {
    [m[0], m[3], m[6], m[1], m[4], m[7], m[2], m[5], m[8]]
  }

  /** Transposing twice restores the matrix, and the diagonal never moves. */
  lemma TransposeInvolution(m: Cells)
    ensures Transposed(Transposed(m)) == m
    ensures forall k | 0 <= k < 3 :: Cell(Transposed(m), k, k) == Cell(m, k, k)
  {
  }

  // ---------------------------------------------------------------------------
  // Accumulation
  // ---------------------------------------------------------------------------

  /** The larger of two values by integer code; the current value is kept on a tie. */
  function AtLeast(current: Dimension, minimum: Dimension): (r: Dimension)
    ensures Code(r) >= Code(current) && Code(r) >= Code(minimum)
    ensures r == current || r == minimum
  {
    if Code(current) < Code(minimum) then minimum else current
  }

  /** The entry-by-entry larger of two matrices. */
  function Join(a: Cells, b: Cells): Cells
  {
    seq(9, k requires 0 <= k < 9 => AtLeast(a[k], b[k]))
  }

  /** Each entry of the join is the larger of the two entries and one of them. */
  lemma JoinIsMaximum(a: Cells, b: Cells, k: int)
    requires 0 <= k < 9
    ensures Code(Join(a, b)[k]) >= Code(a[k]) && Code(Join(a, b)[k]) >= Code(b[k])
    ensures Join(a, b)[k] == a[k] || Join(a, b)[k] == b[k]
  {
  }

  /** Accumulating matrices in either order gives the same matrix; adding an equal matrix changes nothing. */
  lemma JoinLaws(a: Cells, b: Cells, c: Cells)
    ensures Join(a, b) == Join(b, a)
    ensures Join(a, a) == a
    ensures Join(Join(a, b), c) == Join(a, Join(b, c))
  {
    forall k | 0 <= k < 9 ensures Join(a, b)[k] == Join(b, a)[k] {
      CodeInjective(a[k], b[k]);
    }
  }
}
