/**
 * The DE-9IM matrix object: nine dimension values in a fixed array, updated
 * in place. Every operation is specified by the value of the array before and
 * after, in terms of the value-level definitions of module De9im.
 */
module IntersectionMatrices {
  import opened Optional
  import opened Dimensions
  import opened De9im

  class IntersectionMatrix {
    /** The entries in row-major order; the array object itself is never replaced. */
    const matrix: array<Dimension>

    predicate Valid()
    {
      matrix.Length == 9
    }

    /** The matrix as a value. */
    function Value(): Cells
      requires Valid()
      reads matrix
    {
      matrix[..]
    }

    /** A matrix with every entry False. */
    constructor ()
      ensures Valid() && fresh(matrix)
      ensures Value() == AllFalse
    {
      matrix := new Dimension[9];
      new;
      SetAll(False);
    }

    /** A matrix with the same entries as `other`. */
    constructor Copy(other: IntersectionMatrix)
      requires other.Valid()
      ensures Valid() && fresh(matrix)
      ensures Value() == other.Value()
    {
      matrix := new Dimension[9];
      new;
      SetAll(False);
      matrix[Index(Interior, Interior)] := other.matrix[Index(Interior, Interior)];
      matrix[Index(Interior, Boundary)] := other.matrix[Index(Interior, Boundary)];
      matrix[Index(Interior, Exterior)] := other.matrix[Index(Interior, Exterior)];
      matrix[Index(Boundary, Interior)] := other.matrix[Index(Boundary, Interior)];
      matrix[Index(Boundary, Boundary)] := other.matrix[Index(Boundary, Boundary)];
      matrix[Index(Boundary, Exterior)] := other.matrix[Index(Boundary, Exterior)];
      matrix[Index(Exterior, Interior)] := other.matrix[Index(Exterior, Interior)];
      matrix[Index(Exterior, Boundary)] := other.matrix[Index(Exterior, Boundary)];
      matrix[Index(Exterior, Exterior)] := other.matrix[Index(Exterior, Exterior)];
    }

    /**
     * A matrix read from nine symbols. When `ok` is false the string had the
     * wrong length or a character outside the alphabet, and `m` is not to be used.
     */
    static method FromSymbols(s: string) returns (m: IntersectionMatrix, ok: bool)
      ensures m.Valid() && fresh(m.matrix)
      ensures ok <==> Parse(s).Some?
      ensures ok ==> m.Value() == Parse(s).value
    {
      m := new IntersectionMatrix();
      ok := m.SetSymbols(s);
    }

    /** The entry at (row, column); fails unless both lie in [0, 3). */
    method Get(row: int, column: int) returns (d: Dimension, ok: bool)
      requires Valid()
      requires IsInt32(row) && IsInt32(column)
      ensures ok <==> InRange(row, column)
      ensures ok ==> d == Cell(Value(), row, column)
    {
      if row < 0 || row >= 3 {
        return Point, false;
      }
      if column < 0 || column >= 3 {
        return Point, false;
      }
      d, ok := matrix[Index(row, column)], true;
    }

    /** The entry at a row-major index; fails unless it lies in [0, 9). */
    method GetIndex(index: int) returns (d: Dimension, ok: bool)
      requires Valid()
      ensures ok <==> 0 <= index < 9
      ensures ok ==> d == Value()[index] && d == Cell(Value(), index / 3, index % 3)
    {
      if index < 0 || index >= 9 {
        return Point, false;
      }
      LinearIndex(index);
      d, ok := matrix[index], true;
    }

    /**
     * Overwrites the entry at position 3 * row + column, computed in Int32
     * arithmetic. Row and column are not checked one by one: the write fails
     * only when that position lies outside the array.
     */
    method Set(row: int, column: int, v: Dimension) returns (ok: bool)
      requires Valid()
      requires IsInt32(row) && IsInt32(column)
      modifies matrix
      ensures ok <==> 0 <= Position(row, column) < 9
      ensures ok ==> Value() == old(Value())[Position(row, column) := v]
      ensures !ok ==> Value() == old(Value())
    {
      var k := Position(row, column);
      if k < 0 || k >= 9 {
        return false;
      }
      matrix[k] := v;
      ok := true;
    }

    /** Sets every entry to `v`. */
    method SetAll(v: Dimension)
      requires Valid()
      modifies matrix
      ensures forall k | 0 <= k < 9 :: Value()[k] == v
    {
      for ai := 0 to 3
        invariant forall k | 0 <= k < 3 * ai :: matrix[k] == v
      {
        for bi := 0 to 3
          invariant forall k | 0 <= k < 3 * ai + bi :: matrix[k] == v
        {
          matrix[Index(ai, bi)] := v;
        }
      }
    }

    /**
     * Reads nine symbols into the matrix, entry by entry. A string that is
     * not nine code units long leaves the matrix as it was; a bad character
     * stops the update there, after the entries before it are overwritten.
     */
    method SetSymbols(s: string) returns (ok: bool)
      requires Valid()
      modifies matrix
      ensures ok <==> Parse(s).Some?
      ensures ok ==> Value() == Parse(s).value
      ensures Utf16Length(s) != 9 ==> Value() == old(Value())
      ensures Utf16Length(s) == 9 ==>
                forall k | 0 <= k < 9 ::
                  Value()[k] == if k < AcceptedPrefix(s) then ToDimensionValue(s[k]).value else old(Value())[k]
    {
      ParseByCodeUnits(s);
      if Utf16Length(s) != 9 {
        return false;
      }
      // Before the first character outside the Basic Multilingual Plane, code
      // units and characters coincide; such a character is never a symbol.
      for i := 0 to |s|
        invariant i <= AcceptedPrefix(s)
        invariant forall k | 0 <= k < 9 ::
                    matrix[k] == if k < i then ToDimensionValue(s[k]).value else old(matrix[k])
      {
        var row, column := i / 3, i % 3;
        var d := ToDimensionValue(s[i]);
        if d.None? {
          return false;
        }
        LinearIndex(i);
        var k := Index(row, column);
        assert k == i;
        matrix[k] := d.value;
      }
      ok := true;
    }

    /** Raises the entry at (row, column) to `minimum` when its code is lower; fails unless both lie in [0, 3). */
    method SetAtLeast(row: int, column: int, minimum: Dimension) returns (ok: bool)
      requires Valid()
      requires IsInt32(row) && IsInt32(column)
      modifies matrix
      ensures ok <==> InRange(row, column)
      ensures ok ==> Value() == old(Value())[Index(row, column) := AtLeast(old(Value())[Index(row, column)], minimum)]
      ensures !ok ==> Value() == old(Value())
    {
      var current;
      current, ok := Get(row, column);
      if !ok {
        return;
      }
      if Code(current) < Code(minimum) {
        matrix[Index(row, column)] := minimum;
      }
    }

    /** As SetAtLeast, but a negative row or column (a location that does not apply) is skipped without failing. */
    method SetAtLeastIfValid(row: int, column: int, minimum: Dimension) returns (ok: bool)
      requires Valid()
      requires IsInt32(row) && IsInt32(column)
      modifies matrix
      ensures ok <==> row < 0 || column < 0 || InRange(row, column)
      ensures InRange(row, column) ==>
                Value() == old(Value())[Index(row, column) := AtLeast(old(Value())[Index(row, column)], minimum)]
      ensures !InRange(row, column) ==> Value() == old(Value())
    {
      if row >= Interior && column >= Interior {
        ok := SetAtLeast(row, column, minimum);
      } else {
        ok := true;
      }
    }

    /**
     * Raises every entry to the value of the corresponding symbol when its
     * code is lower. A string that is not nine code units long leaves the
     * matrix as it was; a bad character stops the update there, after the
     * entries before it are raised.
     */
    method SetAtLeastSymbols(s: string) returns (ok: bool)
      requires Valid()
      modifies matrix
      ensures ok <==> Parse(s).Some?
      ensures ok ==> Value() == Join(old(Value()), Parse(s).value)
      ensures Utf16Length(s) != 9 ==> Value() == old(Value())
      ensures Utf16Length(s) == 9 ==>
                forall k | 0 <= k < 9 ::
                  Value()[k] == if k < AcceptedPrefix(s) then AtLeast(old(Value())[k], ToDimensionValue(s[k]).value)
                                else old(Value())[k]
    {
      ParseByCodeUnits(s);
      if Utf16Length(s) != 9 {
        return false;
      }
      for i := 0 to |s|
        invariant i <= AcceptedPrefix(s)
        invariant forall k | 0 <= k < 9 ::
                    matrix[k] == if k < i then AtLeast(old(matrix[k]), ToDimensionValue(s[k]).value) else old(matrix[k])
      {
        var row, column := i / 3, i % 3;
        var d := ToDimensionValue(s[i]);
        if d.None? {
          return false;
        }
        LinearIndex(i);
        assert Index(row, column) == i;
        var _ := SetAtLeast(row, column, d.value);
      }
      ok := true;
    }

    /** Adds `im` entry by entry: each entry becomes the larger of the two by code. `im` itself is only read. */
    method Add(im: IntersectionMatrix)
      requires Valid() && im.Valid()
      modifies matrix
      ensures Value() == Join(old(Value()), old(im.Value()))
      ensures im.matrix != matrix ==> im.Value() == old(im.Value())
    {
      ghost var other := im.Value();
      for i := 0 to 3
        invariant forall k | 0 <= k < 9 ::
                    matrix[k] == if k < 3 * i then AtLeast(old(matrix[k]), other[k]) else old(matrix[k])
        invariant im.matrix != matrix ==> im.Value() == other
      {
        for j := 0 to 3
          invariant forall k | 0 <= k < 9 ::
                      matrix[k] == if k < 3 * i + j then AtLeast(old(matrix[k]), other[k]) else old(matrix[k])
          invariant im.matrix != matrix ==> im.Value() == other
        {
          var d, _ := im.Get(i, j);
          var _ := SetAtLeast(i, j, d);
        }
      }
    }

    /**
     * Whether every entry satisfies the template symbol at its position;
     * fails unless the template is nine code units long. A template that is
     * nine code units long but holds a character outside the Basic
     * Multilingual Plane never matches.
     */
    method Matches(required: string) returns (r: bool, ok: bool)
      requires Valid()
      ensures ok <==> Utf16Length(required) == 9
      ensures ok ==> (r <==> |required| == 9 && De9im.Matches(Value(), required))
    {
      if Utf16Length(required) != 9 {
        return false, false;
      }
      ok := true;
      // Before the first character outside the Basic Multilingual Plane, code
      // units and characters coincide; that character's first code unit, a
      // surrogate, matches no symbol, just as the character itself does not.
      for ai := 0 to 3
        invariant forall k | 0 <= k < 3 * ai :: k < |required| && MatchesSymbol(matrix[k], required[k])
      {
        for bi := 0 to 3
          invariant forall k | 0 <= k < 3 * ai + bi :: k < |required| && MatchesSymbol(matrix[k], required[k])
        {
          var k := Index(ai, bi);
          forall j | 0 <= j < k ensures IsBmp(required[j]) {
            SymbolIsBmp(required[j]);
          }
          if !MatchesSymbol(matrix[k], required[k]) {
            assert Value()[k] == matrix[k];
            return false, true;
          }
        }
      }
      r := true;
    }

    /** Reads nine symbols into a new matrix and matches it against a template; fails if either step fails. */
    static method MatchesSymbols(actual: string, required: string) returns (r: bool, ok: bool)
      ensures ok <==> Parse(actual).Some? && Utf16Length(required) == 9
      ensures ok ==> (r <==> |required| == 9 && De9im.Matches(Parse(actual).value, required))
    {
      var m, parsed := FromSymbols(actual);
      if !parsed {
        return false, false;
      }
      r, ok := m.Matches(required);
    }

    /** Swaps each entry off the diagonal with its mirror image and returns this same matrix. */
    method Transpose() returns (r: IntersectionMatrix)
      requires Valid()
      modifies matrix
      ensures r == this
      ensures Value() == Transposed(old(Value()))
    {
      var temp := matrix[Index(1, 0)];
      matrix[Index(1, 0)] := matrix[Index(0, 1)];
      matrix[Index(0, 1)] := temp;

      temp := matrix[Index(2, 0)];
      matrix[Index(2, 0)] := matrix[Index(0, 2)];
      matrix[Index(0, 2)] := temp;

      temp := matrix[Index(2, 1)];
      matrix[Index(2, 1)] := matrix[Index(1, 2)];
      matrix[Index(1, 2)] := temp;

      r := this;
    }

    /** The nine symbols of the matrix in row-major order. */
    method ToString() returns (s: string)
      requires Valid()
      ensures s == Encode(Value())
    {
      var buf := "123456789";
      for ai := 0 to 3
        invariant |buf| == 9
        invariant forall k | 0 <= k < 3 * ai :: buf[k] == ToDimensionSymbol(matrix[k])
      {
        for bi := 0 to 3
          invariant |buf| == 9
          invariant forall k | 0 <= k < 3 * ai + bi :: buf[k] == ToDimensionSymbol(matrix[k])
        {
          buf := buf[Index(ai, bi) := ToDimensionSymbol(matrix[Index(ai, bi)])];
        }
      }
      s := buf;
    }

    /** Entry-by-entry equality; a missing matrix is never equal. */
    method Equals(other: IntersectionMatrix?) returns (r: bool)
      requires Valid()
      requires other != null ==> other.Valid()
      ensures r <==> other != null && other.Value() == Value()
    {
      if other == null {
        return false;
      }
      for i := 0 to matrix.Length
        invariant forall k | 0 <= k < i :: matrix[k] == other.matrix[k]
      {
        if matrix[i] != other.matrix[i] {
          assert Value()[i] != other.Value()[i];
          return false;
        }
      }
      r := true;
    }
  }
}
