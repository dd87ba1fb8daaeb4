# DE-9IM intersection matrix

This project models the Dimensionally Extended Nine-Intersection Model (DE-9IM) matrix of GeoAPI.Net and proves properties of it. It follows the OpenGIS Simple Features Specification for SQL, section 2.1.13.2. The matrix records, for two geometries A and B, the dimension of the intersection of the interior, boundary and exterior of A with those of B. Rows belong to A and columns to B. Both are indexed Interior = 0, Boundary = 1, Exterior = 2, and the nine entries are kept in row-major order.

The project has four modules:

- `Dimensions` (`dimensions.dfy`) holds the six dimension values and their integer codes: Point = 0, Curve = 1, Surface = 2, False = -1, True = -2, Dontcare = -3. It also holds the conversion between values and the symbols `T F * 0 1 2`. Reading a symbol upper-cases it first, so `t` and `f` are accepted. `Optional` is the Option type used for failures.
- `De9im` (`de9im.dfy`) holds a matrix as a value: `Cells` is a sequence of nine dimensions. This module has the nine-character string form (`Encode`, `Decode`, `Parse`) and single-cell and whole-matrix template matching (`MatchesSymbol`, `Matches`). It also has transposition and the entry-by-entry maximum by integer code (`AtLeast`, `Join`), which `Add` and `SetAtLeast` use.
- `SpatialPredicates` (`predicates.dfy`) defines disjoint, intersects, touches, crosses, within, contains, covers, equals and overlaps as the same entry tests the source makes. Each one is then proved equal to matching the DE-9IM pattern it stands for, such as `T*F**F***` for within. Relations between the predicates are proved as well.
- `IntersectionMatrices` (`intersection_matrix.dfy`) holds the class `IntersectionMatrix`. It keeps the entries in a fixed `array<Dimension>` of length 9. Its methods update that array in place with the same loops, swaps and early returns as the source. Each method relates the array's new value to its old value through the `De9im` definitions.

Failures (the source's exceptions) are an `ok: bool` result on methods and `None` on functions. Every method that changes the matrix states its whole new value on failure too. A failed length or coordinate check changes nothing. A bad character part-way through a symbol string leaves the entries before it written, and only those.

Strings are sequences of Unicode scalar values, but .NET measures `String.Length` in UTF-16 code units. A character outside the Basic Multilingual Plane counts as two code units there. The length tests of `Set(String)`, `SetAtLeast(String)` and `Matches(String)` are therefore modelled with `Utf16Length`. Until the first such character, code units and characters coincide. That character's first code unit is a surrogate, which is not a symbol and matches no template symbol. So `SetSymbols("TTTTTTT😀")` overwrites seven entries and then fails, and `Matches("T*******😀")` fails, because the template is ten code units long.

Comparisons use the raw integer codes, as the code does. `SetAtLeast`, `Add` and the `T` test therefore rank Dontcare < True < False < Point < Curve < Surface. The comment on `SetAtLeast(Locations, Locations, Dimensions)` gives a different order. The comment on `SetAtLeast(String)` agrees with the codes. This model follows the code.

Three consequences of the code that a reader of the DE-9IM standard might not expect, kept as the code has them:

- The string form is not a strict inverse of parsing: `t` and `f` are accepted when reading, and printing gives `T` and `F` (`ParsePrint`).
- A valid symbol string used as its own template matches the matrix it denotes only if it has no lower-case letter. Matching compares symbols without upper-casing them (`SelfTemplate`).
- The predicates that take dimensions accept any dimension value. For pairs they do not list they return false rather than rejecting the input (`TouchesPattern`, `CrossesPattern`, `OverlapsPattern`).

The public `Set(row, column, value)` writes the position `row * 3 + column` through a private setter. That position is computed in unchecked Int32 arithmetic, which wraps around (`Position`). The setter does not check row and column one by one, and only a position outside [0, 9) fails. So `Set(1, -1, v)` overwrites entry (0, 2), and `Set(1431655765, 1, v)` overwrites entry (0, 0), because `3 * 1431655765` wraps to -1 (`PositionWraps`). The getters do check each coordinate, so `Get` and `SetAtLeast` fail for any row or column outside [0, 3). `SetAtLeastIfValid` skips negative coordinates, but coordinates of 3 or more still reach the failing getter.

The `Dimensions` enumeration and `DimensionTypeConverter` used by `IntersectionMatrix.cs` are not part of this model. Their integer codes and symbol conversion are taken from `tags/v1.4/src/GeoAPI/Geometries/Dimension.cs`. `Locations` is not part of this model either. Every method that takes a row and a column casts them to `Int32` (:295, :432), so `Get`, `Set`, `SetAtLeast` and `SetAtLeastIfValid` take integers in the Int32 range. That is `IsInt32(row) && IsInt32(column)` in their preconditions.

## Model

| member | source | states |
|---|---|---|
| `Dimensions.ToUpper` | tags/v1.4/src/GeoAPI/Geometries/Dimension.cs:92 | lower-case ASCII letters map to their upper-case forms and every other character is left alone |
| `Dimensions.ToDimensionSymbol` | tags/v1.4/src/GeoAPI/Geometries/Dimension.cs:60-79 | the symbol of every value is one of `TF*012` and is its own upper-case form |
| `Dimensions.ToDimensionValue` | tags/v1.4/src/GeoAPI/Geometries/Dimension.cs:90-109 | a character is accepted exactly when its upper-case form is one of the six symbols; any other character fails |
| `Dimensions.Code` | tags/v1.4/src/GeoAPI/Geometries/Dimension.cs:13-44 | the integer code of each of the six values (no ensures of its own; its order is stated by `CodesAscend` and `CodeInjective`) |
| `Dimensions.CodesAscend` | tags/v1.4/src/GeoAPI/Geometries/Dimension.cs:13-44 | the six values listed Dontcare, True, False, Point, Curve, Surface have codes -3 to 2 in that order, and the list holds every value |
| `Dimensions.CodeInjective` | tags/v1.4/src/GeoAPI/Geometries/Dimension.cs:13-44 | two values have the same code exactly when they are the same value |
| `Dimensions.SymbolRoundTrip` | tags/v1.4/src/GeoAPI/Geometries/Dimension.cs:60-110 | reading the symbol of any value gives that value back |
| `Dimensions.ValueRoundTrip` | tags/v1.4/src/GeoAPI/Geometries/Dimension.cs:60-110 | for every accepted character, the symbol of its value is the character upper-cased |
| `Dimensions.DecodingIgnoresCase` | tags/v1.4/src/GeoAPI/Geometries/Dimension.cs:90-105 | a character and its upper-case form read as the same value; `t` is True and `f` is False |
| `Dimensions.AcceptedCharacters` | tags/v1.4/src/GeoAPI/Geometries/Dimension.cs:90-109 | exactly the eight characters `T F * 0 1 2 t f` are accepted |
| `De9im.Wrap32` | branches/v2.11b/src/GeoAPI/Geometries/IntersectionMatrix.cs:144 | the result is a signed 32-bit value that agrees with its input modulo 2^32, so it is the wrap-around of the input; a value that already is one is left alone |
| `De9im.Position` | branches/v2.11b/src/GeoAPI/Geometries/IntersectionMatrix.cs:142-145 | the position the private setter writes is a signed 32-bit value that agrees with `3 * row + column` modulo 2^32 |
| `De9im.PositionWithoutOverflow` | branches/v2.11b/src/GeoAPI/Geometries/IntersectionMatrix.cs:144 | when neither `row * 3` nor the sum overflows, the position is the row-major index 3 * row + column |
| `De9im.PositionWraps` | branches/v2.11b/src/GeoAPI/Geometries/IntersectionMatrix.cs:293-296 | `(1431655765, 1)` lands on entry (0, 0) after wrap-around, and `(1, -1)` lands on entry (0, 2) |
| `De9im.LinearIndex` | branches/v2.11b/src/GeoAPI/Geometries/IntersectionMatrix.cs:314-319 | each linear index i in [0, 9) names the entry at row i / 3 and column i % 3 |
| `De9im.IndexOfCell` | branches/v2.11b/src/GeoAPI/Geometries/IntersectionMatrix.cs:140 | each in-range (row, column) has a linear index in [0, 9) from which row and column are recovered |
| `De9im.Encode` | branches/v2.11b/src/GeoAPI/Geometries/IntersectionMatrix.cs:718-731 | the string form has one character per entry, and each character is the symbol of its entry |
| `De9im.Decode` | branches/v2.11b/src/GeoAPI/Geometries/IntersectionMatrix.cs:314-319 | reading succeeds exactly when every character is accepted, and then gives one value per character |
| `De9im.Parse` | branches/v2.11b/src/GeoAPI/Geometries/IntersectionMatrix.cs:306-320 | a matrix string is read only when it has exactly nine accepted characters; entry k is the value of character k |
| `De9im.Utf16Length` | branches/v2.11b/src/GeoAPI/Geometries/IntersectionMatrix.cs:308 | the length .NET reports is at least the number of characters, and equal to it exactly when every character lies in the Basic Multilingual Plane |
| `De9im.AcceptedPrefix` | branches/v2.11b/src/GeoAPI/Geometries/IntersectionMatrix.cs:314-319 | the result counts the leading characters that are symbols: all before it are accepted, and the character at it, if any, is not |
| `De9im.SymbolIsBmp` | tags/v1.4/src/GeoAPI/Geometries/Dimension.cs:90-109 | every accepted character and every template symbol is a single UTF-16 code unit |
| `De9im.ParseByCodeUnits` | branches/v2.11b/src/GeoAPI/Geometries/IntersectionMatrix.cs:306-320 | a string parses exactly when it is nine code units long and every character is a symbol |
| `De9im.EncodeDecode` | branches/v2.11b/src/GeoAPI/Geometries/IntersectionMatrix.cs:306-320 | reading the symbols of any sequence of values gives the sequence back |
| `De9im.DecodeEncode` | branches/v2.11b/src/GeoAPI/Geometries/IntersectionMatrix.cs:718-731 | printing what was read from a string gives the string upper-cased |
| `De9im.ParsePrint` | branches/v2.11b/src/GeoAPI/Geometries/IntersectionMatrix.cs:306-320 | a parsed matrix prints as its input upper-cased; every matrix prints as nine characters and parses back to itself |
| `De9im.AllFalsePrints` | branches/v2.11b/src/GeoAPI/Geometries/IntersectionMatrix.cs:94-98 | the matrix a new object starts with prints as `FFFFFFFFF` |
| `De9im.MatchesSymbol` | branches/v2.11b/src/GeoAPI/Geometries/IntersectionMatrix.cs:228-257 | `*` matches every value; `T` matches exactly True, Point, Curve and Surface; `F`, `0`, `1`, `2` match only the value with that symbol; any other character matches nothing |
| `De9im.Matches` | branches/v2.11b/src/GeoAPI/Geometries/IntersectionMatrix.cs:675-686 | whether every entry satisfies the template character at its position (no ensures of its own; the method `Matches` is proved to compute it, and each predicate is proved equal to one such match) |
| `De9im.MatchesUnrolled` | branches/v2.11b/src/GeoAPI/Geometries/IntersectionMatrix.cs:675-686 | a template matches exactly when each of the nine entries matches the template character at its position |
| `De9im.MatchesOwnSymbol` | branches/v2.11b/src/GeoAPI/Geometries/IntersectionMatrix.cs:228-257 | every value matches its own symbol, and each of `F 0 1 2` is matched exactly by the value whose symbol it is |
| `De9im.MatchesWildcard` | branches/v2.11b/src/GeoAPI/Geometries/IntersectionMatrix.cs:228-233 | the template `*********` matches every matrix |
| `De9im.MatchesOwnString` | branches/v2.11b/src/GeoAPI/Geometries/IntersectionMatrix.cs:663-731 | every matrix matches its own string form |
| `De9im.SelfTemplate` | branches/v2.11b/src/GeoAPI/Geometries/IntersectionMatrix.cs:275-279 | a valid matrix string used as its own template matches exactly when it contains no lower-case letter |
| `De9im.Transposed` | branches/v2.11b/src/GeoAPI/Geometries/IntersectionMatrix.cs:693-708 | entry (row, column) of the transpose is entry (column, row) of the matrix |
| `De9im.TransposeInvolution` | branches/v2.11b/src/GeoAPI/Geometries/IntersectionMatrix.cs:693-708 | transposing twice restores the matrix, and the three diagonal entries never move |
| `De9im.AtLeast` | branches/v2.11b/src/GeoAPI/Geometries/IntersectionMatrix.cs:343-349 | the result is one of the two values and its code is at least the code of each |
| `De9im.Join` | branches/v2.11b/src/GeoAPI/Geometries/IntersectionMatrix.cs:202-211 | the entry-by-entry larger of two matrices (no ensures of its own; `JoinIsMaximum` and `JoinLaws` state its properties, and `Add` is proved to compute it) |
| `De9im.JoinIsMaximum` | branches/v2.11b/src/GeoAPI/Geometries/IntersectionMatrix.cs:196-211 | each entry of a sum is one of the two entries and its code is at least the code of each |
| `De9im.JoinLaws` | branches/v2.11b/src/GeoAPI/Geometries/IntersectionMatrix.cs:196-211 | adding is commutative and associative, and adding an equal matrix changes nothing |
| `SpatialPredicates.IsDisjoint` | branches/v2.11b/src/GeoAPI/Geometries/IntersectionMatrix.cs:451-458 | II, IB, BI and BB are all False; equal to the pattern `FF*FF****` by `DisjointPattern` (no ensures of its own) |
| `SpatialPredicates.IsIntersects` | branches/v2.11b/src/GeoAPI/Geometries/IntersectionMatrix.cs:467-470 | the negation of disjoint; `DisjointPattern` gives its pattern form (no ensures of its own) |
| `SpatialPredicates.IsTouches` | branches/v2.11b/src/GeoAPI/Geometries/IntersectionMatrix.cs:484-505 | dimension pairs are put in ascending order of code, the five listed pairs test II False and one of IB, BI, BB matching `T`, and every other pair is false; `TouchesPattern` gives its pattern form (no ensures of its own) |
| `SpatialPredicates.IsCrosses` | branches/v2.11b/src/GeoAPI/Geometries/IntersectionMatrix.cs:525-549 | the three lower-then-higher pairs, the three higher-then-lower pairs and two curves each make their own entry tests, and every other pair is false; `CrossesPattern` gives its pattern form (no ensures of its own) |
| `SpatialPredicates.IsWithin` | branches/v2.11b/src/GeoAPI/Geometries/IntersectionMatrix.cs:556-561 | II matches `T` and IE and BE are False; `WithinPattern` gives its pattern form (no ensures of its own) |
| `SpatialPredicates.IsContains` | branches/v2.11b/src/GeoAPI/Geometries/IntersectionMatrix.cs:568-573 | II matches `T` and EI and EB are False; `ContainsPattern` gives its pattern form (no ensures of its own) |
| `SpatialPredicates.IsCovers` | branches/v2.11b/src/GeoAPI/Geometries/IntersectionMatrix.cs:580-590 | one of II, IB, BI, BB matches `T` and EI and EB are False; `CoversPattern` gives its pattern form (no ensures of its own) |
| `SpatialPredicates.IsEquals` | branches/v2.11b/src/GeoAPI/Geometries/IntersectionMatrix.cs:603-615 | different dimensions are never equal; otherwise II matches `T` and EI, IE, EB, BE are False; `EqualsPattern` gives its pattern form (no ensures of its own) |
| `SpatialPredicates.IsOverlaps` | branches/v2.11b/src/GeoAPI/Geometries/IntersectionMatrix.cs:630-648 | two points or two surfaces, and two curves each make their own entry tests, and every other pair is false; `OverlapsPattern` gives its pattern form (no ensures of its own) |
| `SpatialPredicates.DisjointPattern` | branches/v2.11b/src/GeoAPI/Geometries/IntersectionMatrix.cs:444-470 | disjoint is the pattern `FF*FF****`; intersects is its negation, i.e. one of II, IB, BI, BB is not False |
| `SpatialPredicates.TouchesPattern` | branches/v2.11b/src/GeoAPI/Geometries/IntersectionMatrix.cs:472-505 | touches holds exactly for two shape dimensions that are not both points and a matrix matching `FT*******`, `F**T*****` or `F***T****` |
| `SpatialPredicates.TouchesSymmetric` | branches/v2.11b/src/GeoAPI/Geometries/IntersectionMatrix.cs:484-490 | touches gives the same answer with the two dimensions swapped and is false for two points |
| `SpatialPredicates.TouchesTransposed` | branches/v2.11b/src/GeoAPI/Geometries/IntersectionMatrix.cs:486-490 | touches gives the same answer on the transposed matrix |
| `SpatialPredicates.CrossesPattern` | branches/v2.11b/src/GeoAPI/Geometries/IntersectionMatrix.cs:507-549 | crosses is `T*T******` when the first dimension is lower, `T*****T**` when it is higher, `0********` for two curves, and false for other pairs |
| `SpatialPredicates.CrossesConverse` | branches/v2.11b/src/GeoAPI/Geometries/IntersectionMatrix.cs:525-549 | A crosses B exactly when B crosses A on the transposed matrix |
| `SpatialPredicates.WithinPattern` | branches/v2.11b/src/GeoAPI/Geometries/IntersectionMatrix.cs:551-561 | within is the pattern `T*F**F***` |
| `SpatialPredicates.ContainsPattern` | branches/v2.11b/src/GeoAPI/Geometries/IntersectionMatrix.cs:563-573 | contains is the pattern `T*****FF*` and equals within of the transposed matrix |
| `SpatialPredicates.CoversPattern` | branches/v2.11b/src/GeoAPI/Geometries/IntersectionMatrix.cs:575-590 | covers is one of `T*****FF*`, `*T****FF*`, `***T**FF*`, `****T*FF*`; contains implies covers |
| `SpatialPredicates.EqualsPattern` | branches/v2.11b/src/GeoAPI/Geometries/IntersectionMatrix.cs:592-615 | equals is `T*F**FFF*` for equal dimensions and false for different ones; it is within together with contains, and unchanged by transposition |
| `SpatialPredicates.OverlapsPattern` | branches/v2.11b/src/GeoAPI/Geometries/IntersectionMatrix.cs:617-648 | overlaps is `T*T***T**` for two points or two surfaces, `1*T***T**` for two curves, false for different dimensions, and A overlaps B exactly when B overlaps A on the transposed matrix |
| `IntersectionMatrices.IntersectionMatrix.constructor` | branches/v2.11b/src/GeoAPI/Geometries/IntersectionMatrix.cs:94-98 | a new matrix has all nine entries False, in an array of its own |
| `IntersectionMatrices.IntersectionMatrix.Copy` | branches/v2.11b/src/GeoAPI/Geometries/IntersectionMatrix.cs:173-194 | a copy has the same nine entries as the original, in an array of its own |
| `IntersectionMatrices.IntersectionMatrix.FromSymbols` | branches/v2.11b/src/GeoAPI/Geometries/IntersectionMatrix.cs:105-109 | building from a string succeeds exactly when it parses, and the matrix then holds the parsed entries |
| `IntersectionMatrices.IntersectionMatrix.Get` | branches/v2.11b/src/GeoAPI/Geometries/IntersectionMatrix.cs:124-141 | reading (row, column) fails exactly when row or column is outside [0, 3), and otherwise gives that entry |
| `IntersectionMatrices.IntersectionMatrix.GetIndex` | branches/v2.11b/src/GeoAPI/Geometries/IntersectionMatrix.cs:154-165 | reading linear index i fails exactly when i is outside [0, 9), and otherwise gives the entry at row i / 3, column i % 3 |
| `IntersectionMatrices.IntersectionMatrix.Set` | branches/v2.11b/src/GeoAPI/Geometries/IntersectionMatrix.cs:142-145 | writing (row, column) replaces only the entry at the Int32-wrapped position `row * 3 + column`, and fails, changing nothing, when that position is outside [0, 9) |
| `IntersectionMatrices.IntersectionMatrix.SetAll` | branches/v2.11b/src/GeoAPI/Geometries/IntersectionMatrix.cs:406-415 | every entry becomes the given value |
| `IntersectionMatrices.IntersectionMatrix.SetSymbols` | branches/v2.11b/src/GeoAPI/Geometries/IntersectionMatrix.cs:306-320 | succeeds exactly when the string parses, and the matrix then holds the parsed entries; a string that is not nine code units long changes nothing; otherwise exactly the entries before the first non-symbol character are overwritten with their values |
| `IntersectionMatrices.IntersectionMatrix.SetAtLeast` | branches/v2.11b/src/GeoAPI/Geometries/IntersectionMatrix.cs:343-349 | the entry at (row, column) becomes the larger of itself and the given value by code, the other eight are unchanged, and an out-of-range coordinate fails without change |
| `IntersectionMatrices.IntersectionMatrix.SetAtLeastIfValid` | branches/v2.11b/src/GeoAPI/Geometries/IntersectionMatrix.cs:364-370 | a negative row or column changes nothing and succeeds; otherwise it behaves as SetAtLeast |
| `IntersectionMatrices.IntersectionMatrix.SetAtLeastSymbols` | branches/v2.11b/src/GeoAPI/Geometries/IntersectionMatrix.cs:382-397 | succeeds exactly when the string parses, and every entry then becomes the larger of itself and the parsed entry; a string that is not nine code units long changes nothing; otherwise exactly the entries before the first non-symbol character are raised |
| `IntersectionMatrices.IntersectionMatrix.Add` | branches/v2.11b/src/GeoAPI/Geometries/IntersectionMatrix.cs:202-211 | every entry becomes the larger of itself and the corresponding entry of the argument, also when the argument is this matrix; a distinct argument is unchanged |
| `IntersectionMatrices.IntersectionMatrix.Matches` | branches/v2.11b/src/GeoAPI/Geometries/IntersectionMatrix.cs:663-687 | fails exactly for a template that is not nine code units long, and otherwise answers whether the template has nine characters and every entry matches its template character |
| `IntersectionMatrices.IntersectionMatrix.MatchesSymbols` | branches/v2.11b/src/GeoAPI/Geometries/IntersectionMatrix.cs:275-279 | fails exactly when the actual string does not parse or the template is not nine code units long, and otherwise answers whether the template has nine characters and the parsed matrix matches it |
| `IntersectionMatrices.IntersectionMatrix.Transpose` | branches/v2.11b/src/GeoAPI/Geometries/IntersectionMatrix.cs:693-708 | the new matrix is the transpose of the old one, and the result is this same object |
| `IntersectionMatrices.IntersectionMatrix.ToString` | branches/v2.11b/src/GeoAPI/Geometries/IntersectionMatrix.cs:718-731 | the result is the string form of the matrix: nine symbols in row-major order |
| `IntersectionMatrices.IntersectionMatrix.Equals` | branches/v2.11b/src/GeoAPI/Geometries/IntersectionMatrix.cs:735-751 | true exactly when the other matrix is present and has the same nine entries |

The indexer `this[Locations, Locations]` reads through `Get` and writes through `Set`, so it is covered by those two rows.

## Left out

- `Equals(Object)` with its type test is not modelled. Dafny has no untyped objects; `Equals` takes a possibly-null `IntersectionMatrix`.
- The null check on the template of `Matches(String)` is not modelled, because Dafny strings cannot be null.
- Exception types and message texts are not modelled; the model distinguishes only failure from success.
- IntersectionMatrices.IntersectionMatrix.FromSymbols: on failure it still returns a matrix that callers must not use. The source's constructor throws instead and yields no object.
- Dimensions.ToUpper: models upper-casing for ASCII letters only; no other character upper-cases into the symbol alphabet, so the set of accepted characters is the same.
- Enumeration values outside the six dimension codes cannot occur in the model, so the failing default branch of `ToDimensionSymbol` is not modelled.
- Concurrency is not modelled, because the matrix has no synchronisation of its own.
- Computing a matrix from actual geometries is not part of this model.
- The interval types, the immutable set wrapper, the casting iterators and the geometry and coordinate interfaces of the repository are not part of this model. They are floating-point code, thin wrappers or declarations without behaviour.
