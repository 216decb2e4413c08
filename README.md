# Roses field: garden enumeration and runner input conversion

This project models the core of a small rose-garden planner:

- A **field** is a grid of `field_height` rows by `field_width` columns.
- Some of its cells are already purchased.
- Some cells grow roses, and some cells have a cost.
- A **garden** is a `garden_height` by `garden_width` rectangle of cells.

The model covers these parts:

- **`RosesField`** (module `Roses`, file `roses_field.dfy`) is a class. Its constructor stores its seven arguments.
- **`FindAllPotentialGardens`** lists, in row-major order, every top-left corner at which the garden fits inside the field. It is a method with nested loops over `range(field_height - garden_height + 1)` and `range(field_width - garden_width + 1)`.
- **`Corners(rows, cols)`** is the method's specification: a recursive function that gives the corners the loops append.
- **Lemmas** about `Corners` prove:
  - bounds and completeness;
  - the length, and that the list is empty when the garden is larger than the field;
  - strict row-major order, and so no repeats;
  - that every listed garden lies inside the field.
- **The example field** of the module (module `RosesFixture`, file `roses_fixture.dfy`) has 6 rows by 4 columns and a 3 by 3 garden. The model builds it and proves that it has exactly eight corners.
- **The test runner's input conversions** (module `RunFields`, file `run_fields.dfy`):
  - `parse_location_dict` turns JSON keys such as `"3,2"` into integer tuples. It is modelled with `str.split` (`Split`), `int()` (`ParseInt`, with `ValueError` as `Failure(InvalidLiteral(..))`), `tuple(map(int, ...))` (`ParseInts`, `ParseKey`) and the dict comprehension (`Comprehension`, `ParseLocationDict`).
  - The list of purchased squares becomes a list of pairs (`PurchasedSquareTuples`).

Representation choices:

- A Python tuple of any length is a `seq<int>`.
- A cell `(row, col)` is the Dafny tuple `(int, int)`.
- A Python dict given to `parse_location_dict` is the sequence of its items, in insertion order. So when two keys give the same tuple, the later item wins, as in the comprehension.
- The comprehension is defined over any key function. Its lemmas are proved once at that level and then applied with `ParseKey`.

## Model

| member | source | states |
|---|---|---|
| Roses.RosesField.constructor | roses_field.py:53-65 | each of the seven fields holds the argument of the same name, unchanged |
| Roses.RosesField.FindAllPotentialGardens | roses_field.py:68-74 | the returned list is `Corners(fieldHeight - gardenHeight + 1, fieldWidth - gardenWidth + 1)`, the corners in the order the nested loops append them; no field is modified |
| Roses.PotentialGardens | roses_field.py:68-74 | for any field and garden shape, the enumeration holds a corner iff `0 <= row <= fieldHeight - gardenHeight` and `0 <= col <= fieldWidth - gardenWidth`; its length is the product of the two range lengths; it is empty when the garden is taller or wider than the field; it is strictly row-major and holds no corner twice; every cell of every listed garden lies in the field |
| Roses.RowCorners | roses_field.py:72-73 | the corners `(row, 0), ..., (row, cols - 1)` that one pass of the inner loop appends, in order; no contract of its own, its properties are `RowCornersAt` and `RowCornersMembership` |
| Roses.Corners | roses_field.py:70-73 | the list the nested loops build: the rows `0 .. rows - 1` in order, each contributing its `RowCorners`; no contract of its own, its properties are the lemmas below and `PotentialGardens` |
| Roses.RowCornersAt | roses_field.py:72-73 | one pass of the inner loop appends `RangeLength(cols)` corners, the k-th being `(row, k)` |
| Roses.RowCornersMembership | roses_field.py:72-73 | one pass of the inner loop appends exactly the cells `(row, c)` with `0 <= c < cols` |
| Roses.CornersMembership | roses_field.py:71-73 | the nested loops append a cell iff it lies in `[0, rows) x [0, cols)` (bounds and completeness) |
| Roses.CornersLength | roses_field.py:71-73 | the nested loops append `RangeLength(rows) * RangeLength(cols)` corners, so none when either range is empty |
| Roses.CornersRowMajor | roses_field.py:71-73 | each appended corner comes strictly after all earlier ones in row-major order |
| Roses.RowMajorDistinct | roses_field.py:70-74 | a strictly row-major list holds no corner twice |
| Roses.CornersGardenInField | roses_field.py:68-73 | a garden placed at any listed corner is a sub-rectangle of the field |
| RosesFixture.FixtureCorners | roses_field.py:5-9 | for the example shape (6 rows, 4 columns, 3 by 3 garden) the enumeration is `(0,0), (0,1), (1,0), (1,1), (2,0), (2,1), (3,0), (3,1)` |
| RosesFixture.FixtureGardens | roses_field.py:86-93 | the example field built from the module's fixture data yields exactly those eight corners |
| RunFields.Split | run_fields.py:8 | `str.split` always yields at least one part |
| RunFields.SplitParts | run_fields.py:8 | `k.split(',')` yields one part more than there are commas, and no part contains a comma |
| RunFields.JoinSplit | run_fields.py:8 | joining the parts with the separator gives back the key |
| RunFields.SplitPair | run_fields.py:8 | two comma-free strings joined by a comma split back into exactly those two strings |
| RunFields.SplitFree | run_fields.py:8 | a comma-free key splits into the single part that is the key |
| RunFields.ParseInt | run_fields.py:8 | `int(s)` on the modelled characters: succeeds iff `s` is an optional `-` followed by digits, and otherwise fails with a `ValueError` naming `s`; a negative value comes only from a leading `-` |
| RunFields.NatToString | run_fields.py:8 | reference side of the key round trip (line 8 itself calls no `str()`): `str(n)` of a natural number, the form the runner's JSON keys are written in: a non-empty run of digits, without a leading zero unless `n` is zero |
| RunFields.IntToString | run_fields.py:8 | reference side of the key round trip (line 8 itself calls no `str()`): `str(i)`, non-empty, and it starts with `-` exactly when `i` is negative |
| RunFields.NatToStringDigits | run_fields.py:8 | `str(n)` of a natural number is a non-empty run of digits whose decimal value is `n` |
| RunFields.Numeral | run_fields.py:8 | a run of digits is accepted by `int()`, giving its decimal value |
| RunFields.NegativeNumeral | run_fields.py:8 | a run of digits after `-` is accepted by `int()`, giving the negated value |
| RunFields.IntRoundTrip | run_fields.py:8 | in the model, `int(str(i)) == i` for every integer (CPython's digit limit aside, see below), and `str(i)` has no comma |
| RunFields.ParseInts | run_fields.py:8 | `tuple(map(int, parts))`: the components in part order, the first failing part raising; no contract of its own, its properties are `ParseIntsSpec` |
| RunFields.ParseIntsSpec | run_fields.py:8 | on the modelled characters, `tuple(map(int, parts))` succeeds iff every part is an integer literal; it then has one component per part, each that part's value; otherwise the error names the first part that is not a literal |
| RunFields.ParseKey | run_fields.py:8 | `tuple(map(int, key.split(",")))`; no contract of its own, its properties are `ParseKeyParts`, `ParseKeyPair` and `KeyRoundTrip` |
| RunFields.KeyOf | run_fields.py:8 | reference side of the key round trip, not code on line 8: the canonical key `str(r) + "," + str(c)` of a cell, the form the parser is the inverse of; no contract of its own, its properties are `KeyRoundTrip` and `KeyOfInjective` |
| RunFields.ParseKeyParts | run_fields.py:8 | a successful key gives one component per comma part; a key with no comma gives a 1-tuple; a key fails iff some comma part is not an integer literal |
| RunFields.ParseKeyPair | run_fields.py:8 | two comma-free literals joined by a comma parse to the 2-tuple of their values |
| RunFields.KeyRoundTrip | run_fields.py:8 | the key `str(r) + "," + str(c)` parses back to the tuple `(r, c)` |
| RunFields.KeyOfInjective | run_fields.py:8 | distinct cells have distinct canonical keys |
| RunFields.Comprehension | run_fields.py:8 | `{key(k): v for k, v in items}` over the items in order, any key function: the first failing key raises, a later equal tuple overwrites; no contract of its own, its properties are the `Comprehension...` lemmas |
| RunFields.ParseLocationDict | run_fields.py:7-8 | `parse_location_dict` on keys in the modelled characters: fails iff some key fails, then with the first failing key's error; on success every key's tuple is in the result, the result holds no other key, and each tuple maps to the value of the last item with that tuple |
| RunFields.ComprehensionFailure | run_fields.py:8 | the comprehension raises iff some key fails to parse, and then with the error of the first such key in item order |
| RunFields.ComprehensionKeys | run_fields.py:8 | on success, the result's keys are exactly the parsed tuples of the item keys |
| RunFields.ComprehensionValueAt | run_fields.py:8 | on success, the tuple of an item that no later item shares maps to that item's value |
| RunFields.ComprehensionValues | run_fields.py:8 | on success, every key parses, and each tuple maps, unchanged, to the value of the last item with that tuple |
| RunFields.ComprehensionSize | run_fields.py:8 | when the items' tuples are pairwise distinct, the result has exactly as many entries as the input |
| RunFields.ComprehensionDistinct | run_fields.py:8 | keys that parse to pairwise distinct tuples give a successful result of the input's size, mapping each tuple to its own item's value and holding no other key |
| RunFields.CanonicalKeysParse | run_fields.py:8 | every canonical key `"r,c"` is in the modelled syntax and parses to `(r, c)` |
| RunFields.CellTuplesDistinct | run_fields.py:8 | a fact about sequences that `CanonicalKeysRoundTrip` relies on, not code on line 8: distinct cells give distinct 2-tuples |
| RunFields.CanonicalKeysRoundTrip | run_fields.py:8 | a dictionary of distinct cells written with canonical keys parses without error; it has one entry per cell, maps each cell's tuple to that cell's value unchanged, and holds no other key |
| RunFields.PairInjective | run_fields.py:8 | a fact about sequences that `CanonicalKeysRoundTrip` relies on, not code on line 8: a cell's 2-tuple determines the cell |
| RunFields.PurchasedSquareTuples | run_fields.py:18 | `[tuple(sq) for sq in purchased_squares]` keeps the length and order, and turns each `[row, col]` list into the pair `(row, col)` |

## Left out

- `set_garden_shape` and `find_best_garden` (roses_field.py:77-83) have `pass` bodies in the source. They do nothing and return `None`. No behaviour is invented for them.
- The best-garden search against a budget (prefix sums over roses and costs) is not implemented in these files, so it is not modelled.
- `location_costs` holds floats in the source. The class only stores it, so the model uses an integer map; floating point is not modelled.
- `ParseLocationDict`: the model of `int()` covers keys whose characters are printable ASCII other than `+` and `_` (precondition `KeysModelled`). On such keys, and below CPython's digit limit (next line), `int()` accepts exactly an optional `-` followed by decimal digits. Python's `int()` also accepts surrounding whitespace, a leading `+`, `_` digit separators and non-ASCII digits; these are outside the model.
- `RunFields.ParseInt`: CPython's limit on decimal int/str conversion is not modelled. Since 3.11, and in the 2022 security releases of 3.7-3.10, `int(s)` raises `ValueError` for a decimal string of more than `sys.get_int_max_str_digits()` digits, 4300 by default, and `str(i)` raises the same way for such an `i`. `ParseInt` accepts numerals of any length and `IntToString` renders any integer, so `ParseInt`, `IntToString` and the round trips built on them (`IntRoundTrip`, `KeyRoundTrip`, `CanonicalKeysRoundTrip`) hold in the model where Python would raise.
- `ParseLocationDict`: a Python dict is modelled as the sequence of its items in insertion order. The model allows the same key string to appear twice, which a Python dict cannot hold, so it accepts a superset of the source's inputs. Reading the dict with `json.load` is not modelled.
- `ParseLocationDict`: the result is a `map`, which has no order. The Python dict that `parse_location_dict` returns keeps the order of first insertion, and the model does not give that order.
- `Roses.RosesField.constructor`: the fields hold values. The source keeps references to the caller's list and dicts (roses_field.py:61-63), so a later change to them by the caller shows through the field. That aliasing is not modelled.
- `RunFields.PurchasedSquareTuples`: requires each square to be a two-element list. The source converts a list of any length with `tuple(sq)`, but the constructor expects pairs.
- The rest of `run_test_case` is left out: reading the name, description and budget, building the field and calling `find_best_garden`. It is glue around a stub.
- `run_examples` is left out. It reads a JSON file and prints results, which is file I/O and console output.
- The `__main__` blocks only build the example field or start the runner. `RosesFixture.FixtureGardens` uses the example data as a concrete instance instead.
