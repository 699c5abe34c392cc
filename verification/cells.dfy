/**
 * Values as the scripts meet them in a spreadsheet cell or a record dict:
 * Python's `None`, pandas' NaN, a string, or a number.  A row of a sheet or
 * a record dict is a map from column name to cell; a key that is absent
 * reads as `None`, and a column a DataFrame has but a row leaves empty reads
 * as NaN.
 */
module Cells {

  /** `repr` is the text `str()` gives for the number; float formatting itself is not modelled. */
  datatype Cell = Null | NaN | Text(s: string) | Number(value: real, repr: string)

  type Row = map<string, Cell>

  /** `str(v)`. */
  function Str(v: Cell): string {
    match v
    case Null => "None"
    case NaN => "nan"
    case Text(s) => s
    case Number(_, r) => r
  }

  /** Python truthiness: NaN is truthy; `None`, the empty string and zero are not. */
  predicate Truthy(v: Cell) {
    match v
    case Null => false
    case NaN => true
    case Text(s) => s != ""
    case Number(x, _) => x != 0.0
  }

  /** `pd.isna(v)`. */
  predicate IsNa(v: Cell) {
    v.Null? || v.NaN?
  }

  /** `row.get(key)`. */
  function Get(row: Row, key: string): Cell {
    if key in row then row[key] else Null
  }

  /** `row.get(key, default)`. */
  function GetOr(row: Row, key: string, default: Cell): Cell {
    if key in row then row[key] else default
  }
}
