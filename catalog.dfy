/**
 * The catalog's data: a book record with the four columns of the sheet, and
 * the single-entry condition dictionaries that make up a filter group.
 */
module Catalog {

  /** A cell value as the sheet returns it: an int or a string. */
  datatype Value = IntV(n: int) | StrV(s: string)

  /** The record keys the program reads: `Text#`, `Authors`, `Title`, `Language`. */
  datatype Field = TextNo | Authors | Title | Language

  /** One catalog row. `Text#` is always an int; the other cells may be either kind. */
  datatype Record = Record(id: int, authors: Value, title: Value, language: Value)

  function FieldValue(r: Record, f: Field): Value {
    match f
    case TextNo => IntV(r.id)
    case Authors => r.authors
    case Title => r.title
    case Language => r.language
  }

  /** The dictionary key as the program spells it. */
  function FieldName(f: Field): string {
    match f
    case TextNo => "Text#"
    case Authors => "Authors"
    case Title => "Title"
    case Language => "Language"
  }

  /**
   * One single-entry dictionary of a condition group: `{field: value}` or
   * `{"OPERATOR": value}`.
   */
  datatype Entry = Cond(field: Field, value: Value) | Operator(value: Value)

  /** A condition group: the tuple of single-entry dictionaries built for one search word. */
  type Group = seq<Entry>

  /** The `OPERATOR` value that selects "and" mode; every other value selects "or". */
  const AndMarker: Value := StrV("and")
}
