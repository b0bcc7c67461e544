/** The cells of the activities table as pandas reads them from the CSV file. */
module Cells {

  /** An empty field, or one holding an NA marker of pandas' default `na_values`
    ("NA", "N/A", "null", "nan", "None" and similar), is read as the float NaN;
    any other field is text. This is how a column of text (object dtype) reads:
    the model assumes date_window, typical_time and cost_estimate are such
    columns, and does not model pandas inferring a numeric dtype for a column
    that holds only numbers or only empty fields. */
  datatype Cell = Str(text: string) | NaN

  /** Python's `str()` of a cell: NaN prints as "nan". */
  function Show(c: Cell): string
  {
    match c
    case Str(t) => t
    case NaN => "nan"
  }
}
