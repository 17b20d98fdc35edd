/** Values of a pandas object column holding one field of the parsed log lines. */
module Cells {

  /**
   * JSON null (NaN once parsed), a text value, or an integer; read_json stores a column as
   * integers when every value is integral numeric text and none is null.
   */
  datatype Cell = Null | Str(s: string) | Num(n: int)
}
