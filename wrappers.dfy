/** Optional values and the one failure the wrangling code can raise. */
module Wrappers {

  /** A spreadsheet cell or a scalar field: `None` stands for NaN / missing. */
  datatype Option<+T> = None | Some(value: T)

  /** `df[name]` on a column that does not exist raises `KeyError(name)`. */
  datatype Result<+T> = Ok(value: T) | KeyError(column: string)
}
