/** Success/failure outcome for operations of the editor that can throw. */
module Results {

  /** `Ok` carries the value a JavaScript call returns; `Err` stands for the exception it throws. */
  datatype Result<+T, +E> = Ok(value: T) | Err(error: E)

  /** A value that may be missing: `NaN` from `parseInt`, an absent child, a failed parse. */
  datatype Option<+T> = None | Some(value: T)

  /** Why `styleToJs` throws: a non-empty `;` segment has no `:`, so `v` is undefined at `v.trim()`. */
  datatype StyleError = MissingColon(segment: string)
}
