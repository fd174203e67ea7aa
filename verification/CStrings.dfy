/** Strings as C passes them around. */
module CStrings {

  const NUL: char := '\0'

  /** A pointer to a string, which may be null. */
  datatype Text = NoText | Text(value: string)
}
