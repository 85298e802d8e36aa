/** Types shared by the whole model. */
module Common {

  /** The modulus of the source's std::uint64_t and std::size_t. */
  const WORD: nat := 0x1_0000_0000_0000_0000

  type uint64 = x: int | 0 <= x < WORD

  /** Keys and values are binary-safe byte strings; a byte is modelled as a char. */
  type Key = string
  type Value = string

  datatype Option<+T> = None | Some(value: T)

  /** A C++ call that either returns a value or throws. */
  datatype Outcome<+T> = Returned(value: T) | Thrown(what: string)
}
