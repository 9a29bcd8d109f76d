/** What several modules share. */
module Common {

  /** One more than the largest unsigned 32-bit number. */
  const WORD: nat := 0x1_0000_0000

  datatype Option<+T> = None | Some(value: T)
}
