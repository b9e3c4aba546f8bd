/** What every part of the model uses. */
module Common {

  datatype Option<+T> = None | Some(value: T)

  const PAGE: nat := 0x1000
  const TWO_64: nat := 0x1_0000_0000_0000_0000
}
