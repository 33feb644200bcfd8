/** Types shared by the modules of the project. */
module Common {

  type byte = x: int | 0 <= x < 256

  /** The largest int of a 64-bit platform. */
  const MAX_INT: nat := 0x7FFF_FFFF_FFFF_FFFF

  datatype Option<+T> = None | Some(value: T)

  lemma Associate<T>(x: seq<T>, y: seq<T>, z: seq<T>)
    ensures (x + y) + z == x + (y + z)
  {
  }
}
