/** What several parts of the kernel share. */
module Common {

  /** 16-bit and 32-bit numbers wrap around at these. */
  const U16 := 0x1_0000
  const U32 := 0x1_0000_0000

  /** One of the three terminals. */
  type Tid = t: int | 0 <= t < 3

  datatype Option<T> = None | Some(value: T)

  /** A C string's text: nothing in it ends it early. */
  predicate NulFree(s: string) {
    forall i :: 0 <= i < |s| ==> s[i] != '\0'
  }
}
