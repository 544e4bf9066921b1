/**
 * The few XPCOM basics the XSLT output buffer relies on: result codes
 * (`nsresult`), 32-bit namespace ids and interned atoms.
 */
module Xpcom {

  /** An `nsresult`: a 32-bit unsigned result code. */
  type Status = r: int | 0 <= r < 0x1_0000_0000

  const NS_OK: Status := 0
  const NS_ERROR_OUT_OF_MEMORY: Status := 0x8007_000E

  /** NS_SUCCEEDED: the severity (top) bit of the code is clear. */
  predicate Succeeded(rv: Status) {
    rv < 0x8000_0000
  }

  /** A `PRInt32`, as used for namespace ids. */
  type Int32 = x: int | -0x8000_0000 <= x < 0x8000_0000

  /**
   * An interned atom (`nsIAtom*`), known only by its identity. The handle 0
   * stands for the null atom (an absent prefix, for one). Atoms are compared,
   * copied and passed on, never looked into.
   */
  type Atom = nat

  datatype Option<+T> = None | Some(value: T)
}
