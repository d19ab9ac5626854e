/** Small shared vocabulary: an optional value, and the keypad codes that the
    keypad driver hands to the application layer. */
module Common {

  /** A value that may be missing; stands for the source's NULL pointers and
      its "nothing to do" returns. */
  datatype Option<T> = None | Some(value: T)

  /** The key codes the keypad driver reports (KEY_0 .. KEY_9, KEY_MENU, ...).
      Their numeric values do not matter to the model. */
  datatype Key =
    | Digit(d: nat)
    | Menu | Up | Down | Exit | Star | F | Ptt | Side1 | Side2
    | Invalid

  function Min(a: int, b: int): int { if a <= b then a else b }
  function Max(a: int, b: int): int { if a <= b then b else a }

  /** A number below 256 survives the conversion to a byte and back. */
  lemma ByteValue(n: nat)
    requires n < 256
    ensures (n as bv8) as int == n
  {
  }
}
