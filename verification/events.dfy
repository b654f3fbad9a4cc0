/** The decoded input events both versions of the terminal layer queue up
    (`CgtInputEvent`). The numeric values of the MOUSE_* constants live in
    cgt.h, which is not part of this model; the names are what matter. */
module Events {
  import opened Bytes

  /** `NoButton` is the literal 0 the decoders store in `ev.button`. */
  datatype Button = NoButton | Left | Middle | Right

  datatype Action = Click | DoubleClick | Release | Move

  datatype Event =
    | Key(ch: Byte)
    | Mouse(x: int, y: int, button: Button, action: Action)
      /** A mouse event whose button and action were never written: only the
          older decoder produces it, when the byte `%c` scans is neither 'M'
          nor 'm'. */
    | MouseUnset(x: int, y: int)
  {
    predicate IsMouse() {
      !Key?
    }
  }

  /** The button table shared by clicks and drags: codes 0, 1, 2 are the left,
      middle and right buttons; anything else stores 0. */
  function ButtonOf(code: int): (b: Button)
    ensures b != NoButton <==> 0 <= code <= 2
  {
    if code == 0 then Left
    else if code == 1 then Middle
    else if code == 2 then Right
    else NoButton
  }

  /** Carriage return is delivered as newline; every other byte as itself. */
  function KeyOf(b: Byte): (e: Event)
    ensures e.Key? && (e.ch == LF <==> b == CR || b == LF)
    ensures b != CR ==> e.ch == b
  {
    Key(if b == CR then LF else b)
  }
}
