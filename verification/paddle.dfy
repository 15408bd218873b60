/**
  The paddle's movement decision. The key read from the terminal becomes an
  abstract input; the decision moves the paddle one column at a time and
  refuses to move it past either wall.
 */
module Paddle {
  import opened Config

  /** The key pressed during one loop iteration, if any. */
  datatype Key = Left | Right | NoKey

  /** Leftmost and rightmost columns of the paddle's left end. */
  const MinPadX: int := 1
  const MaxPadX: int := MaxX - 3

  predicate InRange(padX: int) {
    MinPadX <= padX <= MaxPadX
  }

  /** `get_keypress`: -1 to move left, 1 to move right, 0 to stay. */
  function Keypress(key: Key, padX: int): (d: int)
    ensures d == -1 <==> key == Left && padX > 1
    ensures d == 1 <==> key == Right && padX < MaxX - 3
    ensures d == 0 || d == -1 || d == 1
    ensures InRange(padX) ==> InRange(padX + d)
  {
    match key
    case Left => if padX > 1 then -1 else 0
    case Right => if padX < MaxX - 3 then 1 else 0
    case NoKey => 0
  }
}
