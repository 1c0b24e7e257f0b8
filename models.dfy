/** Value types shared by the engine and its callers: the direction of travel,
    the phase of a game, a grid position and an optional value. */
module Models {

  /** Direction of travel. The constructors are listed in the order of the
      enumeration, so `Left` is the value a fresh engine holds before
      `Initialize` runs. */
  datatype Direction = Left | Right | Up | Down

  /** Phase of a game. `Paused` is part of the phase because the engine
      refuses to move while paused. */
  datatype GameState = NotStarted | Playing | Paused | GameOver

  /** A snake segment or a food position, in pixels. The y axis grows
      downwards, as on screen. */
  datatype Cell = Cell(x: int, y: int)

  datatype Option<T> = None | Some(value: T)

  /** The direction that points the other way along the same axis. */
  function Opposite(d: Direction): (o: Direction)
    ensures o != d
    ensures (o == Left || o == Right) <==> (d == Left || d == Right)
  {
    match d
    case Left => Right
    case Right => Left
    case Up => Down
    case Down => Up
  }

  lemma OppositeInvolution(d: Direction)
    ensures Opposite(Opposite(d)) == d
  {
  }
}
