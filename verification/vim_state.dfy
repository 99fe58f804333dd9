/** The visible state of the editor (Sources/Interface/Vim/VimState.swift):
    the buffer's lines, the cursor and the mode. Nothing constrains the
    contents: the buffer may be empty and the cursor may lie anywhere. */
module VimState {

  /** `VimState.Point`. */
  datatype Point = Point(row: int, col: int)

  /** `VimState.VimMode`: five modes. */
  datatype VimMode = Normal | Insert | Visual | Command | Replace

  /** `VimState`; Swift's derived `Hashable` conformance is Dafny's structural
      equality. */
  datatype State = State(buffer: seq<string>, cursor: Point, mode: VimMode)

  /** The state `VimEngine` falls back to when it has seen no usable one. */
  const Empty: State := State([], Point(0, 0), Normal)
}
