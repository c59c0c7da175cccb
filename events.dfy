/** The user events both controllers react to, reduced to what their handlers test. */
module Events {

  /** What a click in the list landed on: one of a row's three buttons, or anything else. */
  datatype Target = TrashButton | CompleteButton | EditButton | Elsewhere

  /** A key pressed in a row's edit input. */
  datatype Key = Enter | Escape | OtherKey
}
