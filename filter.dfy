/** The per-row decision of filterTodo, shared by both versions of the controller. */
module Filter {

  /** The selector values filterTodo has a branch for. */
  predicate KnownChoice(choice: string) {
    choice == "all" || choice == "completed" || choice == "incomplete"
  }

  /**
   * Whether a row is displayed after filterTodo ran with `choice`, given the
   * row's completed marker and whether it was displayed before.
   */
  function Displayed(choice: string, completed: bool, visible: bool): (shown: bool)
    ensures KnownChoice(choice) && choice != "all" ==> (shown <==> (completed <==> choice == "completed"))
    ensures !KnownChoice(choice) ==> shown == visible
  {
    match choice
    case "all" => true
    case "completed" => completed
    case "incomplete" => !completed
    case _ => visible
  }

  /**
   * "all" shows every row, "completed" exactly the marked rows, "incomplete"
   * exactly the unmarked rows, and any other value leaves the row as it was.
   */
  lemma DisplayedSpec(choice: string, completed: bool, visible: bool)
    ensures choice == "all" ==> Displayed(choice, completed, visible)
    ensures choice == "completed" ==> (Displayed(choice, completed, visible) <==> completed)
    ensures choice == "incomplete" ==> (Displayed(choice, completed, visible) <==> !completed)
    ensures !KnownChoice(choice) ==> Displayed(choice, completed, visible) == visible
  {
  }

  /** Filtering is idempotent, and a known choice does not depend on what was displayed before. */
  lemma DisplayedIdempotent(choice: string, completed: bool, visible: bool)
    ensures Displayed(choice, completed, Displayed(choice, completed, visible)) == Displayed(choice, completed, visible)
    ensures KnownChoice(choice) ==> Displayed(choice, completed, visible) == Displayed(choice, completed, !visible)
  {
  }

  /** "completed" and "incomplete" split the rows: each row is shown by exactly one of them. */
  lemma CompletedIncompletePartition(completed: bool, v1: bool, v2: bool)
    ensures Displayed("completed", completed, v1) != Displayed("incomplete", completed, v2)
  {
  }
}
