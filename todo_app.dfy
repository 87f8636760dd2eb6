/**
 * The list logic of the standalone todo component.
 *
 * The component keeps its todos in one array. Each handler builds a fresh
 * array from the current one and installs it whole: adding prepends a new
 * item, toggling maps over the list, deleting and clearing filter it. The
 * list shown on screen is a filtered view of the same array, and the
 * footer counts the items not yet completed. Each of these is a function
 * over `seq<Todo>` here.
 */
module TodoApp {
  import Arrays
  import Text

  /**
   * One todo. `id` is the clock reading taken when the todo was added;
   * nothing makes it unique, so every operation below acts on all todos
   * that carry a given id.
   */
  datatype Todo = Todo(id: int, text: string, completed: bool)

  /** The view picked with the All, Active and Completed buttons. */
  datatype View = All | Active | Completed

  /** Not yet completed: the test "Clear completed" and the footer count use. */
  predicate IsActive(t: Todo)
  {
    !t.completed
  }

  function HasId(id: int): Todo -> bool
  {
    (t: Todo) => t.id == id
  }

  function IdIsNot(id: int): Todo -> bool
  {
    (t: Todo) => t.id != id
  }

  /** The todos the view `view` shows. */
  function Shows(view: View): Todo -> bool
  {
    (t: Todo) => if view == All then true else if view == Active then !t.completed else t.completed
  }

  /** The positions of the list that hold a todo carrying `id`. */
  function PositionsWithId(todos: seq<Todo>, id: int): set<nat>
  {
    set i: nat | i < |todos| && todos[i].id == id
  }

  /** The positions of the list that hold a todo not yet completed. */
  function ActivePositions(todos: seq<Todo>): set<nat>
  {
    set i: nat | i < |todos| && !todos[i].completed
  }

  /** How many todos carry `id`. */
  function CountWithId(todos: seq<Todo>, id: int): nat
  {
    |PositionsWithId(todos, id)|
  }

  // ---------------------------------------------------------------------
  // The handlers
  // ---------------------------------------------------------------------

  /**
   * Submitting the form with `text` at clock reading `now`: blank text is
   * refused and leaves the list as it was; otherwise a new, not completed
   * todo holding the trimmed text goes in front of the list.
   */
  function AddTodo(todos: seq<Todo>, text: string, now: int): (r: seq<Todo>)
    ensures Text.Blank(text) ==> r == todos
    ensures !Text.Blank(text) ==>
      && |r| == |todos| + 1
      && r[0].id == now
      && r[0].text == Text.Trim(text)
      && r[0].text != []
      && !r[0].completed
      && r[1..] == todos
  {
    var trimmed := Text.Trim(text);
    Text.TrimEmptyIffBlank(text);
    if trimmed == [] then todos else [Todo(now, trimmed, false)] + todos
  }

  /** `t` with its completion flipped when it carries `id`, otherwise `t`. */
  function Toggled(t: Todo, id: int): Todo
  {
    if t.id == id then t.(completed := !t.completed) else t
  }

  /**
   * Clicking the checkbox of the todos with `id`: the list keeps its length,
   * its order and every todo's id and text, and the completion flag changes
   * exactly on the todos that carry `id`.
   */
  function ToggleTodo(todos: seq<Todo>, id: int): (r: seq<Todo>)
    ensures |r| == |todos|
    ensures forall i :: 0 <= i < |r| ==> r[i].id == todos[i].id && r[i].text == todos[i].text
    ensures forall i :: 0 <= i < |r| ==> (r[i].completed != todos[i].completed <==> todos[i].id == id)
  {
    seq(|todos|, i requires 0 <= i < |todos| => Toggled(todos[i], id))
  }

  /**
   * Deleting the todos with `id`: exactly the todos with another id are
   * left, so the list shrinks by the number of todos that carry `id`.
   */
  function DeleteTodo(todos: seq<Todo>, id: int): (r: seq<Todo>)
    ensures forall t :: t in r ==> t in todos && t.id != id
    ensures forall t :: t in todos && t.id != id ==> t in r
    ensures |r| == |todos| - CountWithId(todos, id)
  {
    Arrays.FilterKeepsPassing(todos, IdIsNot(id));
    Arrays.FilterSplits(todos, IdIsNot(id), HasId(id));
    Arrays.FilterLength(todos, HasId(id));
    assert Arrays.Passing(todos, HasId(id)) == PositionsWithId(todos, id);
    Arrays.Filter(todos, IdIsNot(id))
  }

  /** "Clear completed": exactly the todos not yet completed are left. */
  function ClearCompleted(todos: seq<Todo>): (r: seq<Todo>)
    ensures forall t :: t in r ==> t in todos && !t.completed
    ensures forall t :: t in todos && !t.completed ==> t in r
  {
    Arrays.FilterKeepsPassing(todos, IsActive);
    Arrays.Filter(todos, IsActive)
  }

  /** The todos listed on screen under `view`. */
  function Visible(todos: seq<Todo>, view: View): (r: seq<Todo>)
    ensures forall t :: t in r ==> t in todos
    ensures forall t :: t in r ==> (view == Active ==> !t.completed) && (view == Completed ==> t.completed)
  {
    Arrays.Filter(todos, Shows(view))
  }

  /** The footer's "items left" figure: the number of positions holding a todo not yet completed. */
  function ItemsLeft(todos: seq<Todo>): (n: nat)
    ensures n == |ActivePositions(todos)|
  {
    Arrays.FilterLength(todos, IsActive);
    assert Arrays.Passing(todos, IsActive) == ActivePositions(todos);
    |Arrays.Filter(todos, IsActive)|
  }

  // ---------------------------------------------------------------------
  // Adding
  // ---------------------------------------------------------------------

  /** Deleting the id a todo was just added under removes it again, with every older todo that shares the id. */
  lemma AddThenDelete(todos: seq<Todo>, text: string, now: int)
    ensures DeleteTodo(AddTodo(todos, text, now), now) == DeleteTodo(todos, now)
  {
  }

  /** When no todo carries the new id yet, deleting it undoes the add. */
  lemma AddThenDeleteFreshId(todos: seq<Todo>, text: string, now: int)
    requires forall t :: t in todos ==> t.id != now
    ensures DeleteTodo(AddTodo(todos, text, now), now) == todos
  {
    AddThenDelete(todos, text, now);
    Arrays.FilterKeepsAll(todos, IdIsNot(now));
  }

  /** A successful add raises the items-left count by one; a refused one leaves it. */
  lemma AddRaisesItemsLeft(todos: seq<Todo>, text: string, now: int)
    ensures ItemsLeft(AddTodo(todos, text, now)) == ItemsLeft(todos) + (if Text.Blank(text) then 0 else 1)
  {
  }

  // ---------------------------------------------------------------------
  // Toggling
  // ---------------------------------------------------------------------

  /** Toggling the same id twice gives back the original list. */
  lemma ToggleTwice(todos: seq<Todo>, id: int)
    ensures ToggleTodo(ToggleTodo(todos, id), id) == todos
  {
  }

  /** Toggling an id that no todo carries changes nothing. */
  lemma ToggleAbsentId(todos: seq<Todo>, id: int)
    requires forall t :: t in todos ==> t.id != id
    ensures ToggleTodo(todos, id) == todos
  {
  }

  // ---------------------------------------------------------------------
  // Deleting
  // ---------------------------------------------------------------------

  /** Deleting keeps the todos with another id in their original relative order. */
  lemma DeleteKeepsOrder(todos: seq<Todo>, id: int)
    ensures Arrays.SelectsInOrder(DeleteTodo(todos, id), todos, IdIsNot(id))
  {
    Arrays.FilterSelectsInOrder(todos, IdIsNot(id));
  }

  /** Deleting an id a second time changes nothing. */
  lemma DeleteIdempotent(todos: seq<Todo>, id: int)
    ensures DeleteTodo(DeleteTodo(todos, id), id) == DeleteTodo(todos, id)
  {
    Arrays.FilterIdempotent(todos, IdIsNot(id));
  }

  /** Deleting an id that no todo carries changes nothing. */
  lemma DeleteAbsentId(todos: seq<Todo>, id: int)
    requires forall t :: t in todos ==> t.id != id
    ensures DeleteTodo(todos, id) == todos
  {
    Arrays.FilterKeepsAll(todos, IdIsNot(id));
  }

  // ---------------------------------------------------------------------
  // Clearing completed todos
  // ---------------------------------------------------------------------

  /** Clearing keeps the todos not yet completed in their original relative order. */
  lemma ClearCompletedKeepsOrder(todos: seq<Todo>)
    ensures Arrays.SelectsInOrder(ClearCompleted(todos), todos, IsActive)
  {
    Arrays.FilterSelectsInOrder(todos, IsActive);
  }

  /** Clearing twice is clearing once. */
  lemma ClearCompletedIdempotent(todos: seq<Todo>)
    ensures ClearCompleted(ClearCompleted(todos)) == ClearCompleted(todos)
  {
    Arrays.FilterIdempotent(todos, IsActive);
  }

  /** Clearing drops exactly as many todos as the Completed view lists. */
  lemma ClearCompletedDropsCompleted(todos: seq<Todo>)
    ensures |ClearCompleted(todos)| == |todos| - |Visible(todos, Completed)|
  {
    Arrays.FilterSplits(todos, IsActive, Shows(Completed));
  }

  // ---------------------------------------------------------------------
  // The views and the footer
  // ---------------------------------------------------------------------

  /** The All view is the whole list. */
  lemma VisibleAllIsWhole(todos: seq<Todo>)
    ensures Visible(todos, All) == todos
  {
    Arrays.FilterKeepsAll(todos, Shows(All));
  }

  /** The Active view lists what "Clear completed" would keep. */
  lemma VisibleActiveIsCleared(todos: seq<Todo>)
    ensures Visible(todos, Active) == ClearCompleted(todos)
  {
    Arrays.FilterPointwise(todos, Shows(Active), IsActive);
  }

  /**
   * The Active and Completed views split the list: each keeps its todos in
   * list order, no todo is in both, and together they hold every todo as
   * often as the list does.
   */
  lemma ViewsPartition(todos: seq<Todo>)
    ensures Arrays.SelectsInOrder(Visible(todos, Active), todos, IsActive)
    ensures Arrays.SelectsInOrder(Visible(todos, Completed), todos, Shows(Completed))
    ensures forall t :: !(t in Visible(todos, Active) && t in Visible(todos, Completed))
    ensures multiset(Visible(todos, Active)) + multiset(Visible(todos, Completed)) == multiset(todos)
    ensures |Visible(todos, Active)| + |Visible(todos, Completed)| == |todos|
  {
    VisibleActiveIsCleared(todos);
    ClearCompletedKeepsOrder(todos);
    Arrays.FilterSelectsInOrder(todos, Shows(Completed));
    Arrays.FilterSplits(todos, Shows(Active), Shows(Completed));
  }

  /** The footer counts the todos of the Active view, which are those "Clear completed" keeps. */
  lemma ItemsLeftIsActiveCount(todos: seq<Todo>)
    ensures ItemsLeft(todos) == |Visible(todos, Active)|
    ensures ItemsLeft(todos) == |ClearCompleted(todos)|
    ensures ItemsLeft(todos) == |todos| - |Visible(todos, Completed)|
  {
    VisibleActiveIsCleared(todos);
    ClearCompletedDropsCompleted(todos);
  }
}
