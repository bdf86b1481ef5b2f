/** The `App` component's state and the handlers that replace it. Each field
    is one `useState` slot; each method is one handler, and the value it
    passes to the setter is a function from the other modules. */
module TodoApp {
  import opened Wrappers
  import opened JsText
  import opened Todos
  import opened Duration
  import opened Header

  class App {
    var todos: seq<Todo>
    var inputValue: string
    var isScrolled: bool

    /** Every reachable state keeps each completion time in step with its flag. */
    ghost predicate Valid()
      reads this
    {
      AllInStep(todos)
    }

    /** `useState([])`, `useState('')`, `useState(false)`. */
    constructor ()
      ensures Valid()
      ensures todos == [] && inputValue == "" && !isScrolled
    {
      todos := [];
      inputValue := "";
      isScrolled := false;
    }

    /** The input's `onChange`. */
    method SetInputValue(value: string)
      modifies this
      ensures inputValue == value
      ensures todos == old(todos) && isScrolled == old(isScrolled)
    {
      inputValue := value;
    }

    /** `addTodo`, with `Date.now()` as `id` and `new Date()` as `now`.
        `accepted` is false where the source shows its alert and returns. */
    method AddTodo(id: int, now: int) returns (accepted: bool)
      requires Valid()
      modifies this
      ensures Valid()
      ensures accepted <==> !AllSpace(old(inputValue))
      ensures !accepted ==> todos == old(todos) && inputValue == old(inputValue)
      ensures accepted ==> todos == Appended(old(todos), id, old(inputValue), now) && inputValue == ""
      ensures isScrolled == old(isScrolled)
    {
      BlankIffAllSpace(inputValue);
      if IsBlank(inputValue) {
        return false;
      }
      todos := Appended(todos, id, inputValue, now);
      inputValue := "";
      return true;
    }

    /** `handleKeyPress`: Enter submits, any other key does nothing. */
    method HandleKeyPress(key: string, id: int, now: int) returns (accepted: bool)
      requires Valid()
      modifies this
      ensures Valid()
      ensures key != "Enter" ==> !accepted && todos == old(todos) && inputValue == old(inputValue)
      ensures key == "Enter" ==> (accepted <==> !AllSpace(old(inputValue)))
      ensures key == "Enter" && accepted ==>
        todos == Appended(old(todos), id, old(inputValue), now) && inputValue == ""
      ensures key == "Enter" && !accepted ==> todos == old(todos) && inputValue == old(inputValue)
      ensures isScrolled == old(isScrolled)
    {
      accepted := false;
      if key == "Enter" {
        accepted := AddTodo(id, now);
      }
    }

    /** `toggleTodo(id)`, with `new Date()` as `now`. */
    method ToggleTodo(id: int, now: int)
      requires Valid()
      modifies this
      ensures Valid()
      ensures todos == Toggled(old(todos), id, now)
      ensures |todos| == |old(todos)|
      ensures forall i :: 0 <= i < |todos| && old(todos)[i].id != id ==> todos[i] == old(todos)[i]
      ensures forall i :: 0 <= i < |todos| && old(todos)[i].id == id ==>
        todos[i].completed == !old(todos)[i].completed
      ensures inputValue == old(inputValue) && isScrolled == old(isScrolled)
    {
      todos := Toggled(todos, id, now);
    }

    /** `deleteTodo(id)`. */
    method DeleteTodo(id: int)
      requires Valid()
      modifies this
      ensures Valid()
      ensures todos == Removed(old(todos), id)
      ensures forall t :: t in todos <==> t in old(todos) && t.id != id
      ensures inputValue == old(inputValue) && isScrolled == old(isScrolled)
    {
      RemovedMembers(todos, id);
      todos := Removed(todos, id);
    }

    /** `handleScroll`, with `window.scrollY` as `scrollY`. */
    method HandleScroll(scrollY: real)
      modifies this
      ensures isScrolled == NextScrolled(old(isScrolled), scrollY)
      ensures todos == old(todos) && inputValue == old(inputValue)
    {
      isScrolled := NextScrolled(isScrolled, scrollY);
    }

    /** `totalTodos`, `completedTodos` and `progressPercentage` as rendered. */
    method Stats() returns (total: nat, completed: nat, percentage: nat)
      ensures total == |todos| && completed == CountCompleted(todos)
      ensures completed <= total && percentage <= 100
      ensures total == 0 ==> percentage == 0
      ensures total > 0 ==> 2 * total * percentage <= 200 * completed + total < 2 * total * (percentage + 1)
    {
      total := |todos|;
      completed := CountCompleted(todos);
      percentage := Percentage(todos);
    }

    /** The duration shown under the todo at `k`: only a completed one has one. */
    method DurationLine(k: nat) returns (line: string)
      requires Valid() && k < |todos|
      ensures !todos[k].completed ==> line == ""
      ensures todos[k].completed ==> line != ""
      ensures todos[k].completed ==> line == Render(FormatDuration(Some(todos[k].createdAt), todos[k].completedAt))
    {
      if !todos[k].completed {
        return "";
      }
      line := Render(FormatDuration(Some(todos[k].createdAt), todos[k].completedAt));
    }
  }
}
