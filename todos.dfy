/** The todo list as a value: the records `App` keeps in its `todos` state,
    the new lists that `addTodo`, `toggleTodo` and `deleteTodo` compute from
    the old one, and the progress statistics shown in the header. */
module Todos {
  import opened Wrappers

  /** One todo. `id` and the two timestamps are integer milliseconds
      (`Date.now()`, `new Date()`); `completedAt` is None both where it was
      never set and where it was set to `null`. */
  datatype Todo = Todo(id: int, text: string, completed: bool, createdAt: int, completedAt: Option<int>)

  /** The record invariant: a completion time is recorded exactly while the
      todo is completed. */
  predicate StampInStep(t: Todo) {
    t.completedAt.Some? <==> t.completed
  }

  predicate AllInStep(ts: seq<Todo>) {
    forall i :: 0 <= i < |ts| ==> StampInStep(ts[i])
  }

  /** The record `addTodo` builds: not completed, no completion time. */
  function NewTodo(id: int, text: string, now: int): (t: Todo)
    ensures t.id == id && t.text == text && t.createdAt == now
    ensures !t.completed && StampInStep(t)
  {
    Todo(id, text, false, now, None)
  }

  /** The list after `addTodo` accepts `text`: one new record at the end. */
  function Appended(ts: seq<Todo>, id: int, text: string, now: int): (r: seq<Todo>)
    ensures |r| == |ts| + 1 && r[..|ts|] == ts
    ensures r[|ts|].text == text && r[|ts|].id == id && r[|ts|].createdAt == now
    ensures !r[|ts|].completed && r[|ts|].completedAt == None
    ensures AllInStep(ts) ==> AllInStep(r)
  {
    ts + [NewTodo(id, text, now)]
  }

  /** The object `toggleTodo` builds for a matching todo. */
  function Flip(t: Todo, now: int): (r: Todo)
    ensures r.id == t.id && r.text == t.text && r.createdAt == t.createdAt
    ensures r.completed == !t.completed
    ensures r.completedAt == (if r.completed then Some(now) else None)
  {
    var completed := !t.completed;
    t.(completed := completed, completedAt := if completed then Some(now) else None)
  }

  /** `todos.map(...)` in `toggleTodo(id)`: every todo with that id is flipped,
      every other one is kept. */
  function Toggled(ts: seq<Todo>, id: int, now: int): (r: seq<Todo>)
    ensures |r| == |ts|
    ensures forall i :: 0 <= i < |ts| && ts[i].id != id ==> r[i] == ts[i]
    ensures forall i :: 0 <= i < |ts| && ts[i].id == id ==>
      && r[i].id == ts[i].id && r[i].text == ts[i].text && r[i].createdAt == ts[i].createdAt
      && r[i].completed == !ts[i].completed
      && StampInStep(r[i])
      && (r[i].completed ==> r[i].completedAt == Some(now))
    ensures AllInStep(ts) ==> AllInStep(r)
    decreases |ts|
  {
    if ts == [] then []
    else [if ts[0].id == id then Flip(ts[0], now) else ts[0]] + Toggled(ts[1..], id, now)
  }

  /** `todos.filter(todo => todo.id !== id)` in `deleteTodo(id)`. */
  function Removed(ts: seq<Todo>, id: int): (r: seq<Todo>)
    ensures forall i :: 0 <= i < |r| ==> r[i].id != id
    ensures |r| + CountId(ts, id) == |ts|
    ensures AllInStep(ts) ==> AllInStep(r)
    decreases |ts|
  {
    if ts == [] then []
    else if ts[0].id == id then Removed(ts[1..], id)
    else [ts[0]] + Removed(ts[1..], id)
  }

  /** How many todos carry `id`; ids come from `Date.now()` and need not be unique. */
  function CountId(ts: seq<Todo>, id: int): (n: nat)
    ensures n <= |ts|
    ensures n == 0 <==> forall i :: 0 <= i < |ts| ==> ts[i].id != id
    decreases |ts|
  {
    if ts == [] then 0 else (if ts[0].id == id then 1 else 0) + CountId(ts[1..], id)
  }

  /** `todos.filter(t => t.completed).length`. */
  function CountCompleted(ts: seq<Todo>): (n: nat)
    ensures n <= |ts|
    ensures n == 0 <==> forall i :: 0 <= i < |ts| ==> !ts[i].completed
    ensures n == |ts| <==> forall i :: 0 <= i < |ts| ==> ts[i].completed
    decreases |ts|
  {
    if ts == [] then 0 else (if ts[0].completed then 1 else 0) + CountCompleted(ts[1..])
  }

  /** `completed` out of `total` as a whole percentage, rounded half up:
      the integer `r` with r - 1/2 <= 100 * completed / total < r + 1/2. */
  function RoundedPercent(completed: nat, total: nat): (r: nat)
    ensures total == 0 ==> r == 0
    ensures total > 0 ==> 2 * total * r <= 200 * completed + total < 2 * total * (r + 1)
    ensures completed <= total ==> r <= 100
  {
    if total == 0 then 0
    else
      RoundedBounds(completed, total);
      (200 * completed + total) / (2 * total)
  }

  lemma RoundedBounds(c: nat, t: nat)
    requires t > 0
    ensures var r := (200 * c + t) / (2 * t);
      2 * t * r <= 200 * c + t < 2 * t * (r + 1) && (c <= t ==> r <= 100)
  {
    var n, d := 200 * c + t, 2 * t;
    var r := n / d;
    DivBracket(n, d);
    assert d * (r + 1) == d * r + d;
    if c <= t {
      assert d * r < d * 101;
      MulCancelLt(d, r, 101);
    }
  }

  lemma MulCancelLt(d: nat, x: int, y: int)
    requires d > 0 && d * x < d * y
    ensures x < y
  {
    if x >= y {
      MulMonotone(d, y, x);
    }
  }

  lemma DivBracket(n: nat, d: nat)
    requires d > 0
    ensures d * (n / d) <= n < d * (n / d) + d
  {
  }

  /** `progressPercentage`. */
  function Percentage(ts: seq<Todo>): (r: nat)
    ensures r <= 100
    ensures ts == [] ==> r == 0
  {
    RoundedPercent(CountCompleted(ts), |ts|)
  }

  /** The completed todos that carry `id`. */
  function CountCompletedWithId(ts: seq<Todo>, id: int): (n: nat)
    ensures n <= CountId(ts, id) && n <= CountCompleted(ts)
    decreases |ts|
  {
    if ts == [] then 0
    else (if ts[0].id == id && ts[0].completed then 1 else 0) + CountCompletedWithId(ts[1..], id)
  }

  // ----- toggleTodo -----

  /** Toggling the same id twice restores every `completed` flag; a todo that
      was open comes back exactly as it was, and one that was completed comes
      back with the second toggle's time as its completion time. */
  lemma ToggleTwice(ts: seq<Todo>, id: int, now1: int, now2: int)
    requires AllInStep(ts)
    ensures var r := Toggled(Toggled(ts, id, now1), id, now2);
      && |r| == |ts|
      && (forall i :: 0 <= i < |ts| ==> r[i].completed == ts[i].completed)
      && (forall i :: 0 <= i < |ts| && (ts[i].id != id || !ts[i].completed) ==> r[i] == ts[i])
      && (forall i :: 0 <= i < |ts| && ts[i].id == id && ts[i].completed ==>
            r[i] == ts[i].(completedAt := Some(now2)))
  {
  }

  /** Toggling moves every matching open todo to completed and every matching
      completed todo back, and leaves the others' count alone. */
  lemma {:induction false} ToggleCounts(ts: seq<Todo>, id: int, now: int)
    ensures CountCompleted(Toggled(ts, id, now)) + 2 * CountCompletedWithId(ts, id)
            == CountCompleted(ts) + CountId(ts, id)
    decreases |ts|
  {
    if ts != [] {
      ToggleCounts(ts[1..], id, now);
      assert Toggled(ts, id, now)[1..] == Toggled(ts[1..], id, now);
    }
  }

  /** With a unique id the completed count moves by exactly one. */
  lemma ToggleUniqueCount(ts: seq<Todo>, id: int, now: int, k: nat)
    requires k < |ts| && ts[k].id == id && CountId(ts, id) == 1
    ensures CountCompleted(Toggled(ts, id, now))
            == if ts[k].completed then CountCompleted(ts) - 1 else CountCompleted(ts) + 1
  {
    ToggleCounts(ts, id, now);
    CompletedWithIdOfUnique(ts, id, k);
  }

  lemma {:induction false} CompletedWithIdOfUnique(ts: seq<Todo>, id: int, k: nat)
    requires k < |ts| && ts[k].id == id && CountId(ts, id) == 1
    ensures CountCompletedWithId(ts, id) == if ts[k].completed then 1 else 0
    decreases |ts|
  {
    if k == 0 {
      assert CountId(ts[1..], id) == 0;
      NoIdNoneCompleted(ts[1..], id);
    } else {
      assert ts[1..][k - 1].id == id;
      CompletedWithIdOfUnique(ts[1..], id, k - 1);
    }
  }

  lemma NoIdNoneCompleted(ts: seq<Todo>, id: int)
    requires CountId(ts, id) == 0
    ensures CountCompletedWithId(ts, id) == 0
  {
  }

  // ----- deleteTodo -----

  /** Deleting distributes over concatenation, so it keeps the survivors in
      their original relative order. */
  lemma {:induction false} RemovedConcat(a: seq<Todo>, b: seq<Todo>, id: int)
    ensures Removed(a + b, id) == Removed(a, id) + Removed(b, id)
    decreases |a|
  {
    if a == [] {
      assert a + b == b;
    } else {
      var ab := a + b;
      assert ab[1..] == a[1..] + b;
      RemovedConcat(a[1..], b, id);
      if a[0].id != id {
        ConcatAssoc([a[0]], Removed(a[1..], id), Removed(b, id));
      }
    }
  }

  lemma ConcatAssoc(x: seq<Todo>, y: seq<Todo>, z: seq<Todo>)
    ensures x + (y + z) == (x + y) + z
  {
  }

  /** A todo survives a delete exactly when it was there and has another id. */
  lemma {:induction false} RemovedMembers(ts: seq<Todo>, id: int)
    ensures forall t :: t in Removed(ts, id) <==> t in ts && t.id != id
    decreases |ts|
  {
    if ts != [] {
      RemovedMembers(ts[1..], id);
      assert ts == [ts[0]] + ts[1..];
    }
  }

  /** Deleting an id nobody carries changes nothing. */
  lemma {:induction false} RemovedAbsent(ts: seq<Todo>, id: int)
    requires forall i :: 0 <= i < |ts| ==> ts[i].id != id
    ensures Removed(ts, id) == ts
    decreases |ts|
  {
    if ts != [] {
      assert ts == [ts[0]] + ts[1..];
      RemovedAbsent(ts[1..], id);
    }
  }

  /** Deleting twice is deleting once. */
  lemma RemovedIdempotent(ts: seq<Todo>, id: int)
    ensures Removed(Removed(ts, id), id) == Removed(ts, id)
  {
    RemovedAbsent(Removed(ts, id), id);
  }

  /** Deleting one id and then adding a todo with another commutes. */
  lemma RemoveAfterAppend(ts: seq<Todo>, id: int, newId: int, text: string, now: int)
    requires newId != id
    ensures Removed(Appended(ts, newId, text, now), id) == Appended(Removed(ts, id), newId, text, now)
  {
    RemovedConcat(ts, [NewTodo(newId, text, now)], id);
  }

  // ----- statistics -----

  lemma {:induction false} CountCompletedConcat(a: seq<Todo>, b: seq<Todo>)
    ensures CountCompleted(a + b) == CountCompleted(a) + CountCompleted(b)
    decreases |a|
  {
    if a != [] {
      assert (a + b)[1..] == a[1..] + b;
      CountCompletedConcat(a[1..], b);
    } else {
      assert a + b == b;
    }
  }

  /** Adding a todo raises the total by one and leaves the completed count. */
  lemma AppendStats(ts: seq<Todo>, id: int, text: string, now: int)
    ensures |Appended(ts, id, text, now)| == |ts| + 1
    ensures CountCompleted(Appended(ts, id, text, now)) == CountCompleted(ts)
  {
    CountCompletedConcat(ts, [NewTodo(id, text, now)]);
  }

  /** Deleting never raises the completed count. */
  lemma {:induction false} RemovedStats(ts: seq<Todo>, id: int)
    ensures CountCompleted(Removed(ts, id)) + CountCompletedWithId(ts, id) == CountCompleted(ts)
    decreases |ts|
  {
    if ts != [] {
      RemovedStats(ts[1..], id);
    }
  }

  /** Round half up has exactly one answer. */
  lemma RoundedPercentUnique(completed: nat, total: nat, p: int)
    requires total > 0
    requires 2 * total * p <= 200 * completed + total < 2 * total * (p + 1)
    ensures p == RoundedPercent(completed, total)
  {
    var r := RoundedPercent(completed, total);
    if p < r {
      assert 2 * total * (p + 1) <= 2 * total * r by {
        MulMonotone(2 * total, p + 1, r);
      }
    } else if r < p {
      assert 2 * total * (r + 1) <= 2 * total * p by {
        MulMonotone(2 * total, r + 1, p);
      }
    }
  }

  lemma MulMonotone(k: nat, a: int, b: int)
    requires a <= b
    ensures k * a <= k * b
  {
  }

  /** Two of three done shows 67 percent. */
  lemma TwoOfThree()
    ensures RoundedPercent(2, 3) == 67
  {
  }
}
