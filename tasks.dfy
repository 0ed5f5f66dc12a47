/**
 * The task list as a value: the task record, the per-entry edits that the
 * list operations map over the list, deletion by id, the validation that
 * adding a task performs, and the facts about ids that the operations keep.
 */
module Tasks {
  import opened Text

  datatype Option<T> = None | Some(value: T)

  /**
   * One entry of the list. A deadline is a point in time on the same scale
   * as the start of the current day (a day number, say); None is no deadline.
   */
  datatype Task = Task(id: string, text: string, completed: bool, deadline: Option<int>, editing: bool)

  /** The record rewrites that the operations apply to the entries whose id matches. */
  datatype Edit =
    | Flip                      // toggleTodo: completed := !completed
    | BeginEdit                 // startEdit: editing := true
    | Revise(newText: string)   // saveEdit: text := newText, editing := false
    | EndEdit                   // cancelEdit: editing := false

  /** The rewrite of one record: spread of the old record with one or two fields replaced. */
  function Apply(e: Edit, t: Task): (u: Task)
    ensures u.id == t.id && u.deadline == t.deadline
    ensures u.completed == (t.completed != e.Flip?)
    ensures u.text == (if e.Revise? then e.newText else t.text)
    ensures u.editing == (if e.Flip? then t.editing else e.BeginEdit?)
  {
    match e
    case Flip => t.(completed := !t.completed)
    case BeginEdit => t.(editing := true)
    case Revise(s) => t.(text := s, editing := false)
    case EndEdit => t.(editing := false)
  }

  /** The ids of the entries, in list order. */
  function Ids(ts: seq<Task>): (r: seq<string>)
    ensures |r| == |ts|
    ensures forall i :: 0 <= i < |ts| ==> r[i] == ts[i].id
  {
    if ts == [] then [] else [ts[0].id] + Ids(ts[1..])
  }

  /** No two entries share an id. */
  predicate DistinctIds(ts: seq<Task>) {
    forall i, j :: 0 <= i < j < |ts| ==> ts[i].id != ts[j].id
  }

  /** How many entries carry the given id. */
  function Occurrences(ts: seq<Task>, id: string): nat {
    if ts == [] then 0 else (if ts[0].id == id then 1 else 0) + Occurrences(ts[1..], id)
  }

  /**
   * todos.map(todo => todo.id === id ? Apply(e, todo) : todo): every entry
   * whose id matches is rewritten, every other entry is kept, positions stay.
   */
  function UpdateWhere(ts: seq<Task>, id: string, e: Edit): (r: seq<Task>)
    ensures |r| == |ts|
    ensures forall i :: 0 <= i < |ts| ==> r[i] == if ts[i].id == id then Apply(e, ts[i]) else ts[i]
  {
    if ts == [] then []
    else [if ts[0].id == id then Apply(e, ts[0]) else ts[0]] + UpdateWhere(ts[1..], id, e)
  }

  /**
   * todos.filter(todo => todo.id !== id): the entries with a different id,
   * in their original order.
   */
  function Without(ts: seq<Task>, id: string): (r: seq<Task>)
    ensures |r| + Occurrences(ts, id) == |ts|
    ensures forall t :: t in r <==> t in ts && t.id != id
  {
    if ts == [] then []
    else
      (if ts[0].id == id then [] else [ts[0]]) + Without(ts[1..], id)
  }

  /** Deleting distributes over concatenation: that is what keeping the order means. */
  lemma {:induction false} WithoutAppend(a: seq<Task>, b: seq<Task>, id: string)
    ensures Without(a + b, id) == Without(a, id) + Without(b, id)
  {
    if a != [] {
      var head := if a[0].id == id then [] else [a[0]];
      assert (a + b)[0] == a[0];
      assert (a + b)[1..] == a[1..] + b;
      assert Without(a + b, id) == head + Without(a[1..] + b, id);
      WithoutAppend(a[1..], b, id);
      assert Without(a, id) == head + Without(a[1..], id);
    } else {
      assert a + b == b;
    }
  }

  /** Deleting keeps every entry with a different id as many times as it occurred. */
  lemma {:induction false} WithoutCounts(ts: seq<Task>, id: string)
    ensures forall t :: multiset(Without(ts, id))[t] == if t.id == id then 0 else multiset(ts)[t]
  {
    if ts != [] {
      assert ts == [ts[0]] + ts[1..];
      WithoutCounts(ts[1..], id);
    }
  }

  /** Deleting an id that no entry carries leaves the list as it was. */
  lemma {:induction false} WithoutAbsent(ts: seq<Task>, id: string)
    requires id !in Ids(ts)
    ensures Without(ts, id) == ts
  {
    if ts != [] {
      assert Ids(ts) == [ts[0].id] + Ids(ts[1..]);
      WithoutAbsent(ts[1..], id);
      assert ts == [ts[0]] + ts[1..];
    }
  }

  /** Updating an id that no entry carries leaves the list as it was. */
  lemma UpdateAbsent(ts: seq<Task>, id: string, e: Edit)
    requires id !in Ids(ts)
    ensures UpdateWhere(ts, id, e) == ts
  {
    forall i | 0 <= i < |ts| ensures UpdateWhere(ts, id, e)[i] == ts[i] {
      assert Ids(ts)[i] == ts[i].id;
    }
  }

  /** Updating never changes an id. */
  lemma UpdateKeepsIds(ts: seq<Task>, id: string, e: Edit)
    ensures Ids(UpdateWhere(ts, id, e)) == Ids(ts)
  {
  }

  /** Updating never changes an id, so distinct ids stay distinct. */
  lemma UpdateKeepsDistinct(ts: seq<Task>, id: string, e: Edit)
    requires DistinctIds(ts)
    ensures DistinctIds(UpdateWhere(ts, id, e))
  {
  }

  /** Deleting takes entries away and so adds no duplicate. */
  lemma {:induction false} WithoutKeepsDistinct(ts: seq<Task>, id: string)
    requires DistinctIds(ts)
    ensures DistinctIds(Without(ts, id))
  {
    if ts != [] {
      var rest := Without(ts[1..], id);
      WithoutKeepsDistinct(ts[1..], id);
      if ts[0].id != id {
        var r := [ts[0]] + rest;
        forall j | 0 < j < |r| ensures r[0].id != r[j].id {
          assert r[j] in rest;
          var k :| 0 <= k < |ts[1..]| && ts[1..][k] == r[j];
          assert ts[k + 1] == r[j];
        }
      }
    }
  }

  /** An id occurs in the list exactly when some entry carries it. */
  lemma {:induction false} AbsentNoOccurrences(ts: seq<Task>, id: string)
    ensures Occurrences(ts, id) == 0 <==> id !in Ids(ts)
  {
    if ts != [] {
      assert Ids(ts) == [ts[0].id] + Ids(ts[1..]);
      AbsentNoOccurrences(ts[1..], id);
    }
  }

  /** With distinct ids an id present in the list is carried by exactly one entry. */
  lemma {:induction false} DistinctOccursOnce(ts: seq<Task>, k: nat)
    requires DistinctIds(ts) && k < |ts|
    ensures Occurrences(ts, ts[k].id) == 1
  {
    var id := ts[k].id;
    if k == 0 {
      assert forall j :: 0 <= j < |ts[1..]| ==> Ids(ts[1..])[j] != id;
      AbsentNoOccurrences(ts[1..], id);
    } else {
      assert forall j :: 0 < j < |ts| ==> ts[0].id != ts[j].id;
      assert ts[1..][k - 1] == ts[k];
      DistinctOccursOnce(ts[1..], k - 1);
    }
  }

  /** Appending a task whose id is new keeps the ids distinct. */
  lemma AppendKeepsDistinct(ts: seq<Task>, t: Task)
    requires DistinctIds(ts) && t.id !in Ids(ts)
    ensures DistinctIds(ts + [t])
  {
    var r := ts + [t];
    forall i, j | 0 <= i < j < |r| ensures r[i].id != r[j].id {
      if j == |ts| {
        assert Ids(ts)[i] == ts[i].id;
      }
    }
  }

  /** Toggling twice restores every entry. */
  lemma FlipTwice(ts: seq<Task>, id: string)
    ensures UpdateWhere(UpdateWhere(ts, id, Flip), id, Flip) == ts
  {
  }

  /** Cancelling an edit just started restores the entries that were not already being edited. */
  lemma EndAfterBegin(ts: seq<Task>, id: string)
    requires forall i :: 0 <= i < |ts| && ts[i].id == id ==> !ts[i].editing
    ensures UpdateWhere(UpdateWhere(ts, id, BeginEdit), id, EndEdit) == ts
  {
  }

  /** Deleting an id erases whatever was done to its entries before. */
  lemma {:induction false} WithoutAfterUpdate(ts: seq<Task>, id: string, e: Edit)
    ensures Without(UpdateWhere(ts, id, e), id) == Without(ts, id)
  {
    if ts != [] {
      var u := UpdateWhere(ts, id, e);
      assert u[1..] == UpdateWhere(ts[1..], id, e);
      WithoutAfterUpdate(ts[1..], id, e);
    }
  }

  // ---------------------------------------------------------------- adding

  /** Why addTodo turned its input down. */
  datatype AddError = EmptyText | PastDeadline

  datatype NewTask = Accepted(task: Task) | Rejected(reason: AddError)

  /** "todo_" followed by the clock reading in decimal. */
  function ClockId(now: nat): (id: string)
    ensures |id| > 5 && id[..5] == "todo_"
  {
    "todo_" + Decimal(now)
  }

  /** Two different clock readings give two different ids. */
  lemma ClockIdInjective(a: nat, b: nat)
    requires ClockId(a) == ClockId(b)
    ensures a == b
  {
    assert ClockId(a)[5..] == Decimal(a);
    assert ClockId(b)[5..] == Decimal(b);
    DecimalInjective(a, b);
  }

  /**
   * The task addTodo builds, or why it refuses: text that trims to nothing
   * is refused first; then a deadline strictly before the start of today;
   * a deadline at the start of today is accepted.
   */
  function Validate(input: string, deadline: Option<int>, startOfToday: int, now: nat): (r: NewTask)
    ensures r == Rejected(EmptyText) <==> AllWhitespace(input)
    ensures r == Rejected(PastDeadline) <==>
              !AllWhitespace(input) && deadline.Some? && deadline.value < startOfToday
    ensures r.Accepted? ==>
              && r.task.id == ClockId(now) && r.task.text == Trim(input)
              && r.task.text != [] && Trimmed(r.task.text) && |r.task.text| <= |input|
              && !r.task.completed && r.task.deadline == deadline && !r.task.editing
  {
    var text := Trim(input);
    if text == [] then Rejected(EmptyText)
    else if deadline.Some? && deadline.value < startOfToday then Rejected(PastDeadline)
    else Accepted(Task(ClockId(now), text, false, deadline, false))
  }

  /** The list after addTodo: one task more at the end, or the list as it was. */
  function Added(ts: seq<Task>, v: NewTask): (r: seq<Task>)
    ensures v.Accepted? ==> |r| == |ts| + 1 && r[..|ts|] == ts && r[|ts|] == v.task
    ensures v.Rejected? ==> r == ts
  {
    if v.Accepted? then ts + [v.task] else ts
  }

  /** If the fresh id is not already taken, adding keeps ids distinct. */
  lemma AddKeepsDistinct(ts: seq<Task>, input: string, deadline: Option<int>, startOfToday: int, now: nat)
    requires DistinctIds(ts) && ClockId(now) !in Ids(ts)
    ensures DistinctIds(Added(ts, Validate(input, deadline, startOfToday, now)))
  {
    var v := Validate(input, deadline, startOfToday, now);
    if v.Accepted? {
      AppendKeepsDistinct(ts, v.task);
    }
  }

  /**
   * stamps[i] is the clock reading the id of entry i was made from, and
   * every reading is earlier than now.
   */
  predicate StampedBefore(ts: seq<Task>, stamps: seq<nat>, now: nat) {
    |stamps| == |ts| && forall i :: 0 <= i < |ts| ==> stamps[i] < now && ts[i].id == ClockId(stamps[i])
  }

  /**
   * The condition under which the source's ids are unique: when the clock has
   * moved on since every earlier add, the id of the next add is free.
   */
  lemma ClockIdFresh(ts: seq<Task>, stamps: seq<nat>, now: nat)
    requires StampedBefore(ts, stamps, now)
    ensures ClockId(now) !in Ids(ts)
  {
    forall i | 0 <= i < |ts| ensures Ids(ts)[i] != ClockId(now) {
      if ClockId(stamps[i]) == ClockId(now) {
        ClockIdInjective(stamps[i], now);
      }
    }
  }

  /** An add at clock reading now keeps every id stamped before any later reading. */
  lemma AddKeepsStamped(ts: seq<Task>, stamps: seq<nat>, v: NewTask, now: nat, later: nat)
    requires StampedBefore(ts, stamps, now) && now < later
    requires v.Accepted? ==> v.task.id == ClockId(now)
    ensures StampedBefore(Added(ts, v), if v.Accepted? then stamps + [now] else stamps, later)
  {
  }

  /** The stamps of the entries that deleting id keeps, filtered alongside them. */
  function StampsWithout(ts: seq<Task>, stamps: seq<nat>, id: string): (r: seq<nat>)
    requires |stamps| == |ts|
    ensures |r| + Occurrences(ts, id) == |ts|
  {
    if ts == [] then []
    else (if ts[0].id == id then [] else [stamps[0]]) + StampsWithout(ts[1..], stamps[1..], id)
  }

  /** Dropping the first entry and its stamp keeps the rest stamped. */
  lemma StampedTail(ts: seq<Task>, stamps: seq<nat>, now: nat)
    requires ts != [] && StampedBefore(ts, stamps, now)
    ensures StampedBefore(ts[1..], stamps[1..], now)
  {
    forall i | 0 <= i < |ts| - 1 ensures stamps[1..][i] < now && ts[1..][i].id == ClockId(stamps[1..][i]) {
      assert ts[1..][i] == ts[i + 1] && stamps[1..][i] == stamps[i + 1];
    }
  }

  /** Putting a stamped entry in front of a stamped list keeps it stamped. */
  lemma StampedCons(t: Task, c: nat, ts: seq<Task>, stamps: seq<nat>, now: nat)
    requires c < now && t.id == ClockId(c) && StampedBefore(ts, stamps, now)
    ensures StampedBefore([t] + ts, [c] + stamps, now)
  {
    var r, rs := [t] + ts, [c] + stamps;
    forall i | 0 < i < |r| ensures rs[i] < now && r[i].id == ClockId(rs[i]) {
      assert r[i] == ts[i - 1] && rs[i] == stamps[i - 1];
    }
  }

  /** Deleting keeps every remaining id stamped by its clock reading. */
  lemma {:induction false} WithoutKeepsStamped(ts: seq<Task>, stamps: seq<nat>, now: nat, id: string)
    requires StampedBefore(ts, stamps, now)
    ensures StampedBefore(Without(ts, id), StampsWithout(ts, stamps, id), now)
  {
    if ts != [] {
      StampedTail(ts, stamps, now);
      WithoutKeepsStamped(ts[1..], stamps[1..], now, id);
      if ts[0].id != id {
        StampedCons(ts[0], stamps[0], Without(ts[1..], id), StampsWithout(ts[1..], stamps[1..], id), now);
      }
    }
  }

  /** Updating keeps every id stamped by its clock reading. */
  lemma UpdateKeepsStamped(ts: seq<Task>, stamps: seq<nat>, now: nat, id: string, e: Edit)
    requires StampedBefore(ts, stamps, now)
    ensures StampedBefore(UpdateWhere(ts, id, e), stamps, now)
  {
  }
}
