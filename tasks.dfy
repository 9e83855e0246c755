/**
 * The task list of the to-do page and the pure operations the page performs on it:
 * counting checked tasks, filtering a task out by id, locating a task by id and
 * setting its completion flag. The identifier type is a parameter: the page only
 * ever compares identifiers for equality.
 */
module Tasks {

  /** One entry of the list (the `ITask` record). */
  datatype Task<Id> = Task(id: Id, text: string, isChecked: bool)

  /** Some task of `ts` carries identifier `id`. */
  ghost predicate HasId<Id>(ts: seq<Task<Id>>, id: Id)
  {
    exists i :: 0 <= i < |ts| && ts[i].id == id
  }

  /** No two tasks of `ts` share an identifier. */
  ghost predicate UniqueIds<Id>(ts: seq<Task<Id>>)
  {
    forall i, j :: 0 <= i < j < |ts| ==> ts[i].id != ts[j].id
  }

  // ---------------------------------------------------------------------------
  // Counting checked tasks
  // ---------------------------------------------------------------------------

  /**
   * The `reduce` step by step: `acc` is the running total, each checked task
   * adds one, an unchecked task adds nothing.
   */
  function FoldChecked<Id>(acc: nat, ts: seq<Task<Id>>): (n: nat)
    ensures acc <= n <= acc + |ts|
    decreases |ts|
  {
    if ts == [] then acc
    else FoldChecked(if ts[0].isChecked then acc + 1 else acc, ts[1..])
  }

  /** The number of checked tasks, folding from an initial total of 0. */
  function CheckedCount<Id>(ts: seq<Task<Id>>): (n: nat)
    ensures n <= |ts|
  {
    FoldChecked(0, ts)
  }

  /**
   * Reference definition: the checked tasks of `ts`, in their order. The body
   * is the definition (a filter on the flag, one element per checked task); the
   * ensures only record its bounds and membership in both directions.
   */
  function CheckedTasks<Id>(ts: seq<Task<Id>>): (r: seq<Task<Id>>)
    ensures |r| <= |ts|
    ensures forall i :: 0 <= i < |r| ==> r[i] in ts && r[i].isChecked
    ensures forall i :: 0 <= i < |ts| && ts[i].isChecked ==> ts[i] in r
  {
    if ts == [] then []
    else (if ts[0].isChecked then [ts[0]] else []) + CheckedTasks(ts[1..])
  }

  lemma {:induction false} FoldCheckedFrom<Id>(acc: nat, ts: seq<Task<Id>>)
    ensures FoldChecked(acc, ts) == acc + |CheckedTasks(ts)|
    decreases |ts|
  {
    if ts != [] {
      FoldCheckedFrom(if ts[0].isChecked then acc + 1 else acc, ts[1..]);
    }
  }

  /** The fold yields exactly the number of tasks whose flag is set. */
  lemma CheckedCountIsCheckedTasks<Id>(ts: seq<Task<Id>>)
    ensures CheckedCount(ts) == |CheckedTasks(ts)|
  {
    FoldCheckedFrom(0, ts);
  }

  lemma {:induction false} CheckedTasksConcat<Id>(a: seq<Task<Id>>, b: seq<Task<Id>>)
    ensures CheckedTasks(a + b) == CheckedTasks(a) + CheckedTasks(b)
  {
    if a != [] {
      assert (a + b)[0] == a[0] && (a + b)[1..] == a[1..] + b;
      CheckedTasksConcat(a[1..], b);
      var head := if a[0].isChecked then [a[0]] else [];
      calc {
        CheckedTasks(a + b);
        head + CheckedTasks(a[1..] + b);
        head + (CheckedTasks(a[1..]) + CheckedTasks(b));
        (head + CheckedTasks(a[1..])) + CheckedTasks(b);
      }
    } else {
      assert a + b == b;
    }
  }

  /** Counting distributes over concatenation of lists. */
  lemma CheckedCountConcat<Id>(a: seq<Task<Id>>, b: seq<Task<Id>>)
    ensures CheckedCount(a + b) == CheckedCount(a) + CheckedCount(b)
  {
    CheckedCountIsCheckedTasks(a + b);
    CheckedCountIsCheckedTasks(a);
    CheckedCountIsCheckedTasks(b);
    CheckedTasksConcat(a, b);
  }

  /** The count of a list split around one task. */
  lemma CheckedCountSplit<Id>(p: seq<Task<Id>>, t: Task<Id>, q: seq<Task<Id>>)
    ensures CheckedCount(p + [t] + q)
            == CheckedCount(p) + (if t.isChecked then 1 else 0) + CheckedCount(q)
  {
    CheckedCountConcat(p + [t], q);
    CheckedCountConcat(p, [t]);
    assert [t][1..] == [];
  }

  /** The count of a list, split around its element at index `k`. */
  lemma CheckedCountAt<Id>(ts: seq<Task<Id>>, k: nat)
    requires k < |ts|
    ensures CheckedCount(ts)
            == CheckedCount(ts[..k]) + (if ts[k].isChecked then 1 else 0) + CheckedCount(ts[k + 1..])
  {
    assert ts == ts[..k] + [ts[k]] + ts[k + 1..];
    CheckedCountSplit(ts[..k], ts[k], ts[k + 1..]);
  }

  /** The count is 0 exactly when no task is checked. */
  lemma {:induction false} CheckedCountZero<Id>(ts: seq<Task<Id>>)
    ensures CheckedCount(ts) == 0 <==> forall i :: 0 <= i < |ts| ==> !ts[i].isChecked
  {
    CheckedCountIsCheckedTasks(ts);
    if CheckedCount(ts) != 0 {
      assert CheckedTasks(ts)[0] in CheckedTasks(ts);
    }
  }

  /** The count equals the length exactly when every task is checked. */
  lemma {:induction false} CheckedCountAll<Id>(ts: seq<Task<Id>>)
    ensures CheckedCount(ts) == |ts| <==> forall i :: 0 <= i < |ts| ==> ts[i].isChecked
  {
    if ts != [] {
      CheckedCountAll(ts[1..]);
      assert ts == [ts[0]] + ts[1..];
      CheckedCountConcat([ts[0]], ts[1..]);
      assert CheckedCount([ts[0]]) == if ts[0].isChecked then 1 else 0;
      assert forall i :: 1 <= i < |ts| ==> ts[i] == ts[1..][i - 1];
    }
  }

  // ---------------------------------------------------------------------------
  // Removing by id
  // ---------------------------------------------------------------------------

  /** The `filter` that keeps every task whose id differs from `id`. */
  function RemoveById<Id(==)>(ts: seq<Task<Id>>, id: Id): (r: seq<Task<Id>>)
    ensures |r| <= |ts|
    ensures !HasId(r, id)
    ensures !HasId(ts, id) ==> r == ts
  {
    if ts == [] then []
    else
      var rest := RemoveById(ts[1..], id);
      assert forall j :: 0 <= j < |ts[1..]| ==> ts[1..][j] == ts[j + 1];
      (if ts[0].id != id then [ts[0]] else []) + rest
  }

  /** The filter keeps exactly the tasks of `ts` whose id differs from `id`. */
  lemma {:induction false} RemoveByIdMembers<Id>(ts: seq<Task<Id>>, id: Id)
    ensures forall t :: t in RemoveById(ts, id) ==> t in ts && t.id != id
    ensures forall i :: 0 <= i < |ts| && ts[i].id != id ==> ts[i] in RemoveById(ts, id)
  {
    if ts != [] {
      RemoveByIdMembers(ts[1..], id);
      assert forall j :: 0 <= j < |ts[1..]| ==> ts[1..][j] == ts[j + 1];
    }
  }

  /** Filtering keeps order: it distributes over concatenation. */
  lemma {:induction false} RemoveByIdConcat<Id>(a: seq<Task<Id>>, b: seq<Task<Id>>, id: Id)
    ensures RemoveById(a + b, id) == RemoveById(a, id) + RemoveById(b, id)
  {
    if a != [] {
      assert (a + b)[0] == a[0] && (a + b)[1..] == a[1..] + b;
      RemoveByIdConcat(a[1..], b, id);
      var head := if a[0].id != id then [a[0]] else [];
      calc {
        RemoveById(a + b, id);
        head + RemoveById(a[1..] + b, id);
        head + (RemoveById(a[1..], id) + RemoveById(b, id));
        (head + RemoveById(a[1..], id)) + RemoveById(b, id);
      }
    } else {
      assert a + b == b;
    }
  }

  /**
   * On a list with unique ids, removing the id of the task at `k` takes out
   * exactly that task and leaves the others in their order.
   */
  lemma {:induction false} RemoveByIdUnique<Id>(ts: seq<Task<Id>>, k: nat)
    requires UniqueIds(ts)
    requires k < |ts|
    ensures RemoveById(ts, ts[k].id) == ts[..k] + ts[k + 1..]
  {
    var id, p, q := ts[k].id, ts[..k], ts[k + 1..];
    UpdateIsSplice(ts, k, ts[k]);
    assert ts[k := ts[k]] == ts;
    RemoveByIdConcat(p + [ts[k]], q, id);
    RemoveByIdConcat(p, [ts[k]], id);
    assert !HasId(p, id) by {
      forall i | 0 <= i < |p| ensures p[i].id != id {
        assert p[i] == ts[i];
      }
    }
    assert !HasId(q, id) by {
      forall i | 0 <= i < |q| ensures q[i].id != id {
        assert q[i] == ts[k + 1 + i];
      }
    }
    assert RemoveById([ts[k]], id) == [];
  }

  /** Filtering never introduces a duplicate id. */
  lemma {:induction false} RemoveByIdKeepsUnique<Id>(ts: seq<Task<Id>>, id: Id)
    requires UniqueIds(ts)
    ensures UniqueIds(RemoveById(ts, id))
  {
    if ts != [] {
      assert UniqueIds(ts[1..]) by {
        forall i, j | 0 <= i < j < |ts[1..]| ensures ts[1..][i].id != ts[1..][j].id {
          assert ts[1..][i] == ts[i + 1] && ts[1..][j] == ts[j + 1];
        }
      }
      RemoveByIdKeepsUnique(ts[1..], id);
      RemoveByIdMembers(ts[1..], id);
      var rest := RemoveById(ts[1..], id);
      forall t | t in rest ensures t.id != ts[0].id {
        var m :| 0 <= m < |ts[1..]| && ts[1..][m] == t;
        assert ts[m + 1] == t;
      }
    }
  }

  /** Removing a task whose id is present lowers the count by its own flag. */
  lemma CheckedCountRemove<Id>(ts: seq<Task<Id>>, k: nat)
    requires UniqueIds(ts)
    requires k < |ts|
    ensures CheckedCount(RemoveById(ts, ts[k].id))
            == CheckedCount(ts) - (if ts[k].isChecked then 1 else 0)
  {
    var p, q := ts[..k], ts[k + 1..];
    RemoveByIdUnique(ts, k);
    CheckedCountSplit(p, ts[k], q);
    CheckedCountConcat(p, q);
    assert ts == p + [ts[k]] + q;
  }

  // ---------------------------------------------------------------------------
  // Locating and toggling by id
  // ---------------------------------------------------------------------------

  /** The index of the first task with id `id`, or -1 when there is none. */
  function FirstIndex<Id(==)>(ts: seq<Task<Id>>, id: Id): (i: int)
    ensures -1 <= i < |ts|
    ensures i == -1 <==> !HasId(ts, id)
    ensures 0 <= i ==> ts[i].id == id && forall j :: 0 <= j < i ==> ts[j].id != id
  {
    if ts == [] then -1
    else if ts[0].id == id then 0
    else
      var k := FirstIndex(ts[1..], id);
      assert forall j :: 0 <= j < |ts[1..]| ==> ts[1..][j] == ts[j + 1];
      if k == -1 then -1 else k + 1
  }

  /** `findIndex`: scans from the front for the first task with id `id`. */
  method FindIndex<Id(==)>(ts: seq<Task<Id>>, id: Id) returns (i: int)
    ensures i == FirstIndex(ts, id)
  {
    i := 0;
    while i < |ts|
      invariant 0 <= i <= |ts|
      invariant forall j :: 0 <= j < i ==> ts[j].id != id
    {
      if ts[i].id == id {
        return;
      }
      i := i + 1;
    }
    i := -1;
  }

  /**
   * Setting a task's status: the first task with id `id` gets flag `value`, and
   * nothing else changes; a list without that id is returned as it is.
   */
  function Toggle<Id(==)>(ts: seq<Task<Id>>, id: Id, value: bool): (r: seq<Task<Id>>)
    ensures |r| == |ts|
    ensures forall i :: 0 <= i < |ts| ==> r[i].id == ts[i].id && r[i].text == ts[i].text
    ensures HasId(ts, id) ==> r[FirstIndex(ts, id)].isChecked == value
    ensures forall i {:trigger r[i]} :: 0 <= i < |ts| && i != FirstIndex(ts, id) ==> r[i] == ts[i]
    ensures !HasId(ts, id) ==> r == ts
  {
    var k := FirstIndex(ts, id);
    if k == -1 then ts else ts[k := ts[k].(isChecked := value)]
  }

  /** Toggling keeps every id where it was, so it keeps ids unique. */
  lemma ToggleKeepsIds<Id>(ts: seq<Task<Id>>, id: Id, value: bool)
    ensures forall i :: 0 <= i < |ts| ==> Toggle(ts, id, value)[i].id == ts[i].id
    ensures UniqueIds(ts) ==> UniqueIds(Toggle(ts, id, value))
    ensures FirstIndex(Toggle(ts, id, value), id) == FirstIndex(ts, id)
  {
  }

  /**
   * Setting a present task's flag and then setting it back to what it was
   * restores the list.
   */
  lemma ToggleRoundTrip<Id>(ts: seq<Task<Id>>, id: Id, value: bool)
    requires HasId(ts, id)
    ensures Toggle(Toggle(ts, id, value), id, ts[FirstIndex(ts, id)].isChecked) == ts
  {
  }

  /** Setting the same flag twice is the same as setting it once. */
  lemma ToggleIdempotent<Id>(ts: seq<Task<Id>>, id: Id, value: bool)
    ensures Toggle(Toggle(ts, id, value), id, value) == Toggle(ts, id, value)
  {
  }

  /** For a present id, setting the flag replaces exactly one element of the list. */
  lemma ToggleSplice<Id>(ts: seq<Task<Id>>, id: Id, value: bool)
    requires HasId(ts, id)
    ensures var k := FirstIndex(ts, id);
      Toggle(ts, id, value) == ts[..k] + [ts[k].(isChecked := value)] + ts[k + 1..]
  {
    var k := FirstIndex(ts, id);
    UpdateIsSplice(ts, k, ts[k].(isChecked := value));
  }

  lemma UpdateIsSplice<T>(s: seq<T>, k: nat, x: T)
    requires k < |s|
    ensures s[k := x] == s[..k] + [x] + s[k + 1..]
  {
  }

  /** Setting a present task's flag moves the count by the change of that flag. */
  lemma CheckedCountToggle<Id>(ts: seq<Task<Id>>, id: Id, value: bool)
    requires HasId(ts, id)
    ensures var k := FirstIndex(ts, id);
      CheckedCount(Toggle(ts, id, value))
      == CheckedCount(ts) - (if ts[k].isChecked then 1 else 0) + (if value then 1 else 0)
  {
    var k := FirstIndex(ts, id);
    var r := Toggle(ts, id, value);
    ToggleSplice(ts, id, value);
    assert r[..k] == ts[..k] && r[k + 1..] == ts[k + 1..] && r[k].isChecked == value;
    CheckedCountAt(ts, k);
    CheckedCountAt(r, k);
  }
}
