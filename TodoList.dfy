/**
 * The to-do list: task strings kept in the browser storage slot "tasks"
 * and shown as a list of items, each with a Remove button.
 */
module TodoList {
  import opened Wrappers
  import opened Sequences
  import Text

  /** Every read of the slot parses its contents, or "[]" when it holds nothing. */
  function StoredTasks(slot: Option<seq<string>>): (tasks: seq<string>)
    ensures slot.None? ==> tasks == []
    ensures slot.Some? ==> tasks == slot.value
  {
    slot.GetOr([])
  }

  /** Holds of a task whose text differs from `t`. */
  function Differs(t: string): (p: string -> bool)
  {
    x => x != t
  }

  /** The tasks other than `t`, in their original order. */
  function RemoveAll(tasks: seq<string>, t: string): (r: seq<string>)
  {
    Filter(tasks, Differs(t))
  }

  /** The list without its item at position `k`. */
  function RemoveAt(s: seq<string>, k: nat): (r: seq<string>)
    requires k < |s|
    ensures |r| == |s| - 1
  {
    s[..k] + s[k + 1..]
  }

  /**
   * Removing by value drops every entry equal to `t`, keeps every other
   * entry as often as it occurs, and keeps their relative order.
   */
  lemma RemoveAllSpec(tasks: seq<string>, t: string)
    ensures t !in RemoveAll(tasks, t)
    ensures forall i :: 0 <= i < |tasks| && tasks[i] != t ==> tasks[i] in RemoveAll(tasks, t)
    ensures IsSubsequence(RemoveAll(tasks, t), tasks)
    ensures forall x :: multiset(RemoveAll(tasks, t))[x] == if x == t then 0 else multiset(tasks)[x]
  {
    FilterIsSubsequence(tasks, Differs(t));
    forall x ensures multiset(RemoveAll(tasks, t))[x] == if x == t then 0 else multiset(tasks)[x] {
      FilterCount(tasks, Differs(t), x);
    }
  }

  /** Removing `s[k]` by value removes it from both sides of position `k`. */
  lemma RemoveAllAround(s: seq<string>, k: nat)
    requires k < |s|
    ensures RemoveAll(s, s[k]) == RemoveAll(s[..k], s[k]) + RemoveAll(s[k + 1..], s[k])
  {
    assert s == s[..k] + [s[k]] + s[k + 1..];
    FilterDropsRejected(s[..k], s[k], s[k + 1..], Differs(s[k]));
  }

  /** When `s[k]` occurs once, removing it by value removes just position `k`. */
  lemma RemoveAllOnce(s: seq<string>, k: nat)
    requires k < |s| && multiset(s)[s[k]] == 1
    ensures RemoveAll(s, s[k]) == RemoveAt(s, k)
  {
    var t, left, right := s[k], s[..k], s[k + 1..];
    assert s == left + [t] + right;
    assert multiset(s) == multiset(left) + multiset([t]) + multiset(right);
    AbsentWhenUncounted(left, t);
    AbsentWhenUncounted(right, t);
    FilterKeepsAllAround(left, t, right, Differs(t));
  }

  lemma AbsentWhenUncounted(s: seq<string>, t: string)
    requires multiset(s)[t] == 0
    ensures forall i :: 0 <= i < |s| ==> Differs(t)(s[i])
  {
    forall i | 0 <= i < |s| ensures Differs(t)(s[i]) {
      assert s[i] in multiset(s);
    }
  }

  /** Removing position `k` leaves one copy fewer of `s[k]`, while removal by value leaves none. */
  lemma RemoveAtCount(s: seq<string>, k: nat)
    requires k < |s|
    ensures multiset(RemoveAt(s, k))[s[k]] == multiset(s)[s[k]] - 1
    ensures multiset(RemoveAll(s, s[k]))[s[k]] == 0
  {
    assert s == s[..k] + [s[k]] + s[k + 1..];
    FilterCount(s, Differs(s[k]), s[k]);
  }

  /**
   * Removing the item at `k` and removing every entry equal to it agree
   * exactly when that text occurs once.
   */
  lemma RemoveAllIsRemoveAtIff(s: seq<string>, k: nat)
    requires k < |s|
    ensures RemoveAll(s, s[k]) == RemoveAt(s, k) <==> multiset(s)[s[k]] == 1
  {
    RemoveAtCount(s, k);
    if multiset(s)[s[k]] == 1 {
      RemoveAllOnce(s, k);
    }
  }

  class TaskList {
    /** The "tasks" storage slot. */
    var stored: Option<seq<string>>
    /** The texts of the items of the displayed list, in order. */
    var displayed: seq<string>

    /** The stored task list as every read sees it. */
    function Tasks(): (tasks: seq<string>)
      reads this
    {
      StoredTasks(stored)
    }

    /** The displayed list shows exactly the stored tasks. */
    predicate InSync()
      reads this
    {
      displayed == Tasks()
    }

    /** An empty displayed list over whatever storage already holds. */
    constructor (slot: Option<seq<string>>)
      ensures stored == slot && displayed == []
    {
      stored := slot;
      displayed := [];
    }

    /**
     * `addTask(taskText, save)`: one item is appended to the displayed list;
     * with `save` the text is also appended to the stored list, without it
     * storage is untouched.
     */
    method AddTask(taskText: string, save: bool)
      modifies this
      ensures displayed == old(displayed) + [taskText]
      ensures save ==> stored == Some(old(Tasks()) + [taskText])
      ensures !save ==> stored == old(stored)
    {
      displayed := displayed + [taskText];
      if save {
        var storedTasks := StoredTasks(stored);
        storedTasks := storedTasks + [taskText];
        stored := Some(storedTasks);
      }
    }

    /** `removeTaskFromStorage`: storage is overwritten with the tasks that differ from `taskText`. */
    method RemoveTaskFromStorage(taskText: string)
      modifies this
      ensures stored == Some(RemoveAll(old(Tasks()), taskText))
      ensures displayed == old(displayed)
    {
      var storedTasks := StoredTasks(stored);
      var updatedTasks := Filter(storedTasks, Differs(taskText));
      stored := Some(updatedTasks);
    }

    /** `loadTasks`: one unsaved item per stored task, in order; storage is unchanged. */
    method LoadTasks()
      modifies this
      ensures stored == old(stored)
      ensures displayed == old(displayed) + old(Tasks())
      ensures old(displayed) == [] ==> InSync()
    {
      var storedTasks := StoredTasks(stored);
      var n := 0;
      while n < |storedTasks|
        invariant 0 <= n <= |storedTasks|
        invariant stored == old(stored)
        invariant displayed == old(displayed) + storedTasks[..n]
      {
        AddTask(storedTasks[n], false);
        n := n + 1;
      }
      assert storedTasks[..n] == storedTasks;
    }

    /**
     * A click on the Remove button of item `k`: that one item leaves the
     * displayed list, while storage loses every entry equal to its text.
     * A list shown in sync with storage stays in sync exactly when the
     * text occurred once.
     */
    method ClickRemove(k: nat)
      requires k < |displayed|
      modifies this
      ensures displayed == RemoveAt(old(displayed), k)
      ensures stored == Some(RemoveAll(old(Tasks()), old(displayed)[k]))
      ensures old(InSync()) ==> (InSync() <==> multiset(old(displayed))[old(displayed)[k]] == 1)
    {
      var taskText := displayed[k];
      displayed := displayed[..k] + displayed[k + 1..];
      RemoveTaskFromStorage(taskText);
      RemoveAllIsRemoveAtIff(old(displayed), k);
    }

    /** The add button: the trimmed input is added and saved when it is non-empty. */
    method ClickAdd(input: string) returns (added: bool)
      modifies this
      ensures added <==> Text.Trim(input) != ""
      ensures added ==> displayed == old(displayed) + [Text.Trim(input)]
      ensures added ==> stored == Some(old(Tasks()) + [Text.Trim(input)])
      ensures !added ==> displayed == old(displayed) && stored == old(stored)
      ensures old(InSync()) ==> InSync()
    {
      var taskText := Text.Trim(input);
      added := taskText != "";
      if added {
        AddTask(taskText, true);
      }
    }
  }
}
