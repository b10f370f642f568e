/**
 * UndoProcessor: the history stack of earlier lists. Undo pops the top
 * snapshot back into the live list; it never pushes one itself.
 */
module UndoProcessor {
  import opened Wrappers
  import opened Tasks
  import DeleteProcessor
  import UpdateProcessor

  const NO_CHANGES_TO_UNDO_MSG: string := "No changes to undo"

  /** The live list and history after one undo: the top snapshot comes back, or nothing changes. */
  function Undo(list: seq<Task>, history: seq<seq<Task>>): (r: (seq<Task>, seq<seq<Task>>))
    ensures |history| > 0 ==> r.1 + [r.0] == history
    ensures |history| == 0 ==> r == (list, history)
  {
    if |history| == 0 then (list, history)
    else (history[|history| - 1], history[..|history| - 1])
  }

  /** The live list and history after n undos in a row. */
  function UndoTimes(n: nat, list: seq<Task>, history: seq<seq<Task>>): (seq<Task>, seq<seq<Task>>)
  {
    if n == 0 then (list, history)
    else
      var (list', history') := Undo(list, history);
      UndoTimes(n - 1, list', history')
  }

  /**
   * Undos walk back through the history one snapshot at a time: after n of
   * them the live list is the n-th snapshot from the top and the n newest
   * snapshots are gone; once the history is used up, further undos change
   * nothing.
   */
  lemma {:induction false} UndoWalksBack(n: nat, list: seq<Task>, history: seq<seq<Task>>)
    ensures n <= |history| && n > 0 ==>
      UndoTimes(n, list, history) == (history[|history| - n], history[..|history| - n])
    ensures n > |history| ==> UndoTimes(n, list, history) == UndoTimes(|history|, list, history)
    decreases n
  {
    if n > 0 {
      var (list', history') := Undo(list, history);
      UndoWalksBack(n - 1, list', history');
      if |history| > 0 {
        assert history' == history[..|history| - 1];
        if n - 1 > 0 && n <= |history| {
          assert history'[..|history'| - (n - 1)] == history[..|history| - n];
        }
        if n > |history| {
          UndoWalksBack(|history|, list, history);
          if |history| > 1 {
            UndoWalksBack(|history| - 1, list', history');
          }
        }
      } else {
        UndoIdle(n - 1, list);
      }
    }
  }

  /** With an empty history, any number of undos leaves the list as it is. */
  lemma {:induction false} UndoIdle(n: nat, list: seq<Task>)
    ensures UndoTimes(n, list, []) == (list, [])
    decreases n
  {
    if n > 0 {
      UndoIdle(n - 1, list);
    }
  }

  /** A snapshot pushed by storeCurrentList and then undone gives back the list and history of before. */
  lemma UndoAfterStore(list: seq<Task>, changed: seq<Task>, history: seq<seq<Task>>)
    ensures Undo(changed, history + [list]) == (list, history)
  {
    assert (history + [list])[..|history|] == history;
  }

  /** processUndo: pops the top snapshot into the live list and saves it, or says there is nothing to undo. */
  method ProcessUndo(p: Processor, env: Collaborators) returns (reply: string)
    modifies p
    ensures (p.list, p.oldLists) == Undo(old(p.list), old(p.oldLists))
    ensures |old(p.oldLists)| > 0 ==> p.saved == old(p.saved) + [p.list] && reply == env.renderList(p.list)
    ensures |old(p.oldLists)| == 0 ==> p.saved == old(p.saved) && reply == NO_CHANGES_TO_UNDO_MSG
  {
    if |p.oldLists| != 0 {
      p.list := p.oldLists[|p.oldLists| - 1];
      p.oldLists := p.oldLists[..|p.oldLists| - 1];
      p.UpdateFile();
      reply := env.renderList(p.list);
    } else {
      reply := NO_CHANGES_TO_UNDO_MSG;
    }
  }

  /**
   * A delete followed by an undo gives back the list and history from before
   * the delete, whether the delete succeeded or failed part-way. (On an empty
   * list the delete pushes nothing, so the undo reaches an older snapshot.)
   */
  method DeleteThenUndo(p: Processor, indices: seq<string>, env: Collaborators)
    modifies p
    ensures |old(p.list)| > 0 ==> p.list == old(p.list) && p.oldLists == old(p.oldLists)
  {
    var reply := DeleteProcessor.ProcessDelete(p, indices, env);
    UndoAfterStore(old(p.list), p.list, old(p.oldLists));
    var message := ProcessUndo(p, env);
  }

  /** An update followed by an undo gives back the list and history from before the update. */
  method UpdateThenUndo(p: Processor, argument: string, env: Collaborators)
    modifies p
    ensures p.list == old(p.list) && p.oldLists == old(p.oldLists)
  {
    var updated := UpdateProcessor.ProcessUpdate(p, argument, env);
    UndoAfterStore(old(p.list), p.list, old(p.oldLists));
    var message := ProcessUndo(p, env);
  }
}
