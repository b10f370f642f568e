/**
 * DeleteProcessor: removes one task, several tasks or every task from the live
 * list. The argument arrives already split into index tokens; a snapshot is
 * pushed for undo once the list is known to be non-empty.
 */
module DeleteProcessor {
  import opened Wrappers
  import opened JavaText
  import opened Tasks

  const ARGUMENT_CLEAR_ALL: string := "all"
  const TASKS: string := " task(s)"
  const SUCCESSFUL_DELETE: string := "Deleted: "
  const INVALID_INPUT_EMPTY_LIST: string := "empty list"
  const ERROR_MESSAGE_NUMBER_FORMAT: string := "Delete failed: Index not in number format"
  const ERROR_MESSAGE_INDEX_OUT_OF_BOUND: string := "Delete failed: Index out of bound"

  // ---------------------------------------------------------------------------
  // Removing positions from a list
  // ---------------------------------------------------------------------------

  /** The elements of s whose positions are not in D, in their original order. */
  function Without(s: seq<Task>, D: set<int>): (r: seq<Task>)
    ensures |r| <= |s|
    decreases |s|
  {
    if |s| == 0 then []
    else Without(s[..|s| - 1], D) + (if |s| - 1 in D then [] else [s[|s| - 1]])
  }

  /** Positions past the end of a make no difference to what is kept of a + b. */
  lemma {:induction false} WithoutKeepsTail(a: seq<Task>, b: seq<Task>, D: set<int>)
    requires forall d :: d in D ==> d < |a|
    ensures Without(a + b, D) == Without(a, D) + b
    decreases |b|
  {
    if |b| == 0 {
      assert a + b == a;
    } else {
      var c := a + b;
      var b' := b[..|b| - 1];
      assert c[..|c| - 1] == a + b';
      assert |c| - 1 !in D && c[|c| - 1] == b[|b| - 1];
      WithoutKeepsTail(a, b', D);
      assert Without(c, D) == Without(a, D) + b' + [b[|b| - 1]];
      assert b' + [b[|b| - 1]] == b;
    }
  }

  /** Only the positions inside s matter. */
  lemma {:induction false} WithoutInside(s: seq<Task>, D: set<int>, E: set<int>)
    requires forall j :: 0 <= j < |s| ==> (j in D <==> j in E)
    ensures Without(s, D) == Without(s, E)
    decreases |s|
  {
    if |s| > 0 {
      WithoutInside(s[..|s| - 1], D, E);
    }
  }

  /** Removing no position inside s keeps all of s. */
  lemma WithoutNothing(s: seq<Task>, D: set<int>)
    requires forall j :: 0 <= j < |s| ==> j !in D
    ensures Without(s, D) == s
  {
    WithoutInside(s, D, {});
    WithoutKeepsTail([], s, {});
    assert [] + s == s;
  }

  /** TaskList.deleteListItem(i): removes the one task at position i. */
  function RemoveAt(s: seq<Task>, i: int): (r: seq<Task>)
    requires 0 <= i < |s|
    ensures |r| == |s| - 1
    ensures r == Without(s, {i})
  {
    var head := s[..i + 1];
    assert s == head + s[i + 1..];
    WithoutKeepsTail(head, s[i + 1..], {i});
    assert head[..|head| - 1] == s[..i];
    assert Without(head, {i}) == Without(s[..i], {i});
    WithoutNothing(s[..i], {i});
    assert Without(s, {i}) == s[..i] + s[i + 1..];
    s[..i] + s[i + 1..]
  }

  /** Removing position m first, then positions below m, is removing all of them at once. */
  lemma RemoveThenWithout(s: seq<Task>, m: int, D: set<int>)
    requires 0 <= m < |s|
    requires forall d :: d in D ==> d < m
    ensures Without(RemoveAt(s, m), D) == Without(s, D + {m})
  {
    var head, tail := s[..m + 1], s[m + 1..];
    assert RemoveAt(s, m) == s[..m] + tail;
    WithoutKeepsTail(s[..m], tail, D);
    assert Without(RemoveAt(s, m), D) == Without(s[..m], D) + tail;
    assert s == head + tail;
    WithoutKeepsTail(head, tail, D + {m});
    assert Without(s, D + {m}) == Without(head, D + {m}) + tail;
    assert head[..|head| - 1] == s[..m] && |head| - 1 == m;
    assert Without(head, D + {m}) == Without(s[..m], D + {m});
    WithoutInside(s[..m], D + {m}, D);
  }

  // ---------------------------------------------------------------------------
  // Sorting and reversing the parsed indices
  // ---------------------------------------------------------------------------

  predicate Ascending(s: seq<int>) {
    forall i, j :: 0 <= i < j < |s| ==> s[i] <= s[j]
  }

  predicate StrictlyAscending(s: seq<int>) {
    forall i, j :: 0 <= i < j < |s| ==> s[i] < s[j]
  }

  predicate StrictlyDescending(s: seq<int>) {
    forall i, j :: 0 <= i < j < |s| ==> s[i] > s[j]
  }

  /** No index is named twice. */
  predicate Distinct(s: seq<int>) {
    forall i, j :: 0 <= i < j < |s| ==> s[i] != s[j]
  }

  /** x put into its place in the ascending list s. */
  function Insert(x: int, s: seq<int>): (r: seq<int>)
    ensures |r| == |s| + 1
    ensures multiset(r) == multiset(s) + multiset{x}
  {
    if |s| == 0 || x <= s[0] then [x] + s
    else
      assert s == [s[0]] + s[1..];
      [s[0]] + Insert(x, s[1..])
  }

  /** Insert adds x and nothing else. */
  lemma InsertElements(x: int, s: seq<int>)
    ensures forall y :: y in Insert(x, s) <==> y == x || y in s
  {
    var r := Insert(x, s);
    forall y ensures y in r <==> y == x || y in s {
      assert y in r <==> y in multiset(r);
      assert y in s <==> y in multiset(s);
    }
  }

  /** Inserting keeps an ascending list ascending, and strictly so when x is new. */
  lemma {:induction false} InsertAscending(x: int, s: seq<int>)
    requires Ascending(s)
    ensures Ascending(Insert(x, s))
    ensures StrictlyAscending(s) && x !in s ==> StrictlyAscending(Insert(x, s))
    decreases |s|
  {
    if |s| > 0 && x > s[0] {
      var rest := Insert(x, s[1..]);
      assert Insert(x, s) == [s[0]] + rest;
      InsertAscending(x, s[1..]);
      HeadBelowInsert(x, s);
      if StrictlyAscending(s) && x !in s {
        assert StrictlyAscending(s[1..]) && x !in s[1..];
      }
    }
  }

  /** The head of an ascending list stays below whatever is inserted behind it. */
  lemma HeadBelowInsert(x: int, s: seq<int>)
    requires Ascending(s) && |s| > 0 && x > s[0]
    ensures forall j :: 0 <= j < |Insert(x, s[1..])| ==> s[0] <= Insert(x, s[1..])[j]
    ensures StrictlyAscending(s) ==> forall j :: 0 <= j < |Insert(x, s[1..])| ==> s[0] < Insert(x, s[1..])[j]
  {
    var rest := Insert(x, s[1..]);
    InsertElements(x, s[1..]);
    forall j | 0 <= j < |rest| ensures s[0] <= rest[j] && (StrictlyAscending(s) ==> s[0] < rest[j]) {
      assert rest[j] in rest;
      if rest[j] != x {
        var k :| 0 <= k < |s[1..]| && s[1..][k] == rest[j];
        assert s[k + 1] == rest[j];
      }
    }
  }

  /** Arrays.sort(int[]): the indices in ascending order. */
  function Sort(s: seq<int>): (r: seq<int>)
    ensures |r| == |s|
    ensures multiset(r) == multiset(s)
  {
    if |s| == 0 then []
    else
      assert s == [s[0]] + s[1..];
      Insert(s[0], Sort(s[1..]))
  }

  /** The sorted list is ascending; without duplicates, strictly so. */
  lemma {:induction false} SortAscending(s: seq<int>)
    ensures Ascending(Sort(s))
    ensures Distinct(s) ==> StrictlyAscending(Sort(s))
    decreases |s|
  {
    if |s| > 0 {
      var rest := Sort(s[1..]);
      SortAscending(s[1..]);
      InsertAscending(s[0], rest);
      if Distinct(s) {
        assert Distinct(s[1..]);
        forall j | 0 <= j < |s[1..]| ensures s[1..][j] != s[0] {
          assert s[j + 1] != s[0];
        }
        assert s[0] !in multiset(s[1..]);
        assert s[0] !in multiset(rest);
      }
    }
  }

  /** The list read back to front. */
  function Reversed(s: seq<int>): (r: seq<int>)
    ensures |r| == |s|
    ensures forall i :: 0 <= i < |s| ==> r[i] == s[|s| - 1 - i]
  {
    seq(|s|, i requires 0 <= i < |s| => s[|s| - 1 - i])
  }

  /** Reversing twice gives back the original list. */
  lemma ReverseTwice(s: seq<int>)
    ensures Reversed(Reversed(s)) == s
  {
  }

  /** Reversing keeps every element and how often it occurs. */
  lemma {:induction false} ReversedIsPermutation(s: seq<int>)
    ensures multiset(Reversed(s)) == multiset(s)
    decreases |s|
  {
    if |s| > 0 {
      var init := s[..|s| - 1];
      ReversedIsPermutation(init);
      assert Reversed(s) == [s[|s| - 1]] + Reversed(init);
      assert s == init + [s[|s| - 1]];
    }
  }

  /** Sorting ascending and then reversing gives descending order; strictly so without duplicates. */
  lemma SortedReversedDescending(s: seq<int>)
    ensures forall i, j :: 0 <= i < j < |s| ==> Reversed(Sort(s))[i] >= Reversed(Sort(s))[j]
    ensures Distinct(s) ==> StrictlyDescending(Reversed(Sort(s)))
  {
    SortAscending(s);
  }

  /** After sorting and reversing, the same indices as before are named. */
  lemma SameIndices(s: seq<int>)
    ensures forall x :: x in Reversed(Sort(s)) <==> x in s
  {
    ReversedIsPermutation(Sort(s));
    forall x ensures x in Reversed(Sort(s)) <==> x in s {
      assert x in Reversed(Sort(s)) <==> x in multiset(Reversed(Sort(s)));
      assert x in s <==> x in multiset(s);
    }
  }

  /**
   * The order deleteMultiple deletes in: Arrays.sort followed by reverse, which
   * is the same indices from the largest down.
   */
  function DeletionOrder(parsed: seq<int>): (order: seq<int>)
    ensures multiset(order) == multiset(parsed)
    ensures forall x :: x in order <==> x in parsed
    ensures forall i, j :: 0 <= i < j < |order| ==> order[i] >= order[j]
    ensures Distinct(parsed) ==> StrictlyDescending(order)
    ensures IntRange(parsed) ==> IntRange(order)
  {
    SameIndices(parsed);
    SortedReversedDescending(parsed);
    ReversedIsPermutation(Sort(parsed));
    SameElementsInRange(parsed, Reversed(Sort(parsed)));
    Reversed(Sort(parsed))
  }

  /** A list holding only elements of a list of Java ints holds only Java ints. */
  lemma SameElementsInRange(parsed: seq<int>, order: seq<int>)
    requires forall x :: x in order ==> x in parsed
    ensures IntRange(parsed) ==> IntRange(order)
  {
    if IntRange(parsed) {
      forall k | 0 <= k < |order| ensures INT_MIN <= order[k] <= INT_MAX {
        assert order[k] in order;
        var j :| 0 <= j < |parsed| && parsed[j] == order[k];
      }
    }
  }

  /** reverse(int[]): swaps the cells from both ends inwards. */
  method Reverse(a: array<int>)
    modifies a
    ensures a[..] == Reversed(old(a[..]))
  {
    var length := a.Length;
    for i := 0 to length / 2
      invariant forall k :: 0 <= k < i ==> a[k] == old(a[length - 1 - k]) && a[length - 1 - k] == old(a[k])
      invariant forall k :: i <= k < length - i ==> a[k] == old(a[k])
    {
      var t := a[i];
      a[i] := a[length - 1 - i];
      a[length - 1 - i] := t;
    }
  }

  // ---------------------------------------------------------------------------
  // The three forms of delete, as functions of the list before the call
  // ---------------------------------------------------------------------------

  /** Every token read by Integer.parseInt, or None if any of them is not a number. */
  function ParseAll(tokens: seq<string>): (r: Option<seq<int>>)
    ensures r.None? <==> exists k :: 0 <= k < |tokens| && ParseInt(tokens[k]).None?
    ensures r.Some? ==> |r.value| == |tokens| && forall k :: 0 <= k < |tokens| ==> ParseInt(tokens[k]) == Some(r.value[k])
    ensures r.Some? ==> IntRange(r.value)
  {
    if forall k :: 0 <= k < |tokens| ==> ParseInt(tokens[k]).Some? then
      Some(seq(|tokens|, k requires 0 <= k < |tokens| => ParseInt(tokens[k]).value))
    else None
  }

  /** Every element is a Java int. */
  predicate IntRange(s: seq<int>) {
    forall k :: 0 <= k < |s| ==> INT_MIN <= s[k] <= INT_MAX
  }

  /**
   * The deletion loop of deleteMultiple: the 1-based indices in the order
   * given, each removed from the list as it then stands; the first index that
   * is out of range stops the loop with the removals before it kept.
   */
  function DeleteEach(s: seq<Task>, indices: seq<int>): (r: (seq<Task>, Option<Failure>))
    requires IntRange(indices)
    ensures r.1 == None || r.1 == Some(IndexOutOfBounds)
    ensures r.1 == None ==> |r.0| + |indices| == |s|
    ensures |r.0| <= |s|
    decreases |indices|
  {
    if |indices| == 0 then (s, None)
    else
      var index := ToZeroBased(indices[0]);
      if !(0 <= index < |s|) then (s, Some(IndexOutOfBounds))
      else DeleteEach(RemoveAt(s, index), indices[1..])
  }

  /** The 0-based positions a list of 1-based indices names. */
  function Positions(indices: seq<int>): set<int> {
    set x | x in indices :: x - 1
  }

  /** Distinct in-range indices deleted in descending order remove exactly the positions they name. */
  lemma {:induction false} DescendingDeletes(s: seq<Task>, indices: seq<int>)
    requires StrictlyDescending(indices)
    requires forall x :: x in indices ==> 1 <= x <= |s|
    requires IntRange(indices)
    ensures DeleteEach(s, indices) == (Without(s, Positions(indices)), None)
    decreases |indices|
  {
    if |indices| == 0 {
      WithoutNothing(s, {});
      assert Positions(indices) == {};
    } else {
      var m := indices[0] - 1;
      var rest := indices[1..];
      assert indices[0] in indices;
      forall x | x in rest ensures x in indices && x < indices[0] {
        var k :| 0 <= k < |rest| && rest[k] == x;
        assert indices[k + 1] == x;
      }
      var s' := RemoveAt(s, m);
      DescendingDeletes(s', rest);
      RemoveThenWithout(s, m, Positions(rest));
      PositionsCons(indices);
      assert DeleteEach(s, indices) == DeleteEach(s', rest);
    }
  }

  lemma PositionsCons(indices: seq<int>)
    requires |indices| > 0
    ensures Positions(indices) == Positions(indices[1..]) + {indices[0] - 1}
  {
    var rest := indices[1..];
    assert indices == [indices[0]] + rest;
    forall y ensures y in Positions(indices) <==> y in Positions(rest) + {indices[0] - 1} {
      if y in Positions(indices) {
        var x :| x in indices && y == x - 1;
        assert x == indices[0] || x in rest;
      }
      if y in Positions(rest) {
        var x :| x in rest && y == x - 1;
        assert x in indices;
      }
      assert indices[0] in indices;
    }
  }

  /** deleteMultiple on a list s: parse every token, sort, reverse, then delete one by one. */
  function DeleteMultipleSpec(s: seq<Task>, tokens: seq<string>): (r: (seq<Task>, Result<string, Failure>))
    ensures r.1.Failure? ==> r.1.error == NumberFormat || r.1.error == IndexOutOfBounds
    ensures r.1 == Failure(NumberFormat) <==> ParseAll(tokens).None?
    ensures r.1 == Failure(NumberFormat) ==> r.0 == s
    ensures |r.0| <= |s|
    ensures r.1.Success? ==> |r.0| + |tokens| == |s| && r.1.value == NatToString(|tokens|)
  {
    match ParseAll(tokens)
    case None => (s, Failure(NumberFormat))
    case Some(parsed) =>
      var (after, thrown) := DeleteEach(s, DeletionOrder(parsed));
      if thrown.Some? then (after, Failure(IndexOutOfBounds))
      else (after, Success(NatToString(|tokens|)))
  }

  /** deleteSingleTask on a list s. */
  function DeleteSingleSpec(s: seq<Task>, indexString: string, env: Collaborators): (r: (seq<Task>, Result<string, Failure>))
    ensures r.1.Failure? ==> r.0 == s
    ensures r.1 == Failure(NumberFormat) <==> ParseInt(indexString).None?
    ensures r.1.Failure? ==> r.1.error == NumberFormat || r.1.error == IndexOutOfBounds
    ensures r.1.Success? ==> |r.0| + 1 == |s|
    // parseInt reads the index; task index - 1 is removed and rendered exactly when it exists
    ensures r.1.Success? <==> ParseInt(indexString).Some? && 0 <= ToZeroBased(ParseInt(indexString).value) < |s|
    ensures r.1.Success? ==> var index := ToZeroBased(ParseInt(indexString).value);
                             r.0 == Without(s, {index}) && r.1.value == env.render(s[index])
  {
    match ParseInt(indexString)
    case None => (s, Failure(NumberFormat))
    case Some(n) =>
      var index := ToZeroBased(n);
      if !(0 <= index < |s|) then (s, Failure(IndexOutOfBounds))
      else (RemoveAt(s, index), Success(env.render(s[index])))
  }

  /**
   * The body of processDelete's try block on a non-empty list s: the list
   * afterwards and the status message, or the exception that was caught.
   */
  function Delete(s: seq<Task>, tokens: seq<string>, env: Collaborators): (r: (seq<Task>, Result<string, Failure>))
    ensures r.1.Failure? ==> r.1.error == NumberFormat || r.1.error == IndexOutOfBounds
    ensures |r.0| <= |s|
    ensures tokens == [ARGUMENT_CLEAR_ALL] ==> r.0 == [] && r.1.Success?
    ensures r.1.Success? ==> SUCCESSFUL_DELETE <= r.1.value
  {
    if |tokens| > 1 then
      var (after, count) := DeleteMultipleSpec(s, tokens);
      if count.Failure? then (after, Failure(count.error))
      else (after, Success(SUCCESSFUL_DELETE + count.value + TASKS))
    else if |tokens| == 0 then (s, Failure(IndexOutOfBounds))
    else if tokens[0] == ARGUMENT_CLEAR_ALL then ([], Success(SUCCESSFUL_DELETE + NatToString(|s|) + TASKS))
    else
      var (after, deleted) := DeleteSingleSpec(s, tokens[0], env);
      if deleted.Failure? then (after, Failure(deleted.error))
      else (after, Success(SUCCESSFUL_DELETE + deleted.value))
  }

  /** The message processDelete returns for the outcome of its try block. */
  function Status(r: Result<string, Failure>): (message: string)
    ensures r.Success? ==> message == r.value
    ensures r.Failure? ==> (message == ERROR_MESSAGE_NUMBER_FORMAT <==> r.error == NumberFormat)
    ensures r.Failure? ==> message == ERROR_MESSAGE_NUMBER_FORMAT || message == ERROR_MESSAGE_INDEX_OUT_OF_BOUND
  {
    match r
    case Success(message) => message
    case Failure(NumberFormat) => ERROR_MESSAGE_NUMBER_FORMAT
    case Failure(_) => ERROR_MESSAGE_INDEX_OUT_OF_BOUND
  }

  // ---------------------------------------------------------------------------
  // The processor
  // ---------------------------------------------------------------------------

  /** deleteAll: removes the first task until none is left, counting. */
  method DeleteAll(p: Processor) returns (count: string)
    modifies p
    ensures p.list == [] && count == NatToString(|old(p.list)|)
    ensures p.oldLists == old(p.oldLists) && p.saved == old(p.saved)
  {
    var numberOfTasksDeleted := 0;
    while |p.list| != 0
      invariant numberOfTasksDeleted + |p.list| == |old(p.list)|
      invariant p.oldLists == old(p.oldLists) && p.saved == old(p.saved)
      decreases |p.list|
    {
      p.list := RemoveAt(p.list, 0);
      numberOfTasksDeleted := numberOfTasksDeleted + 1;
    }
    count := NatToString(numberOfTasksDeleted);
  }

  /** deleteSingleTask: the task at index-1 is looked up, then removed. */
  method DeleteSingleTask(p: Processor, indexString: string, env: Collaborators) returns (r: Result<string, Failure>)
    modifies p
    ensures (p.list, r) == DeleteSingleSpec(old(p.list), indexString, env)
    ensures p.oldLists == old(p.oldLists) && p.saved == old(p.saved)
  {
    var n := ParseInt(indexString);
    if n.None? {
      return Failure(NumberFormat);
    }
    var index := ToZeroBased(n.value);
    if !(0 <= index < |p.list|) {
      return Failure(IndexOutOfBounds);
    }
    var deletedTask := p.list[index];
    p.list := RemoveAt(p.list, index);
    r := Success(env.render(deletedTask));
  }

  /** deleteMultiple: parses every index, sorts, reverses, then deletes from the largest down. */
  method DeleteMultiple(p: Processor, strIndices: seq<string>) returns (r: Result<string, Failure>)
    modifies p
    ensures (p.list, r) == DeleteMultipleSpec(old(p.list), strIndices)
    ensures p.oldLists == old(p.oldLists) && p.saved == old(p.saved)
  {
    var intIndices := new int[|strIndices|];
    for i := 0 to |strIndices|
      invariant forall k :: 0 <= k < i ==> ParseInt(strIndices[k]) == Some(intIndices[k])
      modifies intIndices
    {
      var n := ParseInt(strIndices[i]);
      if n.None? {
        return Failure(NumberFormat);
      }
      intIndices[i] := n.value;
    }
    var parsed := ParseAll(strIndices).value;
    assert intIndices[..] == parsed;
    // Arrays.sort, taken as the sorting function written back into the array
    var sorted := Sort(parsed);
    forall k | 0 <= k < intIndices.Length {
      intIndices[k] := sorted[k];
    }
    Reverse(intIndices);
    assert intIndices[..] == DeletionOrder(parsed);
    var thrown := DeleteInOrder(p, intIndices);
    if thrown.Some? {
      return Failure(IndexOutOfBounds);
    }
    r := Success(NatToString(|strIndices|));
  }

  /** The deletion loop of deleteMultiple: removes index-1 for each index in the array, in array order. */
  method DeleteInOrder(p: Processor, intIndices: array<int>) returns (thrown: Option<Failure>)
    requires IntRange(intIndices[..])
    modifies p
    ensures (p.list, thrown) == DeleteEach(old(p.list), intIndices[..])
    ensures p.oldLists == old(p.oldLists) && p.saved == old(p.saved)
  {
    ghost var order := intIndices[..];
    for i := 0 to intIndices.Length
      invariant p.oldLists == old(p.oldLists) && p.saved == old(p.saved)
      invariant DeleteEach(p.list, order[i..]) == DeleteEach(old(p.list), order)
    {
      assert order[i..] == [order[i]] + order[i + 1..];
      var index := ToZeroBased(intIndices[i]);
      if !(0 <= index < |p.list|) {
        return Some(IndexOutOfBounds);
      }
      p.list := RemoveAt(p.list, index);
    }
    assert order[intIndices.Length..] == [];
    thrown := None;
  }

  /**
   * processDelete: an empty list is refused before anything changes;
   * otherwise a snapshot is pushed, the form of delete is chosen by the number
   * of tokens, and the list is saved only when the delete succeeds.
   */
  method ProcessDelete(p: Processor, indices: seq<string>, env: Collaborators) returns (reply: Reply)
    modifies p
    ensures |old(p.list)| == 0 ==>
      reply == Thrown(InvalidInput(INVALID_INPUT_EMPTY_LIST)) &&
      p.list == old(p.list) && p.oldLists == old(p.oldLists) && p.saved == old(p.saved)
    ensures |old(p.list)| > 0 ==>
      var (after, status) := Delete(old(p.list), indices, env);
      p.list == after && reply == Message(Status(status)) &&
      p.oldLists == old(p.oldLists) + [old(p.list)] &&
      p.saved == (if status.Success? then old(p.saved) + [after] else old(p.saved))
  {
    if |p.list| == 0 {
      return Thrown(InvalidInput(INVALID_INPUT_EMPTY_LIST));
    }
    p.StoreCurrentList();
    var statusMessage: Result<string, Failure>;
    if |indices| > 1 {
      var count := DeleteMultiple(p, indices);
      statusMessage := if count.Failure? then Failure(count.error) else Success(SUCCESSFUL_DELETE + count.value + TASKS);
    } else if |indices| == 0 {
      statusMessage := Failure(IndexOutOfBounds);
    } else if indices[0] == ARGUMENT_CLEAR_ALL {
      var count := DeleteAll(p);
      statusMessage := Success(SUCCESSFUL_DELETE + count + TASKS);
    } else {
      var deleted := DeleteSingleTask(p, indices[0], env);
      statusMessage := if deleted.Failure? then Failure(deleted.error) else Success(SUCCESSFUL_DELETE + deleted.value);
    }
    if statusMessage.Success? {
      p.UpdateFile();
    }
    reply := Message(Status(statusMessage));
  }

  // ---------------------------------------------------------------------------
  // What delete promises
  // ---------------------------------------------------------------------------

  /** "delete all" empties the list and reports how many tasks it had. */
  lemma DeleteAllEmpties(s: seq<Task>, env: Collaborators)
    ensures Delete(s, [ARGUMENT_CLEAR_ALL], env) == ([], Success("Deleted: " + NatToString(|s|) + " task(s)"))
    ensures DigitsValue(NatToString(|s|)) == |s|
  {
  }

  /**
   * Deleting one token that parseInt reads as an in-range index k ("3", "03",
   * "+3") removes exactly the k-th task and names it.
   */
  lemma DeleteSingleRemoves(s: seq<Task>, token: string, k: int, env: Collaborators)
    requires ParseInt(token) == Some(k) && 1 <= k <= |s|
    ensures Delete(s, [token], env) == (Without(s, {k - 1}), Success("Deleted: " + env.render(s[k - 1])))
  {
    assert token != ARGUMENT_CLEAR_ALL;
  }

  /** Several distinct in-range indices remove exactly those tasks and report how many indices were given. */
  lemma DeleteMultipleRemovesExactly(s: seq<Task>, tokens: seq<string>, parsed: seq<int>)
    requires ParseAll(tokens) == Some(parsed) && Distinct(parsed)
    requires forall x :: x in parsed ==> 1 <= x <= |s|
    ensures DeleteMultipleSpec(s, tokens) == (Without(s, Positions(parsed)), Success(NatToString(|tokens|)))
  {
    var order := DeletionOrder(parsed);
    DescendingDeletes(s, order);
    assert Positions(order) == Positions(parsed);
  }

  /** The largest index is deleted first, so one beyond the end fails before anything is removed. */
  lemma TooLargeFailsFirst(s: seq<Task>, tokens: seq<string>, parsed: seq<int>, k: int)
    requires ParseAll(tokens) == Some(parsed)
    requires 0 <= k < |parsed| && parsed[k] > |s|
    ensures DeleteMultipleSpec(s, tokens) == (s, Failure(IndexOutOfBounds))
  {
    var order := DeletionOrder(parsed);
    assert parsed[k] in order;
    var j :| 0 <= j < |order| && order[j] == parsed[k];
    assert order[0] >= parsed[k] by {
      if j > 0 {
        assert order[0] >= order[j];
      }
    }
    assert DeleteEach(s, order) == (s, Some(IndexOutOfBounds));
  }

  /** A token that is not a number leaves the list as it was, whichever form of delete reads it. */
  lemma NonNumericChangesNothing(s: seq<Task>, tokens: seq<string>, env: Collaborators, k: int)
    requires 0 <= k < |tokens| && ParseInt(tokens[k]).None?
    requires |tokens| == 1 ==> tokens[0] != ARGUMENT_CLEAR_ALL
    ensures Delete(s, tokens, env) == (s, Failure(NumberFormat))
    ensures Status(Delete(s, tokens, env).1) == "Delete failed: Index not in number format"
  {
  }

  /**
   * A repeated index is not skipped: each removal sees the list the one before
   * left, so "delete 2,2" removes task 2 and then task 3, which has moved into
   * its place, and reports two deletions.
   */
  lemma RepeatedIndexShifts(s: seq<Task>, tokens: seq<string>)
    requires |s| >= 3 && tokens == ["2", "2"]
    ensures DeleteMultipleSpec(s, tokens) == (Without(s, {1, 2}), Success("2"))
  {
    var parsed := ParseTwoTwice(tokens);
    var order := DeletionOrder(parsed);
    assert order[0] in parsed && order[1] in parsed;
    assert order == parsed;
    RemoveSecondTwice(s);
    assert NatToString(2) == "2";
  }

  lemma ParseTwoTwice(tokens: seq<string>) returns (parsed: seq<int>)
    requires tokens == ["2", "2"]
    ensures parsed == [2, 2] && ParseAll(tokens) == Some(parsed)
  {
    assert DigitsValue(tokens[0]) == 2 by { assert tokens[0][..0] == ""; }
    assert ParseInt(tokens[0]) == Some(2) && tokens[1] == tokens[0];
    parsed := [2, 2];
    var all := ParseAll(tokens);
    assert all.Some? && all.value[0] == 2 && all.value[1] == 2;
    assert all.value == parsed;
  }

  /** Deleting index 2 twice removes positions 1 and 2 of the original list. */
  lemma RemoveSecondTwice(s: seq<Task>)
    requires |s| >= 3
    ensures DeleteEach(s, [2, 2]) == (Without(s, {1, 2}), None)
  {
    var once := RemoveAt(s, 1);
    assert ToZeroBased(2) == 1;
    assert [2, 2][1..] == [2] && [2][1..] == [];
    assert DeleteEach(once, [2]) == (RemoveAt(once, 1), None);
    SecondTwiceWithout(s);
  }

  lemma SecondTwiceWithout(s: seq<Task>)
    requires |s| >= 3
    ensures RemoveAt(RemoveAt(s, 1), 1) == Without(s, {1, 2})
  {
    SecondTwiceIsThirdThenSecond(s);
    RemoveThenWithout(s, 2, {1});
    WithoutInside(s, {1} + {2}, {1, 2});
  }

  lemma SecondTwiceIsThirdThenSecond(s: seq<Task>)
    requires |s| >= 3
    ensures RemoveAt(RemoveAt(s, 1), 1) == RemoveAt(RemoveAt(s, 2), 1)
  {
    var a, b := RemoveAt(s, 1), RemoveAt(s, 2);
    assert a == s[..1] + s[2..] && b == s[..2] + s[3..];
    assert a[..1] == s[..1] == b[..1] && a[2..] == s[3..] == b[2..];
    assert RemoveAt(a, 1) == a[..1] + a[2..] == b[..1] + b[2..] == RemoveAt(b, 1);
  }

  /**
   * A zero index is reached only after the larger ones: "delete 2,0" removes
   * task 2, then fails on index 0, and the removal stays in the list.
   */
  lemma ZeroIndexFailsAfterRemoval(s: seq<Task>, tokens: seq<string>)
    requires |s| >= 2 && tokens == ["2", "0"]
    ensures DeleteMultipleSpec(s, tokens) == (Without(s, {1}), Failure(IndexOutOfBounds))
  {
    var parsed := ParseTwoAndZero(tokens);
    SecondThenZero(s, tokens, parsed);
  }

  lemma SecondThenZero(s: seq<Task>, tokens: seq<string>, parsed: seq<int>)
    requires |s| >= 2 && parsed == [2, 0] && ParseAll(tokens) == Some(parsed)
    ensures DeleteMultipleSpec(s, tokens) == (Without(s, {1}), Failure(IndexOutOfBounds))
  {
    OrderOfTwoAndZero(parsed);
    var s' := RemoveAt(s, 1);
    assert ToZeroBased(2) == 1 && ToZeroBased(0) == -1;
    assert DeleteEach(s', [0]) == (s', Some(IndexOutOfBounds));
    assert DeleteEach(s, parsed) == (s', Some(IndexOutOfBounds)) by {
      assert parsed[0] == 2 && parsed[1..] == [0];
    }
  }

  lemma ParseTwoAndZero(tokens: seq<string>) returns (parsed: seq<int>)
    requires tokens == ["2", "0"]
    ensures parsed == [2, 0] && ParseAll(tokens) == Some(parsed)
  {
    assert DigitsValue(tokens[0]) == 2 by { assert tokens[0][..0] == ""; }
    assert DigitsValue(tokens[1]) == 0 by { assert tokens[1][..0] == ""; }
    assert ParseInt(tokens[0]) == Some(2);
    assert ParseInt(tokens[1]) == Some(0);
    parsed := [2, 0];
    var all := ParseAll(tokens);
    assert all.Some?;
    assert all.value[0] == 2 && all.value[1] == 0;
    assert all.value == parsed;
  }

  lemma OrderOfTwoAndZero(parsed: seq<int>)
    requires parsed == [2, 0]
    ensures DeletionOrder(parsed) == parsed
  {
    assert parsed[1..] == [0];
    assert Sort(parsed[1..]) == [0] by {
      assert parsed[1..][1..] == [];
    }
    assert Sort(parsed) == [0, 2];
  }
}
