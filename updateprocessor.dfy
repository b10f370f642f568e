/**
 * UpdateProcessor: "<index> starttime 1300 desc new text\ location home\" edits
 * task <index>. Each keyword is found with indexOf; the value after it is sliced
 * at a fixed offset (the keyword's length): four characters for a time, five for
 * a date, and up to a backslash escape marker for a description or location.
 * The edits run in a fixed order, each one mutating the task in place.
 */
module UpdateProcessor {
  import opened Wrappers
  import opened JavaText
  import opened Tasks

  const NO_OF_CHAR_IN_STIME: int := 11
  const NO_OF_CHAR_IN_ETIME: int := 9
  const NO_OF_CHAR_IN_LOC: int := 10
  const NO_OF_CHAR_IN_DESC: int := 6
  const NO_OF_CHAR_IN_DATE: int := 6

  const UpdateKeywords: seq<string> := [" starttime ", " endtime ", " desc ", " date ", " location "]

  // Positions in the edit array, which is also the order the edits are applied in.
  const EDIT_START_TIME: int := 0
  const EDIT_END_TIME: int := 1
  const EDIT_DESC: int := 2
  const EDIT_DATE: int := 3
  const EDIT_LOCATION: int := 4
  const NO_OF_EDITS: int := 5

  /** The backslash that ends a description or location. */
  const ESCAPE: string := "\\"

  /** The offset each edit slices at. */
  function Offset(i: int): int
    requires 0 <= i < NO_OF_EDITS
  {
    [NO_OF_CHAR_IN_STIME, NO_OF_CHAR_IN_ETIME, NO_OF_CHAR_IN_DESC, NO_OF_CHAR_IN_DATE, NO_OF_CHAR_IN_LOC][i]
  }

  /** Each hard-coded offset is the length of its keyword, so a value is sliced right where its keyword ends. */
  lemma OffsetsAreKeywordLengths(argument: string, i: int, pos: int)
    requires 0 <= i < NO_OF_EDITS && OccursAt(argument, UpdateKeywords[i], pos)
    ensures Offset(i) == |UpdateKeywords[i]|
    ensures pos + Offset(i) <= |argument| && argument[pos..pos + Offset(i)] == UpdateKeywords[i]
  {
  }

  /**
   * getTaskIndex: the integer before the first space. With no space,
   * substring(0, -1) throws; a non-number makes parseInt throw.
   */
  function GetTaskIndex(argument: string): (r: Result<int, Failure>)
    ensures r == Failure(IndexOutOfBounds) <==> !Contains(argument, " ")
    ensures r.Success? ==> Contains(argument, " ") && ParseInt(argument[..IndexOf(argument, " ")]) == Some(r.value)
    ensures r.Failure? ==> r.error in {IndexOutOfBounds, NumberFormat}
    ensures Contains(argument, " ") ==> (r.Success? <==> ParseInt(argument[..IndexOf(argument, " ")]).Some?)
  {
    var spaceAfterIndex := IndexOf(argument, " ");
    if spaceAfterIndex < 0 then Failure(IndexOutOfBounds)
    else
      match ParseInt(argument[..spaceAfterIndex])
      case None => Failure(NumberFormat)
      case Some(n) => Success(n)
  }

  /** A decimal index followed by a space is read back as that index. */
  lemma TaskIndexOfNumeral(n: nat, rest: string)
    requires n <= INT_MAX
    ensures GetTaskIndex(NatToString(n) + " " + rest) == Success(n)
  {
    var digits := NatToString(n);
    var argument := digits + " " + rest;
    OneCharOccurs(argument, ' ');
    assert argument[|digits|] == ' ';
    forall j | 0 <= j < |digits| ensures argument[j] != ' ' {
      assert IsDigit(digits[j]);
    }
    assert IndexOf(argument, " ") == |digits|;
    assert argument[..|digits|] == digits;
    ParseNatToString(n);
  }

  /** The positions findDetailToEdit records: indexOf of each keyword, -1 when absent. */
  function EditPositions(argument: string): (edit: seq<int>)
    ensures |edit| == NO_OF_EDITS
    ensures forall i :: 0 <= i < NO_OF_EDITS ==> FirstOccurrence(argument, UpdateKeywords[i], edit[i]) && edit[i] >= -1
  {
    seq(NO_OF_EDITS, i requires 0 <= i < NO_OF_EDITS => IndexOf(argument, UpdateKeywords[i]))
  }

  /** findDetailToEdit: fills the edit array keyword by keyword. */
  method FindDetailToEdit(argument: string) returns (edit: seq<int>)
    ensures |edit| == NO_OF_EDITS
    ensures forall i :: 0 <= i < NO_OF_EDITS ==> FirstOccurrence(argument, UpdateKeywords[i], edit[i])
    ensures edit == EditPositions(argument)
  {
    var a := new int[NO_OF_EDITS](_ => -1);
    for i := 0 to NO_OF_EDITS
      invariant forall j :: 0 <= j < i ==> a[j] == IndexOf(argument, UpdateKeywords[j])
      invariant forall j :: i <= j < NO_OF_EDITS ==> a[j] == -1
    {
      if Contains(argument, UpdateKeywords[i]) {
        a[i] := IndexOf(argument, UpdateKeywords[i]);
      }
    }
    edit := a[..];
  }

  /**
   * updateStartTime/updateEndTime: the four characters after the keyword read
   * as an integer n, split into hour n / 100 and minute n % 100 (Java's
   * truncating division).
   */
  function TimeValue(argument: string, pos: int, offset: int): (r: Result<(int, int), Failure>)
    requires pos >= 0 && offset >= 0
    ensures r.Success? <==> pos + offset + 4 <= |argument| && ParseInt(argument[pos + offset..pos + offset + 4]).Some?
    ensures r.Success? ==> r.value.0 * 100 + r.value.1 == ParseInt(argument[pos + offset..pos + offset + 4]).value
    ensures r.Success? ==> -100 < r.value.1 < 100
    ensures r.Success? ==> var n := ParseInt(argument[pos + offset..pos + offset + 4]).value;
                           (n >= 0 ==> 0 <= r.value.1) && (n < 0 ==> r.value.1 <= 0)
    ensures r.Failure? ==> r.error in {IndexOutOfBounds, NumberFormat}
    ensures r.Failure? ==> (r.error == IndexOutOfBounds <==> pos + offset + 4 > |argument|)
  {
    if pos + offset + 4 > |argument| then Failure(IndexOutOfBounds)
    else
      match ParseInt(argument[pos + offset..pos + offset + 4])
      case None => Failure(NumberFormat)
      case Some(time) => Success((JavaDiv(time, 100), JavaRem(time, 100)))
  }

  /** Four digits "HHMM" after the keyword give hour HH and minute MM. */
  lemma TimeOfFourDigits(argument: string, pos: int, offset: int)
    requires pos >= 0 && offset >= 0 && pos + offset + 4 <= |argument|
    requires AllDigits(argument[pos + offset..pos + offset + 4])
    ensures var hhmm := argument[pos + offset..pos + offset + 4];
            TimeValue(argument, pos, offset) == Success((DigitsValue(hhmm[..2]), DigitsValue(hhmm[2..])))
  {
    var hhmm := argument[pos + offset..pos + offset + 4];
    FourDigits(hhmm);
    var hh, mm := DigitsValue(hhmm[..2]), DigitsValue(hhmm[2..]);
    assert ParseInt(hhmm) == Some(hh * 100 + mm);
    DivMod100(hh, mm);
  }

  lemma DivMod100(a: nat, b: nat)
    requires b < 100
    ensures JavaDiv(a * 100 + b, 100) == a && JavaRem(a * 100 + b, 100) == b
  {
  }

  /** The value of four digits is that of the first two times 100 plus that of the last two. */
  lemma FourDigits(d: string)
    requires |d| == 4 && AllDigits(d)
    ensures DigitsValue(d) == DigitsValue(d[..2]) * 100 + DigitsValue(d[2..])
    ensures DigitsValue(d[2..]) < 100
  {
    assert d[..4] == d;
    assert d[..3][..2] == d[..2];
    assert d[2..][..1] == d[2..3];
    assert d[2..3][..0] == [];
    DigitsValueBound(d[2..]);
    assert Pow10(2) == 100;
  }

  /**
   * Where a description or location ends: the end of the argument when there is
   * no backslash; the first backslash when it comes at or after the keyword;
   * otherwise the last backslash.
   */
  function StopIndex(argument: string, pos: int): (stop: int)
    requires pos >= 0
    ensures 0 <= stop <= |argument|
    ensures stop == |argument| <==> !Contains(argument, ESCAPE)
    ensures stop < |argument| ==> argument[stop] == '\\'
    ensures IndexOf(argument, ESCAPE) >= pos ==> forall i :: pos <= i < stop ==> argument[i] != '\\'
    ensures 0 <= IndexOf(argument, ESCAPE) < pos ==> forall i :: stop < i < |argument| ==> argument[i] != '\\'
  {
    OneCharOccurs(argument, '\\');
    var stopIndex := |argument|;
    if !Contains(argument, ESCAPE) then stopIndex
    else
      var escChar := IndexOf(argument, ESCAPE);
      if escChar < pos then LastIndexOf(argument, ESCAPE) else escChar
  }

  /** updateDesc/updateLocation: the text from the end of the keyword to the stop index. */
  function FreeText(argument: string, pos: int, offset: int): (r: Result<string, Failure>)
    requires pos >= 0 && offset >= 0
    ensures r.Success? <==> pos + offset <= StopIndex(argument, pos)
    ensures r.Success? ==> r.value == argument[pos + offset..StopIndex(argument, pos)]
    ensures r.Failure? ==> r.error == IndexOutOfBounds
  {
    var stopIndex := StopIndex(argument, pos);
    if pos + offset > stopIndex then Failure(IndexOutOfBounds)
    else Success(argument[pos + offset..stopIndex])
  }

  /**
   * updateDate: the five characters after " date ", split on "/" into day and
   * month; a third part makes the update do nothing.
   */
  function DateValue(argument: string, pos: int): (r: Result<Option<(int, int)>, Failure>)
    requires pos >= 0
    ensures r.Success? <==> pos + NO_OF_CHAR_IN_DATE + 5 <= |argument| &&
                            var tokens := Split(argument[pos + NO_OF_CHAR_IN_DATE..pos + NO_OF_CHAR_IN_DATE + 5], "/");
                            |tokens| >= 2 && ParseInt(tokens[0]).Some? && ParseInt(tokens[1]).Some?
    ensures r.Success? ==> var tokens := Split(argument[pos + NO_OF_CHAR_IN_DATE..pos + NO_OF_CHAR_IN_DATE + 5], "/");
                           (r.value.Some? <==> |tokens| == 2) &&
                           (r.value.Some? ==> r.value.value == (ParseInt(tokens[0]).value, ParseInt(tokens[1]).value))
    ensures r.Failure? ==> r.error in {IndexOutOfBounds, NumberFormat}
  {
    if pos + NO_OF_CHAR_IN_DATE + 5 > |argument| then Failure(IndexOutOfBounds)
    else
      var tokens := Split(argument[pos + NO_OF_CHAR_IN_DATE..pos + NO_OF_CHAR_IN_DATE + 5], "/");
      if |tokens| == 0 then Failure(IndexOutOfBounds)
      else
        match ParseInt(tokens[0])
        case None => Failure(NumberFormat)
        case Some(day) =>
          if |tokens| < 2 then Failure(IndexOutOfBounds)
          else
            match ParseInt(tokens[1])
            case None => Failure(NumberFormat)
            case Some(mth) => Success(if |tokens| == 2 then Some((day, mth)) else None)
  }

  /** "DD/MM" after " date " (digits on both sides) gives day DD and month MM. */
  lemma {:induction false} DateOfDayMonth(argument: string, pos: int, day: string, month: string)
    requires pos >= 0 && pos + NO_OF_CHAR_IN_DATE + 5 <= |argument|
    requires argument[pos + NO_OF_CHAR_IN_DATE..pos + NO_OF_CHAR_IN_DATE + 5] == day + "/" + month
    requires AllDigits(day) && AllDigits(month) && |day| > 0 && |month| > 0
    ensures DateValue(argument, pos) == Success(Some((DigitsValue(day), DigitsValue(month))))
  {
    SplitDayMonth(day, month);
    assert |day| <= 3 && |month| <= 3;
  }

  /** "DD/MM" split on "/" is the day and the month. */
  lemma SplitDayMonth(day: string, month: string)
    requires AllDigits(day) && AllDigits(month) && |month| > 0
    ensures Split(day + "/" + month, "/") == [day, month]
  {
    var text := day + "/" + month;
    OneCharOccurs(text, '/');
    OneCharOccurs(month, '/');
    forall j | 0 <= j < |day| ensures text[j] != '/' {
      assert IsDigit(day[j]);
    }
    forall j | 0 <= j < |month| ensures month[j] != '/' {
      assert IsDigit(month[j]);
    }
    assert text[|day|] == '/';
    assert IndexOf(text, "/") == |day|;
    assert text[..|day|] == day;
    assert text[|day| + 1..] == month;
    assert !Contains(month, "/");
    assert Fields(text, "/") == [day, month];
  }

  /** Applies edit i found at pos to the task at index, or gives the exception it throws. */
  function ApplyEdit(i: int, pos: int, argument: string, tasks: seq<Task>, index: int, env: Collaborators)
    : (r: Result<seq<Task>, Failure>)
    requires 0 <= i < NO_OF_EDITS && pos >= 0
    ensures r.Success? ==> 0 <= index < |tasks| && |r.value| == |tasks|
    ensures r.Success? ==> forall j :: 0 <= j < |tasks| && j != index ==> r.value[j] == tasks[j]
  {
    var inRange := 0 <= index < |tasks|;
    if i == EDIT_START_TIME || i == EDIT_END_TIME then
      match TimeValue(argument, pos, Offset(i))
      case Failure(f) => Failure(f)
      case Success((hr, min)) =>
        if !inRange then Failure(IndexOutOfBounds)
        else
          match env.newTime(hr, min)
          case Failure(f) => Failure(f)
          case Success(time) =>
            var task := if i == EDIT_START_TIME then tasks[index].(startTime := Some(time))
                        else tasks[index].(endTime := Some(time));
            Success(tasks[index := task])
    else if i == EDIT_DATE then
      match DateValue(argument, pos)
      case Failure(f) => Failure(f)
      case Success(None) => if !inRange then Failure(IndexOutOfBounds) else Success(tasks)
      case Success(Some((day, mth))) =>
        if !inRange then Failure(IndexOutOfBounds)
        else
          match env.newDate(day, mth)
          case Failure(f) => Failure(f)
          case Success(date) => Success(tasks[index := tasks[index].(date := Some(date))])
    else
      // list.getListItem(index) is evaluated before the substring
      if !inRange then Failure(IndexOutOfBounds)
      else
        match FreeText(argument, pos, Offset(i))
        case Failure(f) => Failure(f)
        case Success(text) =>
          var task := if i == EDIT_DESC then tasks[index].(description := text)
                      else tasks[index].(location := Some(text));
          Success(tasks[index := task])
  }

  /**
   * The edits from i on, in the fixed order start time, end time, description,
   * date, location: the list they leave and the exception that stopped them, if
   * any. Edits applied before an exception stay applied.
   */
  function ApplyEdits(i: int, edit: seq<int>, argument: string, tasks: seq<Task>, index: int, env: Collaborators)
    : (r: (seq<Task>, Option<Failure>))
    requires 0 <= i <= NO_OF_EDITS && |edit| == NO_OF_EDITS
    requires forall j :: 0 <= j < NO_OF_EDITS ==> edit[j] >= -1
    ensures |r.0| == |tasks|
    ensures forall j :: 0 <= j < |tasks| && j != index ==> r.0[j] == tasks[j]
    ensures (forall j :: i <= j < NO_OF_EDITS ==> edit[j] == -1) ==> r == (tasks, None)
    decreases NO_OF_EDITS - i
  {
    if i == NO_OF_EDITS then (tasks, None)
    else if edit[i] == -1 then ApplyEdits(i + 1, edit, argument, tasks, index, env)
    else
      match ApplyEdit(i, edit[i], argument, tasks, index, env)
      case Failure(f) => (tasks, Some(f))
      case Success(next) => ApplyEdits(i + 1, edit, argument, next, index, env)
  }

  /** processUpdate's effect on the list and its result: the edited task, or the exception. */
  function Update(tasks: seq<Task>, argument: string, env: Collaborators): (r: (seq<Task>, Result<Task, Failure>))
    ensures |r.0| == |tasks|
    ensures GetTaskIndex(argument).Failure? ==> r == (tasks, Failure(GetTaskIndex(argument).error))
    ensures GetTaskIndex(argument).Success? ==>
              forall j :: 0 <= j < |tasks| && j != ToZeroBased(GetTaskIndex(argument).value) ==> r.0[j] == tasks[j]
    ensures r.1.Success? ==> GetTaskIndex(argument).Success? &&
                             var index := ToZeroBased(GetTaskIndex(argument).value);
                             0 <= index < |tasks| && r.1.value == r.0[index]
  {
    match GetTaskIndex(argument)
    case Failure(f) => (tasks, Failure(f))
    case Success(n) =>
      var index := ToZeroBased(n);
      var (after, thrown) := ApplyEdits(0, EditPositions(argument), argument, tasks, index, env);
      if thrown.Some? then (after, Failure(thrown.value))
      else if 0 <= index < |after| then (after, Success(after[index]))
      else (after, Failure(IndexOutOfBounds))
  }

  /**
   * processUpdate: pushes a snapshot first, then reads the index, finds the
   * keywords and applies the edits in order. Nothing is saved to file.
   */
  method ProcessUpdate(p: Processor, argument: string, env: Collaborators) returns (r: Result<Task, Failure>)
    modifies p
    ensures p.oldLists == old(p.oldLists) + [old(p.list)]
    ensures p.saved == old(p.saved)
    ensures (p.list, r) == Update(old(p.list), argument, env)
  {
    p.StoreCurrentList();
    var n := GetTaskIndex(argument);
    if n.Failure? {
      return Failure(n.error);
    }
    var index := ToZeroBased(n.value);
    var whichToEdit := FindDetailToEdit(argument);
    for i := 0 to NO_OF_EDITS
      invariant p.oldLists == old(p.oldLists) + [old(p.list)] && p.saved == old(p.saved)
      invariant ApplyEdits(i, whichToEdit, argument, p.list, index, env)
                == ApplyEdits(0, whichToEdit, argument, old(p.list), index, env)
    {
      if whichToEdit[i] != -1 {
        var edited := ApplyEdit(i, whichToEdit[i], argument, p.list, index, env);
        if edited.Failure? {
          return Failure(edited.error);
        }
        p.list := edited.value;
      }
    }
    if !(0 <= index < |p.list|) {
      return Failure(IndexOutOfBounds);
    }
    r := Success(p.list[index]);
  }

  /** A start or end time edit's new value: the sliced hour and minute given to the Time constructor. */
  function TimeEdit(i: int, pos: int, argument: string, env: Collaborators): Result<Moment, Failure>
    requires (i == EDIT_START_TIME || i == EDIT_END_TIME) && pos >= 0
  {
    match TimeValue(argument, pos, Offset(i))
    case Failure(f) => Failure(f)
    case Success((hr, min)) =>
      match env.newTime(hr, min)
      case Failure(f) => Failure(f)
      case Success(time) => Success(time)
  }

  /**
   * after is before with the edits at positions from up to (not including)
   * upto applied, each field on its own: a field in that range whose keyword
   * occurs holds the value sliced after that keyword; every other field is
   * unchanged.
   */
  ghost predicate EditedAsAsked(from: int, upto: int, edit: seq<int>, argument: string, before: Task, after: Task, env: Collaborators)
    requires |edit| == NO_OF_EDITS && forall j :: 0 <= j < NO_OF_EDITS ==> edit[j] >= -1
  {
    (if from <= EDIT_START_TIME < upto && edit[EDIT_START_TIME] != -1
     then after.startTime.Some? && TimeEdit(EDIT_START_TIME, edit[EDIT_START_TIME], argument, env) == Success(after.startTime.value)
     else after.startTime == before.startTime) &&
    (if from <= EDIT_END_TIME < upto && edit[EDIT_END_TIME] != -1
     then after.endTime.Some? && TimeEdit(EDIT_END_TIME, edit[EDIT_END_TIME], argument, env) == Success(after.endTime.value)
     else after.endTime == before.endTime) &&
    (if from <= EDIT_DESC < upto && edit[EDIT_DESC] != -1
     then FreeText(argument, edit[EDIT_DESC], NO_OF_CHAR_IN_DESC) == Success(after.description)
     else after.description == before.description) &&
    (if from <= EDIT_DATE < upto && edit[EDIT_DATE] != -1
     then match DateValue(argument, edit[EDIT_DATE])
          case Success(Some((day, mth))) => after.date.Some? && env.newDate(day, mth) == Success(after.date.value)
          case Success(None) => after.date == before.date
          case Failure(_) => false
     else after.date == before.date) &&
    (if from <= EDIT_LOCATION < upto && edit[EDIT_LOCATION] != -1
     then after.location.Some? && FreeText(argument, edit[EDIT_LOCATION], NO_OF_CHAR_IN_LOC) == Success(after.location.value)
     else after.location == before.location)
  }

  /** After a run of edits with no exception, every field is as the argument asked. */
  lemma {:induction false} ApplyEditsFields(i: int, edit: seq<int>, argument: string, tasks: seq<Task>, index: int, env: Collaborators)
    requires 0 <= i <= NO_OF_EDITS && |edit| == NO_OF_EDITS && forall j :: 0 <= j < NO_OF_EDITS ==> edit[j] >= -1
    requires 0 <= index < |tasks|
    requires ApplyEdits(i, edit, argument, tasks, index, env).1 == None
    ensures EditedAsAsked(i, NO_OF_EDITS, edit, argument, tasks[index], ApplyEdits(i, edit, argument, tasks, index, env).0[index], env)
    decreases NO_OF_EDITS - i
  {
    if i < NO_OF_EDITS {
      if edit[i] == -1 {
        assert ApplyEdits(i, edit, argument, tasks, index, env) == ApplyEdits(i + 1, edit, argument, tasks, index, env);
        ApplyEditsFields(i + 1, edit, argument, tasks, index, env);
        var after := ApplyEdits(i, edit, argument, tasks, index, env).0;
        SkipAsked(i, NO_OF_EDITS, edit, argument, tasks[index], after[index], env);
      } else {
        if ApplyEdit(i, edit[i], argument, tasks, index, env).Failure? {
          FailStep(i, edit, argument, tasks, index, env);
        }
        SuccessUnfold(i, edit, argument, tasks, index, env);
        var next := ApplyEdit(i, edit[i], argument, tasks, index, env).value;
        ApplyEditsFields(i + 1, edit, argument, next, index, env);
        var after := ApplyEdits(i, edit, argument, tasks, index, env).0;
        EditStep(i, NO_OF_EDITS, edit, argument, tasks, index, after[index], env);
      }
    }
  }

  /**
   * When a run of edits stops with an exception f, some edit k whose keyword
   * occurs is the one that threw: the edits before it (in the fixed order start
   * time, end time, description, date, location) stay applied to the task, the
   * fields from k on are untouched, and f is what edit k throws on the list as
   * the earlier edits left it. With the index out of range no edit applies.
   */
  lemma {:induction false} ApplyEditsFailure(i: int, edit: seq<int>, argument: string, tasks: seq<Task>, index: int, env: Collaborators)
    requires 0 <= i <= NO_OF_EDITS && |edit| == NO_OF_EDITS && forall j :: 0 <= j < NO_OF_EDITS ==> edit[j] >= -1
    requires ApplyEdits(i, edit, argument, tasks, index, env).1.Some?
    ensures exists k :: FailedAt(i, k, edit, argument, tasks, index, env)
    ensures !(0 <= index < |tasks|) ==> ApplyEdits(i, edit, argument, tasks, index, env).0 == tasks
    decreases NO_OF_EDITS - i
  {
    if edit[i] == -1 {
      ApplyEditsFailure(i + 1, edit, argument, tasks, index, env);
      var k :| FailedAt(i + 1, k, edit, argument, tasks, index, env);
      SkipStep(i, k, edit, argument, tasks, index, env);
    } else {
      match ApplyEdit(i, edit[i], argument, tasks, index, env)
      case Failure(f) =>
        FailStep(i, edit, argument, tasks, index, env);
      case Success(next) =>
        SuccessUnfold(i, edit, argument, tasks, index, env);
        ApplyEditsFailure(i + 1, edit, argument, next, index, env);
        var k :| FailedAt(i + 1, k, edit, argument, next, index, env);
        SuccessStep(i, k, edit, argument, tasks, index, env);
    }
  }

  /** An edit whose keyword is absent does not change where the run stops. */
  lemma SkipStep(i: int, k: int, edit: seq<int>, argument: string, tasks: seq<Task>, index: int, env: Collaborators)
    requires 0 <= i < NO_OF_EDITS && |edit| == NO_OF_EDITS && forall j :: 0 <= j < NO_OF_EDITS ==> edit[j] >= -1
    requires edit[i] == -1 && FailedAt(i + 1, k, edit, argument, tasks, index, env)
    ensures FailedAt(i, k, edit, argument, tasks, index, env)
    ensures ApplyEdits(i, edit, argument, tasks, index, env) == ApplyEdits(i + 1, edit, argument, tasks, index, env)
  {
    assert ApplyEdits(i, edit, argument, tasks, index, env) == ApplyEdits(i + 1, edit, argument, tasks, index, env);
    var after := ApplyEdits(i, edit, argument, tasks, index, env).0;
    if 0 <= index < |tasks| {
      SkipAsked(i, k, edit, argument, tasks[index], after[index], env);
    }
  }

  /** An edit whose keyword is absent adds nothing to the edits asked for. */
  lemma SkipAsked(i: int, k: int, edit: seq<int>, argument: string, before: Task, after: Task, env: Collaborators)
    requires 0 <= i < NO_OF_EDITS && |edit| == NO_OF_EDITS && forall j :: 0 <= j < NO_OF_EDITS ==> edit[j] >= -1
    requires edit[i] == -1 && EditedAsAsked(i + 1, k, edit, argument, before, after, env)
    ensures EditedAsAsked(i, k, edit, argument, before, after, env)
  {
  }

  /** A successful edit hands the run on to the next edit with the edited list. */
  lemma SuccessUnfold(i: int, edit: seq<int>, argument: string, tasks: seq<Task>, index: int, env: Collaborators)
    requires 0 <= i < NO_OF_EDITS && |edit| == NO_OF_EDITS && forall j :: 0 <= j < NO_OF_EDITS ==> edit[j] >= -1
    requires edit[i] != -1 && ApplyEdit(i, edit[i], argument, tasks, index, env).Success?
    ensures 0 <= index < |tasks|
    ensures ApplyEdits(i, edit, argument, tasks, index, env) ==
            ApplyEdits(i + 1, edit, argument, ApplyEdit(i, edit[i], argument, tasks, index, env).value, index, env)
  {
  }

  /** An edit that throws stops the run right there, with the list as it was. */
  lemma FailStep(i: int, edit: seq<int>, argument: string, tasks: seq<Task>, index: int, env: Collaborators)
    requires 0 <= i < NO_OF_EDITS && |edit| == NO_OF_EDITS && forall j :: 0 <= j < NO_OF_EDITS ==> edit[j] >= -1
    requires edit[i] != -1 && ApplyEdit(i, edit[i], argument, tasks, index, env).Failure?
    ensures FailedAt(i, i, edit, argument, tasks, index, env)
    ensures ApplyEdits(i, edit, argument, tasks, index, env).0 == tasks
  {
    assert ApplyEdits(i, edit, argument, tasks, index, env) == (tasks, Some(ApplyEdit(i, edit[i], argument, tasks, index, env).error));
  }

  /** An edit that succeeds is one more applied edit in front of where the rest of the run stops. */
  lemma SuccessStep(i: int, k: int, edit: seq<int>, argument: string, tasks: seq<Task>, index: int, env: Collaborators)
    requires 0 <= i < NO_OF_EDITS && |edit| == NO_OF_EDITS && forall j :: 0 <= j < NO_OF_EDITS ==> edit[j] >= -1
    requires edit[i] != -1 && ApplyEdit(i, edit[i], argument, tasks, index, env).Success?
    requires FailedAt(i + 1, k, edit, argument, ApplyEdit(i, edit[i], argument, tasks, index, env).value, index, env)
    ensures FailedAt(i, k, edit, argument, tasks, index, env)
  {
    SuccessUnfold(i, edit, argument, tasks, index, env);
    var after := ApplyEdits(i, edit, argument, tasks, index, env).0;
    EditStep(i, k, edit, argument, tasks, index, after[index], env);
  }

  /**
   * The edits from i on stopped at edit k: its keyword occurs, it throws what
   * the run reports on the list as the earlier edits left it, and the target
   * task has exactly the edits from i up to k applied.
   */
  ghost predicate FailedAt(i: int, k: int, edit: seq<int>, argument: string, tasks: seq<Task>, index: int, env: Collaborators)
    requires 0 <= i <= NO_OF_EDITS && |edit| == NO_OF_EDITS && forall j :: 0 <= j < NO_OF_EDITS ==> edit[j] >= -1
  {
    var r := ApplyEdits(i, edit, argument, tasks, index, env);
    i <= k < NO_OF_EDITS && edit[k] != -1 && r.1.Some? &&
    ApplyEdit(k, edit[k], argument, r.0, index, env) == Failure(r.1.value) &&
    (0 <= index < |tasks| ==> EditedAsAsked(i, k, edit, argument, tasks[index], r.0[index], env))
  }

  /** A successful edit i followed by the edits from i + 1 up to k is the edits from i up to k. */
  lemma EditStep(i: int, k: int, edit: seq<int>, argument: string, tasks: seq<Task>, index: int, t: Task, env: Collaborators)
    requires 0 <= i < k <= NO_OF_EDITS && |edit| == NO_OF_EDITS && forall j :: 0 <= j < NO_OF_EDITS ==> edit[j] >= -1
    requires edit[i] != -1 && ApplyEdit(i, edit[i], argument, tasks, index, env).Success?
    requires 0 <= index < |tasks|
    requires EditedAsAsked(i + 1, k, edit, argument, ApplyEdit(i, edit[i], argument, tasks, index, env).value[index], t, env)
    ensures EditedAsAsked(i, k, edit, argument, tasks[index], t, env)
  {
    if i == EDIT_START_TIME || i == EDIT_END_TIME {
      TimeEditStep(i, k, edit, argument, tasks, index, t, env);
    } else if i == EDIT_DATE {
      DateEditStep(i, k, edit, argument, tasks, index, t, env);
    } else {
      TextEditStep(i, k, edit, argument, tasks, index, t, env);
    }
  }

  /** EditStep for a start or end time edit. */
  lemma TimeEditStep(i: int, k: int, edit: seq<int>, argument: string, tasks: seq<Task>, index: int, t: Task, env: Collaborators)
    requires i == EDIT_START_TIME || i == EDIT_END_TIME
    requires 0 <= i < k <= NO_OF_EDITS && |edit| == NO_OF_EDITS && forall j :: 0 <= j < NO_OF_EDITS ==> edit[j] >= -1
    requires edit[i] != -1 && ApplyEdit(i, edit[i], argument, tasks, index, env).Success?
    requires 0 <= index < |tasks|
    requires EditedAsAsked(i + 1, k, edit, argument, ApplyEdit(i, edit[i], argument, tasks, index, env).value[index], t, env)
    ensures EditedAsAsked(i, k, edit, argument, tasks[index], t, env)
  {
  }

  /** EditStep for a date edit. */
  lemma DateEditStep(i: int, k: int, edit: seq<int>, argument: string, tasks: seq<Task>, index: int, t: Task, env: Collaborators)
    requires i == EDIT_DATE
    requires 0 <= i < k <= NO_OF_EDITS && |edit| == NO_OF_EDITS && forall j :: 0 <= j < NO_OF_EDITS ==> edit[j] >= -1
    requires edit[i] != -1 && ApplyEdit(i, edit[i], argument, tasks, index, env).Success?
    requires 0 <= index < |tasks|
    requires EditedAsAsked(i + 1, k, edit, argument, ApplyEdit(i, edit[i], argument, tasks, index, env).value[index], t, env)
    ensures EditedAsAsked(i, k, edit, argument, tasks[index], t, env)
  {
  }

  /** EditStep for a description or location edit. */
  lemma TextEditStep(i: int, k: int, edit: seq<int>, argument: string, tasks: seq<Task>, index: int, t: Task, env: Collaborators)
    requires i == EDIT_DESC || i == EDIT_LOCATION
    requires 0 <= i < k <= NO_OF_EDITS && |edit| == NO_OF_EDITS && forall j :: 0 <= j < NO_OF_EDITS ==> edit[j] >= -1
    requires edit[i] != -1 && ApplyEdit(i, edit[i], argument, tasks, index, env).Success?
    requires 0 <= index < |tasks|
    requires EditedAsAsked(i + 1, k, edit, argument, ApplyEdit(i, edit[i], argument, tasks, index, env).value[index], t, env)
    ensures EditedAsAsked(i, k, edit, argument, tasks[index], t, env)
  {
  }

  /**
   * A successful update returns the task at index n - 1 with exactly the
   * fields named in the argument replaced by the values sliced after them.
   */
  lemma UpdatedTask(tasks: seq<Task>, argument: string, env: Collaborators)
    requires Update(tasks, argument, env).1.Success?
    ensures GetTaskIndex(argument).Success?
    ensures var index := ToZeroBased(GetTaskIndex(argument).value);
            0 <= index < |tasks| &&
            Update(tasks, argument, env).1.value == Update(tasks, argument, env).0[index] &&
            EditedAsAsked(0, NO_OF_EDITS, EditPositions(argument), argument, tasks[index], Update(tasks, argument, env).1.value, env)
  {
    var index := ToZeroBased(GetTaskIndex(argument).value);
    ApplyEditsFields(0, EditPositions(argument), argument, tasks, index, env);
  }

  /** Where the spaces and backslashes are in the argument of the example below. */
  lemma ExampleMarkers(s: string)
    requires s == "4 desc Dinner with Parents\\ location home\\"
    ensures |s| == 42
    ensures forall j :: 0 <= j < |s| && s[j] == ' ' ==> j in {1, 6, 13, 18, 27, 36}
    ensures forall j :: 0 <= j < |s| && s[j] == '\\' ==> j in {26, 41}
    ensures s[0] == '4' && s[1] == ' ' && s[2] == 'd' && s[3] == 'e' && s[7] == 'D' && s[14] == 'w'
    ensures s[19] == 'P' && s[26] == '\\' && s[27] == ' ' && s[28] == 'l' && s[37] == 'h' && s[41] == '\\'
  {
    ExampleHead(s);
    ExampleMiddle(s);
    ExampleTail(s);
  }

  /** The spaces and backslashes among the first fourteen characters of the example argument. */
  lemma ExampleHead(s: string)
    requires s == "4 desc Dinner with Parents\\ location home\\"
    ensures forall j :: 0 <= j < 14 && s[j] == ' ' ==> j in {1, 6, 13}
    ensures forall j :: 0 <= j < 14 ==> s[j] != '\\'
  {
    forall j | 0 <= j < 14 ensures (s[j] == ' ' ==> j in {1, 6, 13}) && s[j] != '\\' {
      assert j == 0 || j == 1 || j == 2 || j == 3 || j == 4 || j == 5 || j == 6 || j == 7 || j == 8 || j == 9 ||
           j == 10 || j == 11 || j == 12 || j == 13;
    }
  }

  /** The spaces and backslashes among the middle fourteen characters of the example argument. */
  lemma ExampleMiddle(s: string)
    requires s == "4 desc Dinner with Parents\\ location home\\"
    ensures forall j :: 14 <= j < 28 && s[j] == ' ' ==> j in {18, 27}
    ensures forall j :: 14 <= j < 28 && s[j] == '\\' ==> j in {26}
  {
    forall j | 14 <= j < 28 ensures (s[j] == ' ' ==> j in {18, 27}) && (s[j] == '\\' ==> j in {26}) {
      assert j == 14 || j == 15 || j == 16 || j == 17 || j == 18 || j == 19 || j == 20 || j == 21 || j == 22 || j == 23 ||
           j == 24 || j == 25 || j == 26 || j == 27;
    }
  }

  /** The spaces and backslashes among the last fourteen characters of the example argument. */
  lemma ExampleTail(s: string)
    requires s == "4 desc Dinner with Parents\\ location home\\"
    ensures forall j :: 28 <= j < 42 && s[j] == ' ' ==> j in {36}
    ensures forall j :: 28 <= j < 42 && s[j] == '\\' ==> j in {41}
  {
    forall j | 28 <= j < 42 ensures (s[j] == ' ' ==> j in {36}) && (s[j] == '\\' ==> j in {41}) {
      assert j == 28 || j == 29 || j == 30 || j == 31 || j == 32 || j == 33 || j == 34 || j == 35 || j == 36 || j == 37 ||
           j == 38 || j == 39 || j == 40 || j == 41;
    }
  }

  /** The keyword t does not occur in s: no space in s is followed by t's next two characters. */
  lemma AbsentKeyword(s: string, t: string, spaces: set<int>)
    requires |t| >= 3 && t[0] == ' '
    requires forall j :: 0 <= j < |s| && s[j] == ' ' ==> j in spaces
    requires forall j :: j in spaces && 0 <= j && j + 2 < |s| ==> s[j + 1] != t[1] || s[j + 2] != t[2]
    ensures forall j :: !OccursAt(s, t, j)
  {
    forall j ensures !OccursAt(s, t, j) {
      OccursAtChars(s, t, j);
    }
  }

  /** The example argument names task 4. */
  lemma ExampleIndex(s: string)
    requires s == "4 desc Dinner with Parents\\ location home\\"
    ensures GetTaskIndex(s) == Success(4)
  {
    ExampleMarkers(s);
    OneCharOccurs(s, ' ');
    FirstOccurrenceIsIndexOf(s, " ", 1);
    assert s[..1] == "4";
    assert DigitsValue("4") == 4 by { assert "4"[..0] == ""; }
  }

  /** In the example argument " desc " starts at 1. */
  lemma ExampleDesc(s: string)
    requires s == "4 desc Dinner with Parents\\ location home\\"
    ensures IndexOf(s, " desc ") == 1
  {
    forall k | 0 <= k < 6 ensures s[1 + k] == " desc "[k] {
      assert k == 0 || k == 1 || k == 2 || k == 3 || k == 4 || k == 5;
    }
    assert s[1..7] == " desc ";
    OccursAtChars(s, " desc ", 0);
    assert s[0] == '4';
    FirstOccurrenceIsIndexOf(s, " desc ", 1);
  }

  /** In the example argument " location " starts at 27. */
  lemma ExampleLocation(s: string)
    requires s == "4 desc Dinner with Parents\\ location home\\"
    ensures IndexOf(s, " location ") == 27
  {
    ExampleMarkers(s);
    forall k | 0 <= k < 10 ensures s[27 + k] == " location "[k] {
      assert k == 0 || k == 1 || k == 2 || k == 3 || k == 4 || k == 5 || k == 6 || k == 7 || k == 8 || k == 9;
    }
    assert s[27..37] == " location ";
    forall j | 0 <= j < 27 ensures !OccursAt(s, " location ", j) {
      OccursAtChars(s, " location ", j);
    }
    FirstOccurrenceIsIndexOf(s, " location ", 27);
  }

  /**
   * The example argument holds none of " starttime ", " endtime " and " date ":
   * after its spaces come "de", "Di", "wi", "Pa", "lo" and "ho".
   */
  lemma ExampleAbsentKeyword(s: string, keyword: string)
    requires s == "4 desc Dinner with Parents\\ location home\\"
    requires keyword == " starttime " || keyword == " endtime " || keyword == " date "
    ensures IndexOf(s, keyword) == -1
  {
    ExampleMarkers(s);
    AbsentKeyword(s, keyword, {1, 6, 13, 18, 27, 36});
    FirstOccurrenceIsIndexOf(s, keyword, -1);
  }

  /** The edit array lists where each keyword starts. */
  lemma PositionsOfKeywords(s: string, starttime: int, endtime: int, desc: int, date: int, location: int)
    requires IndexOf(s, " starttime ") == starttime && IndexOf(s, " endtime ") == endtime
    requires IndexOf(s, " desc ") == desc && IndexOf(s, " date ") == date && IndexOf(s, " location ") == location
    ensures EditPositions(s) == [starttime, endtime, desc, date, location]
  {
  }

  /** In the example argument the description stops at the first backslash, the location at the last. */
  lemma ExampleStops(s: string)
    requires s == "4 desc Dinner with Parents\\ location home\\"
    ensures StopIndex(s, 1) == 26 && StopIndex(s, 27) == 41
  {
    ExampleMarkers(s);
    OneCharOccurs(s, '\\');
    FirstOccurrenceIsIndexOf(s, ESCAPE, 26);
    var last := LastIndexOf(s, ESCAPE);
    assert OccursAt(s, ESCAPE, 41);
    assert last == 41;
  }

  /** The description text of the example argument. */
  lemma ExampleDescText(s: string)
    requires s == "4 desc Dinner with Parents\\ location home\\"
    ensures s[7..26] == "Dinner with Parents"
  {
    var head := "4 desc Dinner with Parents";
    assert s == head + "\\ location home\\";
    assert head == "4 desc " + "Dinner with Parents";
  }

  /** The location text of the example argument. */
  lemma ExampleLocationText(s: string)
    requires s == "4 desc Dinner with Parents\\ location home\\"
    ensures s[37..41] == "home"
  {
    assert s == "4 desc Dinner with Parents\\ location " + "home" + "\\";
  }

  /** The description runs up to the first backslash, the location up to the last. */
  lemma ExampleValues(s: string)
    requires s == "4 desc Dinner with Parents\\ location home\\"
    ensures FreeText(s, 1, NO_OF_CHAR_IN_DESC) == Success("Dinner with Parents")
    ensures FreeText(s, 27, NO_OF_CHAR_IN_LOC) == Success("home")
  {
    ExampleStops(s);
    ExampleDescText(s);
    ExampleLocationText(s);
  }

  /** An argument naming task 4 whose only keywords are " desc " at 1 and " location " at 27. */
  lemma UpdateDescAndLocation(tasks: seq<Task>, s: string, desc: string, location: string, env: Collaborators)
    requires |tasks| >= 4 && GetTaskIndex(s) == Success(4)
    requires EditPositions(s) == [-1, -1, 1, -1, 27]
    requires FreeText(s, 1, NO_OF_CHAR_IN_DESC) == Success(desc)
    requires FreeText(s, 27, NO_OF_CHAR_IN_LOC) == Success(location)
    ensures var r := Update(tasks, s, env);
            r.1.Success? && r.1.value.description == desc && r.1.value.location == Some(location)
  {
    var edit := EditPositions(s);
    var t1 := tasks[3 := tasks[3].(description := desc)];
    var t2 := t1[3 := t1[3].(location := Some(location))];
    assert ApplyEdit(EDIT_DESC, 1, s, tasks, 3, env) == Success(t1);
    assert ApplyEdit(EDIT_LOCATION, 27, s, t1, 3, env) == Success(t2);
    assert ApplyEdits(4, edit, s, t1, 3, env) == (t2, None);
    assert ApplyEdits(2, edit, s, tasks, 3, env) == (t2, None);
    assert ApplyEdits(0, edit, s, tasks, 3, env) == (t2, None);
  }

  /**
   * The argument "4 desc Dinner with Parents\\ location home\\": the first
   * backslash closes the description, and since it comes before " location ",
   * the last backslash closes the location.
   */
  lemma DescriptionAndLocationExample(tasks: seq<Task>, argument: string, env: Collaborators)
    requires |tasks| >= 4 && argument == "4 desc Dinner with Parents\\ location home\\"
    ensures var r := Update(tasks, argument, env);
            r.1.Success? && r.1.value.description == "Dinner with Parents" && r.1.value.location == Some("home")
  {
    ExampleIndex(argument);
    ExampleDesc(argument);
    ExampleLocation(argument);
    ExampleAbsentKeyword(argument, " starttime ");
    ExampleAbsentKeyword(argument, " endtime ");
    ExampleAbsentKeyword(argument, " date ");
    PositionsOfKeywords(argument, -1, -1, 1, -1, 27);
    ExampleValues(argument);
    UpdateDescAndLocation(tasks, argument, "Dinner with Parents", "home", env);
  }

  /** Only the task at the given index changes, whatever happens. */
  lemma UpdateTouchesOnlyTarget(tasks: seq<Task>, argument: string, env: Collaborators, j: int)
    requires 0 <= j < |tasks|
    requires GetTaskIndex(argument).Success? ==> j != ToZeroBased(GetTaskIndex(argument).value)
    ensures |Update(tasks, argument, env).0| == |tasks|
    ensures Update(tasks, argument, env).0[j] == tasks[j]
  {
  }
}
