/**
 * AddProcessor: turns a free-text argument such as "Tutorial in ERC on 5 Feb at 2pm"
 * into a task. The argument is scanned for the earliest of seven keywords, cut
 * there, and the text after the keyword fills the slot that keyword names; this
 * repeats on that text until no keyword is left. The text before the first
 * keyword is the description.
 */
module AddProcessor {
  import opened Wrappers
  import opened JavaText
  import opened Tasks

  const Keywords: seq<string> := [" at ", " from ", " until ", " to ", " in ", " due ", " on "]

  const NOT_FOUND: int := -1
  const INVALID_INPUT: string := "Invalid input format"

  // Slots of the taskDetails array.
  const DESC: int := 0
  const START_TIME: int := 1
  const END_TIME: int := 2
  const DATE: int := 3
  const LOCATION: int := 4
  const NO_OF_TASK_DETAILS: int := 5

  lemma KeywordsNonEmpty()
    ensures |Keywords| == 7
    ensures forall k :: 0 <= k < |Keywords| ==> |Keywords[k]| >= 4
  {
  }

  /** Some keyword occurs in s. */
  predicate AnyKeyword(s: string) {
    exists k :: 0 <= k < |Keywords| && Contains(s, Keywords[k])
  }

  /** Keyword a comes no later in s than keyword b; at the same position, the one declared first. */
  predicate Precedes(s: string, a: int, b: int)
    requires 0 <= a < |Keywords| && 0 <= b < |Keywords|
  {
    var pa, pb := IndexOf(s, Keywords[a]), IndexOf(s, Keywords[b]);
    pa < pb || (pa == pb && a <= b)
  }

  /**
   * The index of the earliest-occurring keyword among the first n, or -1 when
   * none of them occurs; what getFirstKeyword's loop has found after n rounds.
   */
  function EarliestAmong(s: string, n: nat): (k: int)
    requires n <= |Keywords|
    ensures -1 <= k < n
    ensures k == -1 <==> forall j :: 0 <= j < n ==> !Contains(s, Keywords[j])
    ensures k != -1 ==> Contains(s, Keywords[k])
    ensures k != -1 ==> forall j :: 0 <= j < n && Contains(s, Keywords[j]) ==> Precedes(s, k, j)
  {
    if n == 0 then NOT_FOUND
    else
      var best := EarliestAmong(s, n - 1);
      var kw := Keywords[n - 1];
      if Contains(s, kw) && (best == NOT_FOUND || IndexOf(s, kw) < IndexOf(s, Keywords[best])) then n - 1
      else best
  }

  /** The keyword getFirstKeyword picks in s, or -1. */
  function FirstKeyword(s: string): (k: int)
    ensures k == NOT_FOUND <==> !AnyKeyword(s)
    ensures k != NOT_FOUND ==> 0 <= k < |Keywords| && Contains(s, Keywords[k])
    ensures k != NOT_FOUND ==> forall j :: 0 <= j < |Keywords| && Contains(s, Keywords[j]) ==> Precedes(s, k, j)
  {
    EarliestAmong(s, |Keywords|)
  }

  /** At most one keyword satisfies FirstKeyword's contract, so that contract decides the result. */
  lemma {:induction false} FirstKeywordUnique(s: string, k: int)
    requires 0 <= k < |Keywords| && Contains(s, Keywords[k])
    requires forall j :: 0 <= j < |Keywords| && Contains(s, Keywords[j]) ==> Precedes(s, k, j)
    ensures k == FirstKeyword(s)
  {
    var f := FirstKeyword(s);
    assert Precedes(s, k, f) && Precedes(s, f, k);
  }

  /** keywordIsInString: tries each keyword in turn. */
  method KeywordIsInString(input: string) returns (found: bool)
    ensures found == AnyKeyword(input)
  {
    for i := 0 to |Keywords|
      invariant forall j :: 0 <= j < i ==> !Contains(input, Keywords[j])
    {
      if Contains(input, Keywords[i]) {
        return true;
      }
    }
    return false;
  }

  /** getFirstKeyword: keeps the keyword with the smallest indexOf, replacing it only on a strictly smaller one. */
  method GetFirstKeyword(input: string) returns (firstKeyword: int)
    ensures firstKeyword == NOT_FOUND <==> !AnyKeyword(input)
    ensures firstKeyword == FirstKeyword(input)
  {
    KeywordsNonEmpty();
    var firstKeywordPos := |input|;
    firstKeyword := NOT_FOUND;
    for i := 0 to |Keywords|
      invariant firstKeyword == EarliestAmong(input, i)
      invariant firstKeywordPos == if firstKeyword == NOT_FOUND then |input| else IndexOf(input, Keywords[firstKeyword])
    {
      if Contains(input, Keywords[i]) {
        if IndexOf(input, Keywords[i]) < firstKeywordPos {
          firstKeywordPos := IndexOf(input, Keywords[i]);
          firstKeyword := i;
        }
      }
    }
  }

  /** splitByKeyword: Pattern.split on the quoted keyword. */
  function SplitByKeyword(input: string, k: int): (fragments: seq<string>)
    requires 0 <= k < |Keywords|
    ensures Contains(input, Keywords[k]) && |fragments| >= 1 ==>
              fragments[0] == input[..IndexOf(input, Keywords[k])]
    ensures |fragments| >= 2 ==> |fragments[1]| < |input|
  {
    KeywordsNonEmpty();
    Split(input, Keywords[k])
  }

  lemma OccursInPrefix(s: string, n: int, t: string, j: int)
    requires 0 <= n <= |s|
    ensures OccursAt(s[..n], t, j) ==> OccursAt(s, t, j) && j + |t| <= n
  {
    if OccursAt(s[..n], t, j) {
      assert s[..n][j..j + |t|] == s[j..j + |t|];
    }
  }

  /** getWordsBeforeNextKeyword: the text before the first occurrence of keyword. */
  function WordsBeforeNextKeyword(input: string, keyword: string): (words: string)
    requires Contains(input, keyword)
    ensures words <= input && OccursAt(input, keyword, |words|)
    ensures |keyword| > 0 ==> !Contains(words, keyword)
  {
    PrefixBeforeFirstIsFree(input, keyword);
    input[..IndexOf(input, keyword)]
  }

  /** The text before the earliest keyword contains no keyword at all. */
  lemma {:induction false} BeforeFirstKeywordIsFree(input: string)
    requires AnyKeyword(input)
    ensures !AnyKeyword(input[..IndexOf(input, Keywords[FirstKeyword(input)])])
  {
    KeywordsNonEmpty();
    var k := FirstKeyword(input);
    var p := IndexOf(input, Keywords[k]);
    forall j, q | 0 <= j < |Keywords| ensures !OccursAt(input[..p], Keywords[j], q) {
      OccursInPrefix(input, p, Keywords[j], q);
      if OccursAt(input, Keywords[j], q) {
        ContainsWitness(input, Keywords[j], q);
        assert Precedes(input, k, j);
      }
    }
  }

  /**
   * retrieveLocation: the whole text when no keyword follows, otherwise the
   * text up to the earliest keyword.
   */
  function RetrieveLocation(input: string): (location: string)
    ensures location <= input && !AnyKeyword(location)
    ensures !AnyKeyword(input) ==> location == input
    ensures AnyKeyword(input) ==> OccursAt(input, Keywords[FirstKeyword(input)], |location|)
  {
    var k := FirstKeyword(input);
    if k == NOT_FOUND then input
    else
      BeforeFirstKeywordIsFree(input);
      WordsBeforeNextKeyword(input, Keywords[k])
  }

  /** The text up to the first space, or all of it when there is none. */
  function FirstWord(input: string): (word: string)
    ensures word <= input
    ensures forall i :: 0 <= i < |word| ==> word[i] != ' '
    ensures |word| < |input| ==> input[|word|] == ' '
  {
    var spaceIndex := IndexOf(input, " ");
    OneCharOccurs(input, ' ');
    if spaceIndex == NOT_FOUND then input else input[..spaceIndex]
  }

  /** retrieveStartTime and retrieveEndTime (the two are the same code); the time parser may throw. */
  function RetrieveTime(input: string, spaceIndex: int, env: Collaborators): (r: Result<Option<string>, Unchecked>)
    requires 0 <= spaceIndex <= |input|
    ensures spaceIndex == (if Contains(input, " ") then IndexOf(input, " ") else |input|) ==>
              r == env.parseTimeString(FirstWord(input))
  {
    assert input[..|input|] == input;
    env.parseTimeString(input[..spaceIndex])
  }

  /** The slot keyword k fills: " at "/" from " the start time, " until "/" to "/" due " the end time, " in " the location, " on " the date. */
  function SlotOf(k: int): (slot: int)
    requires 0 <= k < |Keywords|
    ensures START_TIME <= slot <= LOCATION
  {
    if k == 0 || k == 1 then START_TIME
    else if k == 4 then LOCATION
    else if k == 6 then DATE
    else END_TIME
  }

  /** What keywordHandler does to the slots, or the exception it throws. */
  function Handle(k: int, input: string, slots: seq<Option<string>>, env: Collaborators): (r: Result<seq<Option<string>>, Failure>)
    requires 0 <= k < |Keywords| && |slots| == NO_OF_TASK_DETAILS
    ensures r.Failure? <==> (SlotOf(k) == DATE && env.parseDateString(input).Failure?) ||
                            (SlotOf(k) in {START_TIME, END_TIME} && env.parseTimeString(FirstWord(input)).Failure?)
    ensures r.Failure? && SlotOf(k) == DATE ==> r.error == env.parseDateString(input).error
    ensures r.Failure? && SlotOf(k) != DATE ==> r.error == env.parseTimeString(FirstWord(input)).error && !r.error.InvalidInput?
    ensures r.Success? ==> |r.value| == NO_OF_TASK_DETAILS
    ensures r.Success? ==> forall j :: 0 <= j < NO_OF_TASK_DETAILS && j != SlotOf(k) ==> r.value[j] == slots[j]
    ensures r.Success? && SlotOf(k) in {START_TIME, END_TIME} ==>
              r.value[SlotOf(k)] == env.parseTimeString(FirstWord(input)).value
    ensures r.Success? && SlotOf(k) == LOCATION ==> r.value[LOCATION] == Some(RetrieveLocation(input))
    ensures r.Success? && SlotOf(k) == DATE ==> r.value[DATE] == env.parseDateString(input).value
  {
    var slot := SlotOf(k);
    if slot == DATE then
      match env.parseDateString(input)
      case Failure(f) => Failure(f)
      case Success(date) => Success(slots[DATE := date])
    else if slot == LOCATION then Success(slots[LOCATION := Some(RetrieveLocation(input))])
    else
      match env.parseTimeString(FirstWord(input))
      case Failure(f) => Failure(f)
      case Success(time) => Success(slots[slot := time])
  }

  /** keywordHandler: fills the slot of keyword keywordType from the text after it. */
  method KeywordHandler(keywordType: int, input: string, taskDetails: array<Option<string>>, env: Collaborators)
    returns (thrown: Option<Failure>)
    requires 0 <= keywordType < |Keywords| && taskDetails.Length == NO_OF_TASK_DETAILS
    modifies taskDetails
    ensures match Handle(keywordType, input, old(taskDetails[..]), env)
            case Success(slots) => thrown == None && taskDetails[..] == slots
            case Failure(f) => thrown == Some(f) && taskDetails[..] == old(taskDetails[..])
  {
    var spaceIndex := IndexOf(input, " ");
    if spaceIndex == NOT_FOUND {
      spaceIndex := |input|;
    }
    assert input[..spaceIndex] == FirstWord(input);
    thrown := None;
    if keywordType == 0 || keywordType == 1 {
      var time := RetrieveTime(input, spaceIndex, env);
      if time.Failure? {
        return Some(time.error);
      }
      taskDetails[START_TIME] := time.value;
    } else if keywordType == 2 || keywordType == 3 {
      var time := RetrieveTime(input, spaceIndex, env);
      if time.Failure? {
        return Some(time.error);
      }
      taskDetails[END_TIME] := time.value;
    } else if keywordType == 4 {
      taskDetails[LOCATION] := Some(RetrieveLocation(input));
    } else if keywordType == 5 {
      var time := RetrieveTime(input, spaceIndex, env);
      if time.Failure? {
        return Some(time.error);
      }
      taskDetails[END_TIME] := time.value;
    } else {
      // retrieveDate
      var date := env.parseDateString(input);
      if date.Failure? {
        return Some(date.error);
      }
      taskDetails[DATE] := date.value;
    }
  }

  /** The slots as Arrays.fill(taskDetails, null) leaves them. */
  const NoDetails: seq<Option<string>> := [None, None, None, None, None]

  /**
   * The rest of parseTask's loop from a given input and slots: the slots it
   * ends with, or the exception that stops it. A keyword whose split leaves no
   * second fragment makes stringFragments[1] (or [0]) fail.
   */
  function ParseFrom(input: string, slots: seq<Option<string>>, extracted: bool, env: Collaborators)
    : (r: Result<seq<Option<string>>, Failure>)
    requires |slots| == NO_OF_TASK_DETAILS
    ensures r.Success? ==> |r.value| == NO_OF_TASK_DETAILS
    ensures r.Success? && (extracted || !AnyKeyword(input)) ==> r.value[DESC] == slots[DESC]
    ensures r.Success? && !extracted && AnyKeyword(input) ==>
              r.value[DESC] == Some(input[..IndexOf(input, Keywords[FirstKeyword(input)])])
    decreases |input|
  {
    if !AnyKeyword(input) then Success(slots)
    else
      var k := FirstKeyword(input);
      var fragments := SplitByKeyword(input, k);
      if |fragments| < 2 then Failure(IndexOutOfBounds)
      else
        var described := if extracted then slots else slots[DESC := Some(fragments[0])];
        match Handle(k, fragments[1], described, env)
        case Failure(f) => Failure(f)
        case Success(next) => ParseFrom(fragments[1], next, true, env)
  }

  /** The slots parseTask fills for input, or the exception it throws. */
  function ParseSlots(input: string, env: Collaborators): (r: Result<seq<Option<string>>, Failure>)
    ensures r.Success? ==> |r.value| == NO_OF_TASK_DETAILS && r.value[DESC].Some?
  {
    var init := if AnyKeyword(input) then NoDetails else NoDetails[DESC := Some(input)];
    ParseFrom(input, init, false, env)
  }

  /**
   * setUserTask: builds the task from the slots, converting the start time, the
   * end time and the date in that order; the first conversion that throws
   * stops it.
   */
  function SetUserTask(slots: seq<Option<string>>, env: Collaborators): (r: Result<Task, Failure>)
    requires |slots| == NO_OF_TASK_DETAILS && slots[DESC].Some?
    ensures r.Success? <==> env.toDateTime(slots[START_TIME]).Success? && env.toDateTime(slots[END_TIME]).Success? &&
                            env.toDateTime(slots[DATE]).Success?
    ensures r.Success? ==> r.value.description == slots[DESC].value && r.value.location == slots[LOCATION]
    ensures r.Success? ==> r.value.startTime == env.toDateTime(slots[START_TIME]).value &&
                           r.value.endTime == env.toDateTime(slots[END_TIME]).value &&
                           r.value.date == env.toDateTime(slots[DATE]).value
    ensures r.Failure? ==> !r.error.InvalidInput?
    ensures r.Failure? ==> env.toDateTime(slots[START_TIME]) == Failure(r.error) ||
                           (env.toDateTime(slots[START_TIME]).Success? && env.toDateTime(slots[END_TIME]) == Failure(r.error)) ||
                           (env.toDateTime(slots[START_TIME]).Success? && env.toDateTime(slots[END_TIME]).Success? &&
                            env.toDateTime(slots[DATE]) == Failure(r.error))
  {
    match env.toDateTime(slots[START_TIME])
    case Failure(f) => Failure(f)
    case Success(startTime) =>
      match env.toDateTime(slots[END_TIME])
      case Failure(f) => Failure(f)
      case Success(endTime) =>
        match env.toDateTime(slots[DATE])
        case Failure(f) => Failure(f)
        case Success(date) => Success(Task(slots[DESC].value, startTime, endTime, date, slots[LOCATION]))
  }

  /**
   * The task parseTask returns for input, or the exception it throws. Its
   * description is a keyword-free prefix of the input, the whole input when
   * there is no keyword.
   */
  function Parsed(input: string, env: Collaborators): (r: Result<Task, Failure>)
    ensures r.Success? ==> r.value.description <= input && !AnyKeyword(r.value.description)
    ensures r.Success? && !AnyKeyword(input) ==> r.value.description == input
  {
    if AnyKeyword(input) then BeforeFirstKeywordIsFree(input); ParsedFrom(input, env) else ParsedFrom(input, env)
  }

  /** Parsed's definition: the slots parseTask's loop fills, handed to setUserTask. */
  function ParsedFrom(input: string, env: Collaborators): Result<Task, Failure> {
    match ParseSlots(input, env)
    case Success(slots) => SetUserTask(slots, env)
    case Failure(f) => Failure(f)
  }

  /**
   * One round of parseTask's loop: splits at the earliest keyword, takes the
   * description on the first round, and lets keywordHandler fill the slot.
   * Either the round throws what ParseFrom throws, or ParseFrom carries on
   * from the shorter rest of the input with the slots as they now are.
   */
  method ParseRound(input: string, taskDetails: array<Option<string>>, taskDesExtracted: bool, env: Collaborators)
    returns (rest: string, thrown: Option<Failure>)
    requires taskDetails.Length == NO_OF_TASK_DETAILS && AnyKeyword(input)
    modifies taskDetails
    ensures thrown.Some? ==> ParseFrom(input, old(taskDetails[..]), taskDesExtracted, env) == Failure(thrown.value)
    ensures thrown.None? ==> |rest| < |input|
    ensures thrown.None? ==>
              ParseFrom(input, old(taskDetails[..]), taskDesExtracted, env) == ParseFrom(rest, taskDetails[..], true, env)
  {
    var keywordIndex := GetFirstKeyword(input);
    var stringFragments := SplitByKeyword(input, keywordIndex);
    if |stringFragments| < 2 {
      // stringFragments[0] or stringFragments[1] is out of bounds
      return input, Some(IndexOutOfBounds);
    }
    if !taskDesExtracted {
      taskDetails[DESC] := Some(stringFragments[0]);
    }
    thrown := KeywordHandler(keywordIndex, stringFragments[1], taskDetails, env);
    rest := stringFragments[1];
  }

  /** parseTask: the loop over the keywords left in the input. */
  method ParseTask(userInput: string, env: Collaborators) returns (r: Result<Task, Failure>)
    ensures r == Parsed(userInput, env)
  {
    var taskDetails := new Option<string>[NO_OF_TASK_DETAILS](_ => None);
    var taskDesExtracted := false;
    var input := userInput;
    var found := KeywordIsInString(input);
    if !found {
      taskDetails[DESC] := Some(input);
    }
    ghost var initial := taskDetails[..];
    assert initial == if AnyKeyword(userInput) then NoDetails else NoDetails[DESC := Some(userInput)];
    ghost var goal := ParseFrom(userInput, initial, false, env);
    while found
      invariant taskDetails.Length == NO_OF_TASK_DETAILS
      invariant found == AnyKeyword(input)
      invariant ParseFrom(input, taskDetails[..], taskDesExtracted, env) == goal
      decreases |input|
    {
      var rest, thrown := ParseRound(input, taskDetails, taskDesExtracted, env);
      if thrown.Some? {
        return Failure(thrown.value);
      }
      taskDesExtracted := true;
      input := rest;
      found := KeywordIsInString(input);
    }
    r := SetUserTask(taskDetails[..], env);
  }

  /**
   * processAdd: appends the parsed task and saves the list. A parse failure
   * (InvalidInputException) becomes the fixed message; any other exception
   * escapes. Either way the list is unchanged. No snapshot is pushed.
   */
  method ProcessAdd(p: Processor, input: string, env: Collaborators) returns (reply: Reply)
    modifies p
    ensures p.oldLists == old(p.oldLists)
    ensures match Parsed(input, env)
            case Success(t) =>
              p.list == old(p.list) + [t] && p.saved == old(p.saved) + [p.list] && reply == Message(env.render(t))
            case Failure(f) =>
              p.list == old(p.list) && p.saved == old(p.saved) &&
              reply == if f.InvalidInput? then Message(INVALID_INPUT) else Thrown(f)
  {
    var userTask := ParseTask(input, env);
    if userTask.Failure? {
      if userTask.error.InvalidInput? {
        return Message(INVALID_INPUT);
      }
      return Thrown(userTask.error);
    }
    p.list := p.list + [userTask.value];
    p.UpdateFile();
    reply := Message(env.render(userTask.value));
  }

  /**
   * With no keyword in the input, the whole input is the description and every
   * other slot stays null; the task is then built unless converting null throws.
   */
  lemma NoKeywordWholeDescription(input: string, env: Collaborators)
    requires !AnyKeyword(input)
    ensures ParseSlots(input, env) == Success([Some(input), None, None, None, None])
    ensures Parsed(input, env).Success? <==> env.toDateTime(None).Success?
    ensures Parsed(input, env).Success? ==>
              Parsed(input, env).value.description == input && Parsed(input, env).value.location == None
  {
    assert NoDetails[DESC := Some(input)] == [Some(input), None, None, None, None];
  }

  /**
   * The description comes from the first keyword only: it is the text before
   * the earliest keyword, which itself holds no keyword.
   */
  lemma DescriptionBeforeFirstKeyword(input: string, env: Collaborators)
    requires AnyKeyword(input) && Parsed(input, env).Success?
    ensures Parsed(input, env).value.description == input[..IndexOf(input, Keywords[FirstKeyword(input)])]
    ensures !AnyKeyword(Parsed(input, env).value.description)
  {
    BeforeFirstKeywordIsFree(input);
  }

  /** Every keyword occurrence in d + Keywords[k] + t is that one keyword, right after d. */
  ghost predicate SingleClause(d: string, k: int, t: string)
    requires 0 <= k < |Keywords|
  {
    forall j, q :: 0 <= j < |Keywords| && OccursAt(d + Keywords[k] + t, Keywords[j], q) ==> j == k && q == |d|
  }

  /**
   * An argument d + keyword + t in which the keyword occurs once and no other
   * keyword occurs: the loop runs one round, so d is the description and the
   * keyword's slot is filled from t as keywordHandler fills it, and the task
   * is built from those slots.
   */
  lemma {:induction false} OneClauseTask(d: string, k: int, t: string, env: Collaborators)
    requires 0 <= k < |Keywords| && t != "" && SingleClause(d, k, t)
    ensures Parsed(d + Keywords[k] + t, env) ==
              match Handle(k, t, NoDetails[DESC := Some(d)], env)
              case Success(slots) => SetUserTask(slots, env)
              case Failure(f) => Failure(f)
  {
    var input := d + Keywords[k] + t;
    OneClauseKeyword(d, k, t);
    OneClauseSplit(d, k, t);
    assert SplitByKeyword(input, k) == [d, t];
    match Handle(k, t, NoDetails[DESC := Some(d)], env)
    case Success(slots) =>
      assert ParseFrom(t, slots, true, env) == Success(slots);
      assert ParseSlots(input, env) == Success(slots);
    case Failure(f) =>
      assert ParseSlots(input, env) == Failure(f);
  }

  /** In such an argument the keyword is the one getFirstKeyword picks, right after d, and t holds no keyword. */
  lemma OneClauseKeyword(d: string, k: int, t: string)
    requires 0 <= k < |Keywords| && SingleClause(d, k, t)
    ensures AnyKeyword(d + Keywords[k] + t) && FirstKeyword(d + Keywords[k] + t) == k
    ensures IndexOf(d + Keywords[k] + t, Keywords[k]) == |d|
    ensures !AnyKeyword(t)
  {
    KeywordsNonEmpty();
    var kw := Keywords[k];
    var input := d + kw + t;
    assert OccursAt(input, kw, |d|) by {
      assert input[|d|..|d| + |kw|] == kw;
    }
    ContainsWitness(input, kw, |d|);
    forall j | 0 <= j < |Keywords| && Contains(input, Keywords[j]) ensures Precedes(input, k, j) {
      assert OccursAt(input, Keywords[j], IndexOf(input, Keywords[j]));
    }
    FirstKeywordUnique(input, k);
    assert OccursAt(input, kw, IndexOf(input, kw));
    forall j | 0 <= j < |Keywords| ensures !Contains(t, Keywords[j]) {
      if Contains(t, Keywords[j]) {
        OccursInSuffix(d + kw, t, Keywords[j], IndexOf(t, Keywords[j]));
      }
    }
  }

  /** Split at a keyword that occurs once, right after d, with a non-empty t after it: [d, t]. */
  lemma OneClauseSplit(d: string, k: int, t: string)
    requires 0 <= k < |Keywords| && t != ""
    requires IndexOf(d + Keywords[k] + t, Keywords[k]) == |d| && !Contains(t, Keywords[k])
    ensures Split(d + Keywords[k] + t, Keywords[k]) == [d, t]
  {
    KeywordsNonEmpty();
    var kw := Keywords[k];
    var input := d + kw + t;
    assert input[..|d|] == d && input[|d| + |kw|..] == t;
    assert Fields(input, kw) == [d, t];
  }

  /**
   * "add <d> at <t>": with " at " the only keyword, the description is d and
   * the start time is what the time parser reads from the first word of t.
   */
  lemma StartTimeOfAt(d: string, t: string, env: Collaborators)
    requires t != "" && SingleClause(d, 0, t)
    requires env.parseTimeString(FirstWord(t)).Success?
    ensures Parsed(d + " at " + t, env) ==
              SetUserTask(NoDetails[DESC := Some(d)][START_TIME := env.parseTimeString(FirstWord(t)).value], env)
    ensures Parsed(d + " at " + t, env).Success? ==>
              Parsed(d + " at " + t, env).value.description == d &&
              Parsed(d + " at " + t, env).value.startTime == env.toDateTime(env.parseTimeString(FirstWord(t)).value).value
  {
    OneClauseTask(d, 0, t, env);
  }

  /**
   * Where parseTask's loop can fail: an InvalidInputException comes only from
   * the date parser; any other failure is an index exception from a keyword
   * with nothing non-empty after it (Pattern.split drops trailing empty
   * strings), or what the date or time parser throws.
   */
  lemma {:induction false} ParseFailures(input: string, slots: seq<Option<string>>, extracted: bool, env: Collaborators)
    requires |slots| == NO_OF_TASK_DETAILS
    ensures var r := ParseFrom(input, slots, extracted, env);
            r.Failure? ==> r.error == IndexOutOfBounds ||
                           (exists s :: env.parseDateString(s) == Failure(r.error)) ||
                           (exists s :: env.parseTimeString(s) == Failure(r.error))
    ensures var r := ParseFrom(input, slots, extracted, env);
            r.Failure? && r.error.InvalidInput? ==> exists s :: env.parseDateString(s) == Failure(r.error)
    decreases |input|
  {
    if AnyKeyword(input) {
      var k := FirstKeyword(input);
      var fragments := SplitByKeyword(input, k);
      if |fragments| >= 2 {
        var described := if extracted then slots else slots[DESC := Some(fragments[0])];
        match Handle(k, fragments[1], described, env)
        case Failure(f) =>
          if SlotOf(k) == DATE {
            assert env.parseDateString(fragments[1]) == Failure(f);
          } else {
            assert env.parseTimeString(FirstWord(fragments[1])) == Failure(f);
          }
        case Success(next) =>
          ParseFailures(fragments[1], next, true, env);
      }
    }
  }

  /**
   * Where parseTask can fail: an InvalidInputException (the one processAdd
   * turns into its message) comes only from the date parser; everything else
   * escapes processAdd and is an index exception, or what the date parser, the
   * time parser or convertStringToDateTime throws.
   */
  lemma ParsedFailures(input: string, env: Collaborators)
    ensures var r := Parsed(input, env);
            r.Failure? ==> r.error == IndexOutOfBounds ||
                           (exists s :: env.parseDateString(s) == Failure(r.error)) ||
                           (exists s :: env.parseTimeString(s) == Failure(r.error)) ||
                           (exists t :: env.toDateTime(t) == Failure(r.error))
    ensures var r := Parsed(input, env);
            r.Failure? && r.error.InvalidInput? ==> exists s :: env.parseDateString(s) == Failure(r.error)
  {
    var init := if AnyKeyword(input) then NoDetails else NoDetails[DESC := Some(input)];
    ParseFailures(input, init, false, env);
  }
}
