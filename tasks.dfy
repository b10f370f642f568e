/**
 * The state the processors share: the live task list, the history of snapshots
 * that undo pops, and (as a log) every list handed to the file handler.
 */
module Tasks {
  import opened Wrappers

  /**
   * A time-of-day or calendar-date value (a date4j DateTime, or the Time and
   * Date classes); how it is represented is not part of this model.
   */
  type Moment

  /** A task, restricted to the fields the processors read or set. */
  datatype Task = Task(
    description: string,
    startTime: Option<Moment>,
    endTime: Option<Moment>,
    date: Option<Moment>,
    location: Option<string>)

  /** The exceptions the processors throw or catch. */
  datatype Failure =
    | InvalidInput(message: string)  // InvalidInputException
    | NumberFormat                   // NumberFormatException, from Integer.parseInt
    | IndexOutOfBounds               // IndexOutOfBoundsException and its String and Array subclasses

  /**
   * A failure that is not an InvalidInputException. Methods that declare no
   * exception (retrieveStartTime, setUserTask) can only let these through.
   */
  type Unchecked = f: Failure | !f.InvalidInput? witness NumberFormat

  /** What a command processor hands back: a message, or an exception it lets escape. */
  datatype Reply = Message(text: string) | Thrown(failure: Failure)

  /**
   * Code the processors call but that is not part of this model (inherited
   * parsers, constructors of the time and date classes, renderings), taken as
   * given functions. A Failure result is the exception the callee throws; an
   * Unchecked one cannot be an InvalidInputException, because the Java caller
   * declares none. A None argument or result stands for Java's null.
   */
  datatype Collaborators = Collaborators(
    parseTimeString: string -> Result<Option<string>, Unchecked>,     // parseTimeStringFromInput
    parseDateString: string -> Result<Option<string>, Failure>,       // parseDateString
    toDateTime: Option<string> -> Result<Option<Moment>, Unchecked>,  // convertStringToDateTime
    newTime: (int, int) -> Result<Moment, Failure>,                   // new Time(hour, minute)
    newDate: (int, int) -> Result<Moment, Failure>,                   // new Date(day, month)
    render: Task -> string,                                           // Task.toString
    renderList: seq<Task> -> string)                                  // TaskList.toString

  /** The static state of the Processor base class. */
  class Processor {
    /** The live task list. */
    var list: seq<Task>
    /** The history stack of earlier lists; its top is the last element. */
    var oldLists: seq<seq<Task>>
    /** Every list passed to FileHandler.updateFile, oldest first. */
    var saved: seq<seq<Task>>

    constructor (tasks: seq<Task>)
      ensures list == tasks && oldLists == [] && saved == []
    {
      list := tasks;
      oldLists := [];
      saved := [];
    }

    /** storeCurrentList: pushes a copy of the live list onto the history stack. */
    method StoreCurrentList()
      modifies this
      ensures oldLists == old(oldLists) + [old(list)]
      ensures list == old(list) && saved == old(saved)
    {
      oldLists := oldLists + [list];
    }

    /** fileHandler.updateFile(list): hands the live list to persistence. */
    method UpdateFile()
      modifies this
      ensures saved == old(saved) + [list]
      ensures list == old(list) && oldLists == old(oldLists)
    {
      saved := saved + [list];
    }
  }
}
