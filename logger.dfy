/**
 * Logger: the engine component that formats a message and hands it to its
 * output. PostMessage drops messages below the logger's priority and
 * otherwise sends one line: an optional "[timestamp]", an optional kind tag
 * and the message, joined by single spaces. The output itself
 * (SendToOutput, abstract in the source) is modelled as the record of the
 * lines it received; the current time, already formatted with
 * TimestampFormat, is a parameter.
 */
module Logging {
  import Wrappers

  datatype LogMessageKind = None | Information | Warning | Error

  /**
   * LogMessagePriority: an enumeration ordered by its numeric values. Its
   * declaration is not part of this model, so a priority is an int and only
   * Low, the default, is named.
   */
  type LogMessagePriority = int

  const Low: LogMessagePriority := 0

  const DefaultTimestampFormat: string := "yyyy-MM-dd HH:mm:ss"

  /** The ArgumentNullException PostMessage throws for a null message. */
  datatype LogError = ArgumentNullException

  /** The MessageKindStrings table; None has no entry. */
  function KindString(kind: LogMessageKind): (tag: string)
    requires kind != None
    ensures |tag| > 2 && tag[0] == '[' && tag[|tag| - 1] == ']'
  {
    match kind
    case Information => "[Info]"
    case Warning => "[Warning]"
    case Error => "[Error]"
  }

  /** string.Join: the parts with `sep` between neighbours. */
  function Join(sep: string, parts: seq<string>): string
  {
    if |parts| == 0 then ""
    else if |parts| == 1 then parts[0]
    else parts[0] + sep + Join(sep, parts[1..])
  }

  /** Joining a part in front of a non-empty list puts one separator after it. */
  lemma JoinCons(sep: string, p: string, parts: seq<string>)
    requires |parts| > 0
    ensures Join(sep, [p] + parts) == p + sep + Join(sep, parts)
  {
    assert ([p] + parts)[1..] == parts;
  }

  /** The parts PostMessage collects: the bracketed time stamp, the kind tag, the message. */
  function MessageParts(includeTimeStamp: bool, stamp: string, kind: LogMessageKind, message: string): (parts: seq<string>)
    ensures |parts| == 1 + (if includeTimeStamp then 1 else 0) + (if kind != None then 1 else 0)
    ensures parts[|parts| - 1] == message
  {
    (if includeTimeStamp then ["[" + stamp + "]"] else [])
    + (if kind != None then [KindString(kind)] else [])
    + [message]
  }

  /** The line PostMessage sends. */
  function FormatMessage(includeTimeStamp: bool, stamp: string, kind: LogMessageKind, message: string): string
  {
    Join(" ", MessageParts(includeTimeStamp, stamp, kind, message))
  }

  /**
   * The line, case by case: the time stamp in brackets comes first exactly
   * when time stamps are on, the tag follows exactly when the kind is not
   * None, and the message comes last, each separated by one space.
   */
  lemma FormatCases(includeTimeStamp: bool, stamp: string, kind: LogMessageKind, message: string)
    ensures var line := FormatMessage(includeTimeStamp, stamp, kind, message);
      (!includeTimeStamp && kind == None ==> line == message)
      && (!includeTimeStamp && kind != None ==> line == KindString(kind) + " " + message)
      && (includeTimeStamp && kind == None ==> line == "[" + stamp + "] " + message)
      && (includeTimeStamp && kind != None ==> line == "[" + stamp + "] " + KindString(kind) + " " + message)
  {
    if kind != None {
      JoinCons(" ", KindString(kind), [message]);
      if includeTimeStamp {
        assert MessageParts(true, stamp, kind, message) == ["[" + stamp + "]"] + [KindString(kind), message];
        JoinCons(" ", "[" + stamp + "]", [KindString(kind), message]);
      }
    } else if includeTimeStamp {
      JoinCons(" ", "[" + stamp + "]", [message]);
    }
  }

  /** The message is the tail of the line, whatever precedes it. */
  lemma MessageLast(includeTimeStamp: bool, stamp: string, kind: LogMessageKind, message: string)
    ensures var line := FormatMessage(includeTimeStamp, stamp, kind, message);
      |message| <= |line| && line[|line| - |message|..] == message
  {
    FormatCases(includeTimeStamp, stamp, kind, message);
    var line := FormatMessage(includeTimeStamp, stamp, kind, message);
    if kind != None {
      assert line == (if includeTimeStamp then "[" + stamp + "] " else "") + KindString(kind) + " " + message;
    } else {
      assert line == (if includeTimeStamp then "[" + stamp + "] " else "") + message;
    }
  }

  /** With time stamps on, the line opens with the bracketed stamp and a space. */
  lemma StampFirst(stamp: string, kind: LogMessageKind, message: string)
    ensures var line := FormatMessage(true, stamp, kind, message);
      var head := "[" + stamp + "] ";
      |head| <= |line| && line[..|head|] == head
  {
    FormatCases(true, stamp, kind, message);
    var line := FormatMessage(true, stamp, kind, message);
    var head := "[" + stamp + "] ";
    if kind != None {
      assert line == head + (KindString(kind) + " " + message);
    } else {
      assert line == head + message;
    }
  }

  class Logger {
    var includeTimeStamp: bool
    var timestampFormat: string
    var priority: LogMessagePriority
    /** Every line SendToOutput has received, oldest first. */
    var output: seq<string>

    /** Logger(includeTimeStamp, timestampFormat): priority Low. */
    constructor WithFormat(includeTimeStamp: bool, timestampFormat: string)
      ensures this.includeTimeStamp == includeTimeStamp && this.timestampFormat == timestampFormat
      ensures priority == Low && output == []
    {
      this.includeTimeStamp := includeTimeStamp;
      this.timestampFormat := timestampFormat;
      priority := Low;
      output := [];
    }

    /** Logger(includeTimeStamp): the default format, priority Low. */
    constructor WithTimeStamp(includeTimeStamp: bool)
      ensures this.includeTimeStamp == includeTimeStamp && timestampFormat == DefaultTimestampFormat
      ensures priority == Low && output == []
    {
      this.includeTimeStamp := includeTimeStamp;
      timestampFormat := DefaultTimestampFormat;
      priority := Low;
      output := [];
    }

    /** Logger(priority): time stamps on in the default format, the given priority. */
    constructor WithPriority(priority: LogMessagePriority)
      ensures includeTimeStamp && timestampFormat == DefaultTimestampFormat
      ensures this.priority == priority && output == []
    {
      includeTimeStamp := true;
      timestampFormat := DefaultTimestampFormat;
      this.priority := priority;
      output := [];
    }

    /** Logger(): time stamps on in the default format, priority Low. */
    constructor ()
      ensures includeTimeStamp && timestampFormat == DefaultTimestampFormat
      ensures priority == Low && output == []
    {
      includeTimeStamp := true;
      timestampFormat := DefaultTimestampFormat;
      priority := Low;
      output := [];
    }

    /** SendToOutput: the line reaches the output unformatted. */
    method SendToOutput(line: string)
      modifies this
      ensures output == old(output) + [line]
      ensures includeTimeStamp == old(includeTimeStamp) && timestampFormat == old(timestampFormat)
      ensures priority == old(priority)
    {
      output := output + [line];
    }

    /**
     * PostMessage: a null message (None) throws; a message below the
     * logger's priority sends nothing; any other sends exactly one line.
     * `stamp` is the current time formatted with timestampFormat.
     */
    method PostMessage(message: Wrappers.Option<string>, kind: LogMessageKind,
                       messagePriority: LogMessagePriority, stamp: string)
      returns (r: Wrappers.Result<(), LogError>)
      modifies this
      ensures r.Err? <==> message.None?
      ensures includeTimeStamp == old(includeTimeStamp) && timestampFormat == old(timestampFormat)
      ensures priority == old(priority)
      ensures message.None? || messagePriority < priority ==> output == old(output)
      ensures message.Some? && messagePriority >= priority ==>
        output == old(output) + [FormatMessage(includeTimeStamp, stamp, kind, message.value)]
    {
      if message.None? {
        return Wrappers.Err(ArgumentNullException);
      }
      if messagePriority >= priority {
        var parts: seq<string> := [];
        if includeTimeStamp {
          parts := parts + ["[" + stamp + "]"];
        }
        if kind != None {
          parts := parts + [KindString(kind)];
        }
        parts := parts + [message.value];
        assert parts == MessageParts(includeTimeStamp, stamp, kind, message.value);
        SendToOutput(Join(" ", parts));
      }
      return Wrappers.Ok(());
    }
  }
}
