/**
 * The logger state of Remal_CommonUtils: the flag RML_COMM_LoggerInit
 * sets, the five-slot table of enabled log levels that
 * RML_COMM_LogLevelSet updates, and the output sink, a growing character
 * sequence. RML_COMM_vprintf, RML_COMM_printf and RML_COMM_LogMsg print
 * only once the logger is initialised, and RML_COMM_LogMsg only for an
 * enabled (or unknown) level.
 */
module Logging {
  import opened CStrings
  import opened Numerals
  import opened Format

  /** LogLevel_Enum. */
  const DEBUG: u8 := 0
  const INFO: u8 := 1
  const WARNING: u8 := 2
  const ERROR: u8 := 3
  const FATAL: u8 := 4

  /** The number of known levels, and the slots of the enable table. */
  const LevelCount: nat := 5

  /** The largest baud rate RML_COMM_LoggerInit accepts. */
  const MaxBaudrate: nat := 115200

  /** LogLevel_Str: the name printed for each known level. */
  const LevelNames: seq<string> := ["DEBUG", "INFO", "WARNING", "ERROR", "FATAL"]

  /** The name a log line carries for a level. */
  function LevelLabel(lvl: u8): string
  {
    if lvl < LevelCount as int then LevelNames[lvl] else "Unknown LogLvl?"
  }

  /**
   * The line RML_COMM_LogMsg prints, the message already formatted:
   * "> [LEVEL] source: message" and CR LF. The colour strings around it
   * are empty, because colour support is compiled out.
   */
  function LogLine(src: seq<char>, lvl: u8, message: string): string
  {
    "> [" + LevelLabel(lvl) + "] " + CString(src) + ": " + message + "\r\n"
  }

  /** Whether RML_COMM_LogMsg prints: the logger is initialised and the level is unknown or enabled. */
  predicate Emits(initDone: bool, table: seq<u8>, lvl: u8)
    requires |table| == LevelCount
  {
    initDone && (lvl >= LevelCount as int || table[lvl] != 0)
  }

  /** The value RML_COMM_LogLevelSet stores for Enable: anything above 1 is taken as 1. */
  function Sanitize(enable: u8): (e: u8)
    ensures e <= 1 && (e == 0 <==> enable == 0)
  {
    if enable > 1 then 1 else enable
  }

  /** The labels tell the levels apart: a known level's name is its own, and no known level reads "Unknown LogLvl?". */
  lemma LabelIdentifiesLevel(a: u8, b: u8)
    requires LevelLabel(a) == LevelLabel(b)
    ensures a == b || (a >= LevelCount as int && b >= LevelCount as int)
  {
  }

  /**
   * Setting a level after initialisation decides whether that level is
   * printed, and only that level: enabling (any nonzero Enable) turns it
   * on, 0 turns it off; the other levels, and unknown ones, are as before.
   */
  lemma SetDecidesLevel(table: seq<u8>, lvl: u8, enable: u8, other: u8)
    requires |table| == LevelCount && lvl < LevelCount as int
    ensures Emits(true, table[lvl := Sanitize(enable)], lvl) <==> enable != 0
    ensures other != lvl ==> Emits(true, table[lvl := Sanitize(enable)], other) == Emits(true, table, other)
  {
  }

  /** Nothing is printed before initialisation; after it, unknown levels are always printed. */
  lemma GateFacts(table: seq<u8>, lvl: u8)
    requires |table| == LevelCount
    ensures !Emits(false, table, lvl)
    ensures lvl >= LevelCount as int ==> Emits(true, table, lvl)
  {
  }

  /** A log line starts with the level's name in brackets and ends with CR LF. */
  lemma LogLineShape(src: seq<char>, lvl: u8, message: string)
    ensures var line := LogLine(src, lvl, message);
      var name := LevelLabel(lvl);
      |line| >= 3 + |name| + 4 &&
      line[..3] == "> [" && line[3..3 + |name|] == name &&
      line[|line| - 2..] == "\r\n"
  {
    var name := LevelLabel(lvl);
    var line := LogLine(src, lvl, message);
    var tail := "] " + CString(src) + ": " + message + "\r\n";
    assert line == "> [" + name + tail by {
      AppendAssoc("> [" + name, "] " + CString(src) + ": " + message, "\r\n");
    }
  }

  /**
   * The logger: Logger_InitDone, LogLevelsEnable and the sink every
   * output routine appends to.
   */
  class Logger {
    var initDone: bool
    const levels: array<u8>
    var out: string

    /** The table has its five slots, each 0 or 1. */
    ghost predicate Valid()
      reads this, levels
    {
      levels.Length == LevelCount && forall k :: 0 <= k < LevelCount ==> levels[k] <= 1
    }

    /** The state at start-up: not initialised, every level enabled, nothing printed. */
    constructor ()
      ensures Valid() && fresh(levels)
      ensures !initDone && levels[..] == [1, 1, 1, 1, 1] && out == []
    {
      initDone := false;
      out := [];
      var table := new u8[5];
      table[0], table[1], table[2], table[3], table[4] := 1, 1, 1, 1, 1;
      levels := table;
    }

    /**
     * RML_COMM_LoggerInit: a baud rate of 0 or above the maximum is
     * refused with -1 and nothing changes; otherwise the logger is
     * initialised and 0 returned.
     */
    method LoggerInit(baudRate: u32) returns (r: int)
      requires Valid()
      modifies this
      ensures Valid()
      ensures baudRate == 0 || baudRate > MaxBaudrate ==> r == -1 && initDone == old(initDone)
      ensures 0 < baudRate <= MaxBaudrate ==> r == 0 && initDone
      ensures out == old(out)
    {
      if baudRate > MaxBaudrate || baudRate == 0 {
        return -1;
      }
      initDone := true;
      return 0;
    }

    /**
     * RML_COMM_LogLevelSet: -1 and no change before initialisation;
     * for a known level, store Enable (1 for anything above 1) in its
     * slot alone and return 0; for any other level, -1 and no change.
     */
    method LogLevelSet(lvl: u8, enable: u8) returns (r: int)
      requires Valid()
      modifies levels
      ensures Valid()
      ensures !initDone ==> r == -1 && levels[..] == old(levels[..])
      ensures initDone && lvl < LevelCount as int ==> r == 0 && levels[..] == old(levels[..])[lvl := Sanitize(enable)]
      ensures initDone && lvl >= LevelCount as int ==> r == -1 && levels[..] == old(levels[..])
    {
      if !initDone {
        return -1;
      }
      var e := enable;
      if e > 1 {
        e := 1;
      }
      if lvl == DEBUG {
        levels[0] := e;
      } else if lvl == INFO {
        levels[1] := e;
      } else if lvl == WARNING {
        levels[2] := e;
      } else if lvl == ERROR {
        levels[3] := e;
      } else if lvl == FATAL {
        levels[4] := e;
      } else {
        return -1;
      }
      return 0;
    }

    /** RML_COMM_vprintf: nothing before initialisation; otherwise the formatted text goes to the sink. */
    method Vprintf(fmt: string, args: seq<Arg>)
      requires Valid() && Fits(ArgKinds(fmt), args)
      modifies this
      ensures Valid()
      ensures out == old(out) + (if initDone then Render(fmt, args) else [])
      ensures initDone == old(initDone)
    {
      if !initDone {
        assert out + [] == out;
        return;
      }
      var text, _ := FormatScan(fmt, args);
      out := out + text;
    }

    /** RML_COMM_printf: the same, with the arguments passed on to RML_COMM_vprintf. */
    method Printf(fmt: string, args: seq<Arg>)
      requires Valid() && Fits(ArgKinds(fmt), args)
      modifies this
      ensures Valid()
      ensures out == old(out) + (if initDone then Render(fmt, args) else [])
      ensures initDone == old(initDone)
    {
      if !initDone {
        assert out + [] == out;
        return;
      }
      Vprintf(fmt, args);
    }

    /**
     * RML_COMM_LogMsg: nothing before initialisation or for a disabled
     * level; otherwise the log line, the message formatted as
     * RML_COMM_vprintf formats it, sent segment by segment.
     */
    method LogMsg(src: seq<char>, lvl: u8, msg: string, args: seq<Arg>)
      requires Valid() && Fits(ArgKinds(msg), args)
      modifies this
      ensures Valid()
      ensures out == old(out) + (if Emits(old(initDone), levels[..], lvl) then LogLine(src, lvl, Render(msg, args)) else [])
      ensures initDone == old(initDone)
    {
      if !initDone {
        assert out + [] == out;
        return;
      }
      var unknown := false;
      if lvl == DEBUG {
        if levels[0] == 0 {
          assert out + [] == out;
          return;
        }
      } else if lvl == INFO {
        if levels[1] == 0 {
          assert out + [] == out;
          return;
        }
      } else if lvl == WARNING {
        if levels[2] == 0 {
          assert out + [] == out;
          return;
        }
      } else if lvl == ERROR {
        if levels[3] == 0 {
          assert out + [] == out;
          return;
        }
      } else if lvl == FATAL {
        if levels[4] == 0 {
          assert out + [] == out;
          return;
        }
      } else {
        unknown := true;
      }
      ghost var before := out;
      out := out + "> [";
      if unknown {
        out := out + "Unknown LogLvl?";
      } else {
        out := out + LevelNames[lvl];
      }
      out := out + "] ";
      out := out + CString(src);
      out := out + ": ";
      Vprintf(msg, args);
      out := out + "\r\n";
      LineSegments(before, src, lvl, Render(msg, args));
    }
  }

  /** The segments LogMsg sends, one after the other, make up the log line. */
  lemma LineSegments(before: string, src: seq<char>, lvl: u8, message: string)
    ensures before + "> [" + LevelLabel(lvl) + "] " + CString(src) + ": " + message + "\r\n" ==
      before + LogLine(src, lvl, message)
  {
    var a, b, c, d := "> [", LevelLabel(lvl), "] ", CString(src);
    AppendAssoc(before, a, b);
    AppendAssoc(before, a + b, c);
    AppendAssoc(before, a + b + c, d);
    AppendAssoc(before, a + b + c + d, ": ");
    AppendAssoc(before, a + b + c + d + ": ", message);
    AppendAssoc(before, a + b + c + d + ": " + message, "\r\n");
  }
}
