/**
 * Logger settings derived from the actor system's configuration: the
 * verbosity of each sink, the global ceiling, the blacklist, the compiled
 * formats and the console mode; the `accepts` pre-check and the per-sink
 * level filters.
 */
module Config {
  import opened Base
  import opened Levels
  import opened Format

  /** The configuration as the logger queries it: typed values by key. */
  datatype Source = Source(strings: map<string, string>, lists: map<string, seq<string>>, flags: map<string, bool>)

  /** The built-in defaults of the keys the logger reads. */
  datatype Defaults = Defaults(
    fileVerbosity: string,
    consoleVerbosity: string,
    fileFormat: string,
    consoleFormat: string,
    console: string)

  /** The logger's settings after `init`. */
  datatype Settings = Settings(
    verbosity: nat,
    fileVerbosity: nat,
    consoleVerbosity: nat,
    inlineOutput: bool,
    consoleColoring: bool,
    blacklist: seq<string>,
    fileFormat: seq<Field>,
    consoleFormat: seq<Field>)

  const VerbosityKey := "logger.verbosity"
  const FileVerbosityKey := "logger.file-verbosity"
  const ConsoleVerbosityKey := "logger.console-verbosity"
  const BlacklistKey := "logger.component-blacklist"
  const FileFormatKey := "logger.file-format"
  const ConsoleFormatKey := "logger.console-format"
  const InlineOutputKey := "logger.inline-output"
  const ConsoleKey := "logger.console"

  /** `get_or` for a string value. */
  function StringOr(src: Source, key: string, default: string): string {
    if key in src.strings then src.strings[key] else default
  }

  /** `set_level`: the sink's own key, then the global verbosity key, then the default. */
  function LevelSetting(src: Source, key: string, default: string): (r: string)
    ensures r == default || r in src.strings.Values
    ensures key in src.strings ==> r == src.strings[key]
    ensures key !in src.strings ==> r == StringOr(src, VerbosityKey, default)
  {
    if key in src.strings then src.strings[key]
    else if VerbosityKey in src.strings then src.strings[VerbosityKey]
    else default
  }

  /** The console mode, which decides between coloured, plain and no console output. */
  function ConsoleMode(src: Source, d: Defaults): string {
    StringOr(src, ConsoleKey, d.console)
  }

  predicate ConsoleEnabled(src: Source, d: Defaults) {
    ConsoleMode(src, d) == "colored" || ConsoleMode(src, d) == "uncolored"
  }

  /** `init` on a freshly constructed logger. */
  function Init(src: Source, d: Defaults): (s: Settings)
    ensures FileVerbosityKey in src.strings ==> s.fileVerbosity == ToLevelInt(src.strings[FileVerbosityKey])
    ensures FileVerbosityKey !in src.strings && VerbosityKey in src.strings ==>
            s.fileVerbosity == ToLevelInt(src.strings[VerbosityKey])
    ensures FileVerbosityKey !in src.strings && VerbosityKey !in src.strings ==>
            s.fileVerbosity == ToLevelInt(d.fileVerbosity)
    ensures !ConsoleEnabled(src, d) ==> s.consoleVerbosity == Quiet
    ensures ConsoleEnabled(src, d) && ConsoleVerbosityKey in src.strings ==>
            s.consoleVerbosity == ToLevelInt(src.strings[ConsoleVerbosityKey])
    ensures ConsoleEnabled(src, d) && ConsoleVerbosityKey !in src.strings && VerbosityKey in src.strings ==>
            s.consoleVerbosity == ToLevelInt(src.strings[VerbosityKey])
    ensures ConsoleEnabled(src, d) && ConsoleVerbosityKey !in src.strings && VerbosityKey !in src.strings ==>
            s.consoleVerbosity == ToLevelInt(d.consoleVerbosity)
    ensures s.verbosity == Max(s.fileVerbosity, s.consoleVerbosity)
    ensures IsLevel(s.verbosity) && IsLevel(s.fileVerbosity) && IsLevel(s.consoleVerbosity)
    ensures s.consoleColoring <==> ConsoleMode(src, d) == "colored"
    ensures s.inlineOutput <==> InlineOutputKey in src.flags && src.flags[InlineOutputKey]
    ensures BlacklistKey in src.lists ==> s.blacklist == src.lists[BlacklistKey]
    ensures BlacklistKey !in src.lists ==> s.blacklist == []
    ensures s.fileFormat == ParseFormat(StringOr(src, FileFormatKey, d.fileFormat))
    ensures s.consoleFormat == ParseFormat(StringOr(src, ConsoleFormatKey, d.consoleFormat))
  {
    var blacklist := if BlacklistKey in src.lists then src.lists[BlacklistKey] else [];
    var file := ToLevelInt(LevelSetting(src, FileVerbosityKey, d.fileVerbosity));
    var console := ToLevelInt(LevelSetting(src, ConsoleVerbosityKey, d.consoleVerbosity));
    var inline := InlineOutputKey in src.flags && src.flags[InlineOutputKey];
    var mode := ConsoleMode(src, d);
    var s := Settings(Max(file, console), file, console, inline, false, blacklist,
                      ParseFormat(StringOr(src, FileFormatKey, d.fileFormat)),
                      ParseFormat(StringOr(src, ConsoleFormatKey, d.consoleFormat)));
    if mode == "colored" then s.(consoleColoring := true)
    else if mode != "uncolored" then s.(consoleVerbosity := Quiet, verbosity := file)
    else s
  }

  /** Settings as `init` leaves them: the global ceiling is the larger sink threshold. */
  ghost predicate Consistent(s: Settings) {
    s.verbosity == Max(s.fileVerbosity, s.consoleVerbosity)
  }

  /** `accepts`: the cheap pre-check before an event is built. */
  function Accepts(s: Settings, level: nat, category: string): (r: bool)
    ensures category in s.blacklist ==> !r
    ensures level > s.verbosity ==> !r
    ensures Consistent(s) ==> (r <==> category !in s.blacklist
                                      && (level <= s.fileVerbosity || level <= s.consoleVerbosity))
  {
    level <= s.verbosity && category !in s.blacklist
  }

  /** The file sink renders an event when the file is open and the level passes its threshold. */
  predicate FileTakes(s: Settings, fileOpen: bool, level: nat) {
    fileOpen && level <= s.fileVerbosity
  }

  /** The console sink renders an event when the level passes its threshold. */
  predicate ConsoleTakes(s: Settings, level: nat) {
    level <= s.consoleVerbosity
  }

  /** Which sinks `handle_event` renders an event to. */
  datatype Delivery = Delivery(toFile: bool, toConsole: bool)

  function HandleEvent(s: Settings, fileOpen: bool, level: nat): (r: Delivery)
    ensures r.toFile <==> fileOpen && level <= s.fileVerbosity
    ensures r.toConsole <==> level <= s.consoleVerbosity
  {
    Delivery(FileTakes(s, fileOpen, level), ConsoleTakes(s, level))
  }

  lemma InitConsistent(src: Source, d: Defaults)
    ensures Consistent(Init(src, d))
  {
  }

  /**
   * `accepts` lets an event through exactly when its category is not
   * blacklisted and some sink's threshold admits its level (with the file
   * sink counted as open).
   */
  lemma AcceptsIffSomeSink(s: Settings, level: nat, category: string)
    requires Consistent(s)
    ensures Accepts(s, level, category)
        <==> category !in s.blacklist
             && (HandleEvent(s, true, level).toFile || HandleEvent(s, true, level).toConsole)
  {
  }

  /** An event the pre-check rejects for its level reaches no sink. */
  lemma RejectedReachesNoSink(s: Settings, fileOpen: bool, level: nat)
    requires Consistent(s) && level > s.verbosity
    ensures HandleEvent(s, fileOpen, level) == Delivery(false, false)
  {
  }

  /** A blacklisted category is rejected at every level. */
  lemma BlacklistedRejected(s: Settings, level: nat, category: string)
    requires category in s.blacklist
    ensures !Accepts(s, level, category)
  {
  }

  /**
   * The console at "info" and the file at "debug": a debug event goes to
   * the file only.
   */
  lemma DebugEventToFileOnly(src: Source, d: Defaults)
    requires ConsoleEnabled(src, d)
    requires FileVerbosityKey in src.strings && src.strings[FileVerbosityKey] == "debug"
    requires ConsoleVerbosityKey in src.strings && src.strings[ConsoleVerbosityKey] == "info"
    ensures HandleEvent(Init(src, d), true, Debug) == Delivery(true, false)
    ensures Accepts(Init(src, d), Debug, "caf") <==> "caf" !in Init(src, d).blacklist
  {
  }

  /**
   * Without a recognised console mode, only the file's threshold counts: the
   * console threshold drops to quiet, which still admits a level-0 event.
   */
  lemma ConsoleDisabledFileOnly(src: Source, d: Defaults, level: nat)
    requires !ConsoleEnabled(src, d)
    ensures Init(src, d).verbosity == Init(src, d).fileVerbosity
    ensures level > Quiet ==> !HandleEvent(Init(src, d), true, level).toConsole
    ensures level == Quiet ==> HandleEvent(Init(src, d), true, level).toConsole
  {
  }
}
