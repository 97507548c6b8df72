/**
 * Severity levels: the numeric values, the name table used when rendering
 * the priority field, and the conversion from configuration strings.
 */
module Levels {

  const Quiet: nat := 0
  const Error: nat := 3
  const Warning: nat := 6
  const Info: nat := 9
  const Debug: nat := 12
  const Trace: nat := 15

  /** Number of entries of the level-name table. */
  const TableSize: nat := 16

  /** The six values a configuration string can map to. */
  predicate IsLevel(l: nat) {
    l == Quiet || l == Error || l == Warning || l == Info || l == Debug || l == Trace
  }

  /**
   * The level-name table indexed by a numeric level. Only the multiples of
   * three carry a name; the slots in between are empty strings.
   */
  function LevelName(l: nat): (r: string)
    requires l < TableSize
    ensures r != "" <==> IsLevel(l)
  {
    [ "QUIET", "", "", "ERROR", "", "", "WARN", "",
      "", "INFO", "", "", "DEBUG", "", "", "TRACE" ][l]
  }

  /** Converts a verbosity setting to its numeric level; anything unknown is quiet. */
  function ToLevelInt(s: string): (r: nat)
    ensures IsLevel(r)
    ensures r < TableSize
    ensures r == Quiet <==> s != "error" && s != "warning" && s != "info" && s != "debug" && s != "trace"
  {
    if s == "error" then Error
    else if s == "warning" then Warning
    else if s == "info" then Info
    else if s == "debug" then Debug
    else if s == "trace" then Trace
    else Quiet
  }

  /** The configuration spelling of each named level (quiet has none). */
  function ConfigName(l: nat): string
    requires IsLevel(l) && l != Quiet
  {
    if l == Error then "error"
    else if l == Warning then "warning"
    else if l == Info then "info"
    else if l == Debug then "debug"
    else "trace"
  }

  /** Parsing the configuration spelling of a level gives the level back. */
  lemma ToLevelIntInverse(l: nat)
    requires IsLevel(l) && l != Quiet
    ensures ToLevelInt(ConfigName(l)) == l
  {
  }

  /** Every parsed setting has a printable name in the level-name table. */
  lemma ParsedLevelHasName(s: string)
    ensures LevelName(ToLevelInt(s)) != ""
    ensures ToLevelInt(s) != Quiet ==> LevelName(ToLevelInt(s)) != "QUIET"
  {
  }
}
