/**
 * The part of Go's `flag.FlagSet` that the option parser depends on, kept
 * abstract: a table of defined names (with the usage text and the default
 * value already turned into text), a definition step that refuses a name that
 * is already defined, and the outcome of parsing a command line.
 */
module FlagSet {
  import opened Wrappers

  /** What the flag library keeps for a defined name. */
  datatype Flag = Flag(usage: string, defValue: string)

  /**
   * Defines `name`. The library panics when `name` is already defined (`None`);
   * otherwise the name is added and nothing else changes.
   */
  function Define(flags: map<string, Flag>, name: string, usage: string, defValue: string): (r: Option<map<string, Flag>>)
    ensures r.None? <==> name in flags
    ensures r.Some? ==> r.value.Keys == flags.Keys + {name}
    ensures r.Some? ==> r.value[name] == Flag(usage, defValue)
    ensures r.Some? ==> forall k :: k in flags ==> r.value[k] == flags[k]
  {
    if name in flags then None else Some(flags[name := Flag(usage, defValue)])
  }

  /**
   * What parsing the command line reports: a help request, any other error
   * (unknown flag, malformed value) with its text, or success together with
   * the names that were set on the command line.
   */
  datatype ParseOutcome = Help | Failed(msg: string) | Parsed(setNames: set<string>)

  /** The errors the parser hands out or prints. */
  datatype Error = ErrHelp | ErrText(msg: string)
  {
    /** The text `%v` prints for the error. */
    function Text(): string
    {
      match this
      case ErrHelp => "flag: help requested"
      case ErrText(m) => m
    }
  }
}
