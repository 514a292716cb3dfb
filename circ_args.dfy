/**
 * The command-line classifier the simulator runners call:
 * `<FILE>.py [-v] [-p]` yields the pair (verbose, plot). The runners
 * consult only plot, to decide whether to plot the measured
 * distributions; verbose is returned but no runner uses it.
 * argv is passed in; the usage message for other lengths is output only.
 */
module CircArgs {

  /**
   * The (verbose, plot) pair. Verbose is requested exactly when there
   * are one or two flags and the first is "-v"; plot exactly when there
   * are one or two flags and the last is "-p". Every other argv yields
   * (false, false).
   */
  function ReadCircArgs(argv: seq<string>): (r: (bool, bool))
    ensures r.0 <==> (|argv| == 2 || |argv| == 3) && argv[1] == "-v"
    ensures r.1 <==> (|argv| == 2 || |argv| == 3) && argv[|argv| - 1] == "-p"
  {
    if |argv| == 3 then (argv[1] == "-v", argv[2] == "-p")
    else if |argv| == 2 then (argv[1] == "-v", argv[1] == "-p")
    else (false, false)
  }

  /** A single flag can never switch on both options. */
  lemma SingleFlagNeverBoth(argv: seq<string>)
    requires |argv| == 2
    ensures !(ReadCircArgs(argv).0 && ReadCircArgs(argv).1)
  {
  }

  /** The two flags are positional: "-p -v" switches on neither. */
  lemma FlagsArePositional(argv: seq<string>)
    requires |argv| == 3 && argv[1] == "-p" && argv[2] == "-v"
    ensures ReadCircArgs(argv) == (false, false)
  {
  }

  /** With no flag, or more than two, both options stay off. */
  lemma OtherLengthsYieldDefaults(argv: seq<string>)
    requires |argv| != 2 && |argv| != 3
    ensures ReadCircArgs(argv) == (false, false)
  {
  }
}
