/** How much the command line reports. */
module Ui {
  datatype Level = Quiet | Normal | Verbose

  /** `quiet` wins over `verbose`; neither flag gives the normal level. */
  function FromFlags(verbose: bool, quiet: bool): (l: Level)
    ensures quiet <==> l == Quiet
    ensures l == Verbose <==> verbose && !quiet
    ensures l == Normal <==> !verbose && !quiet
  {
    if quiet then Quiet else if verbose then Verbose else Normal
  }

  /** Quiet exactly for the level the `quiet` flag gives, whatever the
      `verbose` flag says. */
  function IsQuiet(l: Level): (r: bool)
    ensures r <==> l == FromFlags(false, true)
    ensures r <==> l == FromFlags(true, true)
  {
    l.Quiet?
  }

  /** Every level comes from some pair of flags, and the quiet test on a
      level read from flags is the `quiet` flag itself. */
  lemma FromFlagsCovers(l: Level)
    ensures exists verbose: bool, quiet: bool :: FromFlags(verbose, quiet) == l
    ensures forall verbose: bool, quiet: bool :: IsQuiet(FromFlags(verbose, quiet)) == quiet
  {
    match l
    case Quiet => assert FromFlags(false, true) == l;
    case Normal => assert FromFlags(false, false) == l;
    case Verbose => assert FromFlags(true, false) == l;
  }
}
