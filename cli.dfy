/** The command line of thumbnail_maker.py. */
module Cli {
  import opened Results

  /** `parse_args` (lines 218-234). `argv` is `sys.argv`: the script's own name
      followed by its arguments. Exactly two arguments, the journal's short name and
      the thumbnail mode, are accepted; the usage text printed before an error is
      output only. */
  function ParseArgs(argv: seq<string>): (r: Result<(string, string)>)
    ensures r.Ok? <==> |argv| == 3
    ensures r.Ok? ==> r.value == (argv[1], argv[2])
    ensures r.Fail? ==> r.error == ExitError(
      if |argv| > 3 then "Entered too many arguments." else "Entered too few arguments.")
  {
    if |argv| == 3 then Ok((argv[1], argv[2]))
    else if |argv| > 3 then Fail(ExitError("Entered too many arguments."))
    else Fail(ExitError("Entered too few arguments."))
  }

  /** A command line built from a script name, a short name and a mode parses back to
      that short name and mode. */
  lemma ParseArgsRoundTrip(script: string, shortname: string, mode: string)
    ensures ParseArgs([script, shortname, mode]) == Ok((shortname, mode))
  {
  }
}
