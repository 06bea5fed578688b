/**
  The two clean-up modes of the tool and the parser that turns a command-line
  label into one of them.
 */
module CleanModes {

  /** The clean-up modes. */
  datatype CleanMode =
    | MinSeedRatio   // remove every torrent that has seeded at least the minimum ratio
    | MinFreeSpace   // remove eligible torrents until the free-space target would be met
  {
    /** The value the enumeration itself carries (hyphenated). */
    function Value(): string {
      match this
      case MinSeedRatio => "seed-ratio"
      case MinFreeSpace => "free-space"
    }

    /** The label the command line offers for this mode (underscored). */
    function Choice(): string {
      match this
      case MinSeedRatio => "seed_ratio"
      case MinFreeSpace => "free_space"
    }
  }

  /** Result of parsing a label: a mode, or the error the parser raises. */
  datatype Parsed = Ok(mode: CleanMode) | NotImplementedError

  /** Parses a command-line label; any label other than the two choices is an error. */
  function FromStr(name: string): (r: Parsed)
    ensures r.Ok? ==> r.mode.Choice() == name
    ensures r.NotImplementedError? <==> forall m: CleanMode :: m.Choice() != name
  {
    match name
    case "seed_ratio" => Ok(MinSeedRatio)
    case "free_space" => Ok(MinFreeSpace)
    case _ => NotImplementedError
  }

  /** Every command-line choice parses back to its own mode. */
  lemma ChoiceRoundTrip(m: CleanMode)
    ensures FromStr(m.Choice()) == Ok(m)
  {
  }

  /** The enumeration's own hyphenated values are not accepted by the parser. */
  lemma ValuesRejected(m: CleanMode)
    ensures FromStr(m.Value()) == NotImplementedError
  {
  }
}
