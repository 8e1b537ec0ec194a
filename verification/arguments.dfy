/**
 * The ranking strategy and how the first command-line argument selects it.
 */
module Arguments {
  import opened Wrappers

  datatype Sort = ByScore | ByReactions | ByReactionsThroughput

  const ScoreFlag: string := "--sort-by-score"
  const ReactionsFlag: string := "--sort-by-reactions"
  const ReactionsThroughputFlag: string := "--sort-by-reactions-throughput"

  /** The text of the usage error; the source continues the literal across a line break. */
  const InvalidArgumentMessage: string :=
    "invalid argument, please use `--sort-by-score`, `--sort-by-reactions` or `--sort-by-reactions-throughput`"

  datatype UsageError = InvalidArgument(message: string)

  /** The flag that selects each strategy. */
  function Flag(s: Sort): string {
    match s
    case ByScore => ScoreFlag
    case ByReactions => ReactionsFlag
    case ByReactionsThroughput => ReactionsThroughputFlag
  }

  /**
   * The match on `env::args().nth(1)`: no argument selects `ByReactions`,
   * each exact flag selects its own strategy, and anything else is a
   * usage error.
   */
  function ParseSort(arg: Option<string>): (r: Result<Sort, UsageError>)
    ensures arg.None? ==> r == Success(ByReactions)
    ensures forall s: Sort :: arg == Some(Flag(s)) ==> r == Success(s)
    ensures r.Failure? <==> arg.Some? && arg.value !in {ScoreFlag, ReactionsFlag, ReactionsThroughputFlag}
    ensures r.Failure? ==> r.error == InvalidArgument(InvalidArgumentMessage)
  {
    match arg
    case Some(a) =>
      if a == ScoreFlag then Success(ByScore)
      else if a == ReactionsFlag then Success(ByReactions)
      else if a == ReactionsThroughputFlag then Success(ByReactionsThroughput)
      else Failure(InvalidArgument(InvalidArgumentMessage))
    case None => Success(ByReactions)
  }

  /** Distinct strategies have distinct flags, so parsing a flag gives back its strategy. */
  lemma ParseFlagRoundTrip(s: Sort)
    ensures ParseSort(Some(Flag(s))) == Success(s)
    ensures forall t: Sort :: Flag(t) == Flag(s) ==> t == s
  {
  }
}
