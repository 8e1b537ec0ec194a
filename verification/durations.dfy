/**
 * `human_readable_duration`: keeps the first two space-separated units of
 * an already formatted duration (such as "3d 4h 5m 6s" becoming "3d 4h ").
 * The formatter itself is outside the model; its output is the input here.
 */
module Durations {
  import opened Wrappers

  const Space: char := ' '

  /** How many times `c` occurs in `s`. */
  function Occurrences(s: string, c: char): nat {
    multiset(s)[c]
  }

  /** The index of the first `c` in `s`, if any. */
  function FirstIndexOf(s: string, c: char): (r: Option<nat>)
    ensures r.None? <==> c !in s
    ensures r.Some? ==> r.value < |s| && s[r.value] == c && c !in s[..r.value]
  {
    if |s| == 0 then None
    else if s[0] == c then Some(0)
    else
      var rest := FirstIndexOf(s[1..], c);
      if rest.None? then None
      else
        assert s[..rest.value + 1] == [s[0]] + s[1..][..rest.value];
        Some(rest.value + 1)
  }

  /** Puts `sep` between consecutive pieces. */
  function Join(pieces: seq<string>, sep: char): string {
    if |pieces| == 0 then []
    else if |pieces| == 1 then pieces[0]
    else pieces[0] + [sep] + Join(pieces[1..], sep)
  }

  /**
   * Rust's `str::splitn(n, sep)`: at most `n` pieces, split at the first
   * `n - 1` separators, the last piece holding the unsplit rest.
   */
  function SplitN(s: string, n: nat, sep: char): (pieces: seq<string>)
    ensures n == 0 ==> pieces == []
    ensures n > 0 ==> 1 <= |pieces| <= n && Join(pieces, sep) == s
    ensures forall k :: 0 <= k < |pieces| - 1 ==> sep !in pieces[k]
    ensures |pieces| < n ==> sep !in pieces[|pieces| - 1]
  {
    if n == 0 then []
    else if n == 1 then [s]
    else match FirstIndexOf(s, sep)
      case None => [s]
      case Some(i) =>
        var rest := SplitN(s[i + 1..], n - 1, sep);
        assert s == s[..i] + [sep] + s[i + 1..];
        assert ([s[..i]] + rest)[1..] == rest;
        [s[..i]] + rest
  }

  /**
   * Truncates `formatted` by the length of the text after its second
   * space, or by nothing when there is no such text.
   */
  function HumanReadableDuration(formatted: string): (r: string)
    ensures |r| <= |formatted| && r == formatted[..|r|]
    ensures Occurrences(formatted, Space) < 2 ==> r == formatted
    ensures Occurrences(formatted, Space) >= 2 ==>
      |r| > 0 && r[|r| - 1] == Space && Occurrences(r, Space) == 2
  {
    var pieces := SplitN(formatted, 3, Space);
    // `nth(2).map_or(0, |s| s.len())`
    var tailLength := if |pieces| == 3 then |pieces[2]| else 0;
    ThreePiecesIffTwoSpaces(formatted, pieces);
    assert |pieces| == 3 ==> formatted == pieces[0] + [Space] + pieces[1] + [Space] + pieces[2] by {
      if |pieces| == 3 {
        TruncatedAfterSecondSpace(formatted, pieces);
      }
    }
    formatted[..|formatted| - tailLength]
  }

  /** `Join` written out for the piece counts `splitn(3, …)` can produce. */
  lemma {:induction false} JoinUpToThree(pieces: seq<string>, sep: char)
    ensures |pieces| == 1 ==> Join(pieces, sep) == pieces[0]
    ensures |pieces| == 2 ==> Join(pieces, sep) == pieces[0] + [sep] + pieces[1]
    ensures |pieces| == 3 ==> Join(pieces, sep) == pieces[0] + [sep] + pieces[1] + [sep] + pieces[2]
  {
    if |pieces| == 2 {
      assert Join(pieces[1..], sep) == pieces[1];
    } else if |pieces| == 3 {
      assert Join(pieces[1..][1..], sep) == pieces[2];
      assert Join(pieces[1..], sep) == pieces[1] + [sep] + pieces[2];
    }
  }

  /**
   * Pieces with the guarantees of `SplitN(formatted, 3, Space)` number
   * three exactly when `formatted` holds at least two spaces.
   */
  lemma ThreePiecesIffTwoSpaces(formatted: string, pieces: seq<string>)
    requires 1 <= |pieces| <= 3 && Join(pieces, Space) == formatted
    requires forall k :: 0 <= k < |pieces| - 1 ==> Space !in pieces[k]
    requires |pieces| < 3 ==> Space !in pieces[|pieces| - 1]
    ensures |pieces| < 3 <==> Occurrences(formatted, Space) < 2
  {
    JoinUpToThree(pieces, Space);
  }

  /**
   * With three such pieces, `formatted` is the first two pieces, each
   * followed by its space, and then the third piece.
   */
  lemma {:induction false} TruncatedAfterSecondSpace(formatted: string, pieces: seq<string>)
    requires |pieces| == 3 && Join(pieces, Space) == formatted
    requires Space !in pieces[0] && Space !in pieces[1]
    ensures var head := pieces[0] + [Space] + pieces[1] + [Space];
      formatted == head + pieces[2] && Occurrences(head, Space) == 2
  {
    JoinUpToThree(pieces, Space);
    var head := pieces[0] + [Space] + pieces[1] + [Space];
    assert multiset(head) == multiset(pieces[0]) + multiset([Space]) + multiset(pieces[1]) + multiset([Space]);
  }
}
