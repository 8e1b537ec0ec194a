/**
 * The records decoded from the chat service (`Message`, `Reaction`, `Emoji`)
 * and the two integer quantities derived from a message: the number of
 * thumbs-up reactions and the whole hours elapsed since it was posted.
 */
module Messages {
  import opened Wrappers

  /** The only emoji that counts towards a message's popularity: U+1F44D. */
  const ThumbsUp: string := "\U{1F44D}"

  /** Seconds in one hour, the divisor of `num_hours`. */
  const SecondsPerHour: int := 3600

  datatype Emoji = Emoji(name: string)

  /** `me` is decoded by the source but never read. */
  datatype Reaction = Reaction(count: nat, emoji: Emoji, me: bool)

  /**
   * A chat post. Instants are whole seconds since the epoch; an edited
   * post carries the instant of its last edit.
   */
  datatype Message = Message(
    id: string,
    channelId: string,
    content: string,
    reactions: seq<Reaction>,
    timestamp: int,
    editedTimestamp: Option<int>)
  {
    predicate IsEdited() {
      editedTimestamp.Some?
    }
  }

  predicate IsThumbsUp(r: Reaction) {
    r.emoji.name == ThumbsUp
  }

  /** What one reaction adds to the sum in `reactions_count`. */
  function Contribution(r: Reaction): nat {
    if IsThumbsUp(r) then r.count else 0
  }

  /** The mapped sum over the reaction list, taken left to right. */
  function SumContributions(rs: seq<Reaction>): nat {
    if |rs| == 0 then 0 else Contribution(rs[0]) + SumContributions(rs[1..])
  }

  /** `Message::reactions_count`: the total count of the thumbs-up reactions. */
  function ReactionsCount(m: Message): (r: nat)
    ensures r == TotalCount(ThumbsUpReactions(m.reactions))
  {
    ReactionsCountIsThumbsUpTotal(m.reactions);
    SumContributions(m.reactions)
  }

  // Reference definition: keep the thumbs-up reactions, then add up their counts.

  function ThumbsUpReactions(rs: seq<Reaction>): (t: seq<Reaction>)
    ensures forall i :: 0 <= i < |t| ==> IsThumbsUp(t[i])
    ensures forall r :: r in rs && IsThumbsUp(r) <==> r in t
    ensures forall r {:trigger multiset(t)[r]} :: multiset(t)[r] == if IsThumbsUp(r) then multiset(rs)[r] else 0
  {
    if |rs| == 0 then []
    else
      var rest := ThumbsUpReactions(rs[1..]);
      assert rs == [rs[0]] + rs[1..];
      if IsThumbsUp(rs[0]) then [rs[0]] + rest else rest
  }

  function TotalCount(rs: seq<Reaction>): nat {
    if |rs| == 0 then 0 else rs[0].count + TotalCount(rs[1..])
  }

  /** The count is exactly the total of the counts of the thumbs-up reactions. */
  lemma {:induction false} ReactionsCountIsThumbsUpTotal(rs: seq<Reaction>)
    ensures SumContributions(rs) == TotalCount(ThumbsUpReactions(rs))
  {
    if |rs| > 0 {
      ReactionsCountIsThumbsUpTotal(rs[1..]);
    }
  }

  lemma {:induction false} SumContributionsAppend(a: seq<Reaction>, b: seq<Reaction>)
    ensures SumContributions(a + b) == SumContributions(a) + SumContributions(b)
  {
    if |a| == 0 {
      assert a + b == b;
    } else {
      assert (a + b)[1..] == a[1..] + b;
      SumContributionsAppend(a[1..], b);
    }
  }

  /** A reaction whose emoji is not the thumbs-up never changes the count. */
  lemma OtherEmojiNeverContributes(a: seq<Reaction>, r: Reaction, b: seq<Reaction>)
    requires r.emoji.name != ThumbsUp
    ensures SumContributions(a + [r] + b) == SumContributions(a + b)
  {
    SumContributionsAppend(a + [r], b);
    SumContributionsAppend(a, [r]);
    SumContributionsAppend(a, b);
  }

  /** A thumbs-up reaction adds exactly its own count. */
  lemma ThumbsUpAddsItsCount(a: seq<Reaction>, r: Reaction, b: seq<Reaction>)
    requires r.emoji.name == ThumbsUp
    ensures SumContributions(a + [r] + b) == SumContributions(a + b) + r.count
  {
    SumContributionsAppend(a + [r], b);
    SumContributionsAppend(a, [r]);
    SumContributionsAppend(a, b);
  }

  /** The count is zero exactly when no thumbs-up reaction has a positive count. */
  lemma {:induction false} ReactionsCountZeroIff(rs: seq<Reaction>)
    ensures SumContributions(rs) == 0
        <==> forall i :: 0 <= i < |rs| && IsThumbsUp(rs[i]) ==> rs[i].count == 0
  {
    if |rs| > 0 {
      ReactionsCountZeroIff(rs[1..]);
      assert forall i :: 1 <= i < |rs| ==> rs[i] == rs[1..][i - 1];
    }
  }

  /** In particular, a message without any thumbs-up reaction counts 0. */
  lemma NoThumbsUpCountsZero(m: Message)
    requires forall i :: 0 <= i < |m.reactions| ==> m.reactions[i].emoji.name != ThumbsUp
    ensures ReactionsCount(m) == 0
  {
    ReactionsCountZeroIff(m.reactions);
  }

  /** Taking one reaction out of the list takes out exactly its contribution. */
  lemma {:induction false} SumContributionsRemove(b: seq<Reaction>, k: nat)
    requires k < |b|
    ensures SumContributions(b) == Contribution(b[k]) + SumContributions(b[..k] + b[k + 1..])
  {
    var front, back := b[..k], b[k + 1..];
    assert b == (front + [b[k]]) + back;
    SumContributionsAppend(front + [b[k]], back);
    SumContributionsAppend(front, [b[k]]);
    assert SumContributions([b[k]]) == Contribution(b[k]) + SumContributions([]);
    SumContributionsAppend(front, back);
  }

  lemma {:induction false} MultisetRemove(b: seq<Reaction>, k: nat)
    requires k < |b|
    ensures multiset(b[..k] + b[k + 1..]) == multiset(b) - multiset{b[k]}
  {
    assert b == b[..k] + [b[k]] + b[k + 1..];
    calc {
      multiset(b);
      multiset(b[..k]) + multiset{b[k]} + multiset(b[k + 1..]);
      multiset(b[..k] + b[k + 1..]) + multiset{b[k]};
    }
  }

  /** The order of the reaction list is irrelevant to the count. */
  lemma {:induction false} ReactionsCountIgnoresOrder(a: seq<Reaction>, b: seq<Reaction>)
    requires multiset(a) == multiset(b)
    ensures SumContributions(a) == SumContributions(b)
  {
    if |a| == 0 {
      assert |b| == |multiset(b)| == 0;
    } else {
      assert a[0] in multiset(b);
      var k :| 0 <= k < |b| && b[k] == a[0];
      assert a == [a[0]] + a[1..];
      assert multiset(a[1..]) == multiset(a) - multiset{a[0]};
      MultisetRemove(b, k);
      ReactionsCountIgnoresOrder(a[1..], b[..k] + b[k + 1..]);
      SumContributionsRemove(b, k);
    }
  }

  /**
   * `Message::elapsed_hours`: the elapsed time in whole hours, truncated
   * toward zero as `num_hours` does, so a post from the future gives a
   * non-positive number of hours.
   */
  function ElapsedHours(now: int, timestamp: int): (h: int)
    ensures now >= timestamp ==>
      0 <= h && h * SecondsPerHour <= now - timestamp < (h + 1) * SecondsPerHour
    ensures now < timestamp ==>
      h <= 0 && (h - 1) * SecondsPerHour < now - timestamp <= h * SecondsPerHour
  {
    var elapsed := now - timestamp;
    if elapsed >= 0 then elapsed / SecondsPerHour else -((-elapsed) / SecondsPerHour)
  }

  /** A later `now` never gives fewer elapsed hours. */
  lemma ElapsedHoursMonotone(now: int, later: int, timestamp: int)
    requires now <= later
    ensures ElapsedHours(now, timestamp) <= ElapsedHours(later, timestamp)
  {
  }
}
