# Sorted channel messages: a Dafny model

This project models the logic of a small command-line tool. The tool fetches every post of one chat channel and prints the posts ranked by their thumbs-up reactions. The tool's source is a single Rust file, `src/main.rs`. Only its deterministic parts are modelled:

- **Paginator** (`paginator.dfy`): the fetch loop in `main`. It asks for pages of `MESSAGES_LIMIT` = 100 posts. Every request after the first carries as `before` cursor the id of the last post received. The loop ends at the first page that is not full. The chat service is a parameter `PageSource`: a total function from a cursor to a page, or to the error that `send()?` / `json()?` would raise.
- **Messages** (`messages.dfy`): the `Message`, `Reaction` and `Emoji` records, `Message::reactions_count` and `Message::elapsed_hours`.
- **Ranking** (`ranking.dfy`): the `retain` that drops edited posts, `sort_unstable_by_key` on an integer key, and the `rev()` that lists the best post first.
- **Arguments** (`arguments.dfy`): the `Sort` strategies and how the first command-line argument selects one.
- **Durations** (`durations.dfy`): the truncation in `human_readable_duration`, including Rust's `str::splitn`.
- **Wrappers** (`wrappers.dfy`): `Option` and `Result`.

The paginator is a `method` with a loop. The source promises no termination, so the method takes a `fuel` bound on the number of requests. Its contract relates the requests and pages it records to two ghost predicates. `FullRun` describes a sequence of full pages, each the source's answer to the cursor the loop sends (`Answered`). `CompleteRun` describes such a sequence followed by one page that is not full. Lemmas show that a source has at most one complete run. The method returns that run whenever it fits within the fuel.

Two consequences of the code as written:

- The loop stops on any page whose length is not exactly 100, so a page longer than 100 also ends it.
- Nothing removes duplicate posts; distinct ids depend on the service honouring `before`.

## Model

| member | source | states |
|---|---|---|
| `Messages.ReactionsCountIsThumbsUpTotal` | src/main.rs:104-106 | the reaction count equals the total `count` of exactly the reactions whose emoji name is "👍" |
| `Messages.ReactionsCount` | src/main.rs:104-106 | a post's count is the total of the counts of its thumbs-up reactions and of no other reaction |
| `Messages.ThumbsUpReactions` | src/main.rs:105 | the filter keeps every thumbs-up reaction of the list, as often as it occurs there, and nothing else |
| `Messages.OtherEmojiNeverContributes` | src/main.rs:105 | inserting a reaction with any other emoji anywhere in the list leaves the count unchanged |
| `Messages.ThumbsUpAddsItsCount` | src/main.rs:105 | inserting a thumbs-up reaction anywhere raises the count by exactly its `count` |
| `Messages.ReactionsCountZeroIff` | src/main.rs:104-106 | the count is 0 if and only if every thumbs-up reaction has count 0 |
| `Messages.NoThumbsUpCountsZero` | src/main.rs:104-106 | a message without a thumbs-up reaction counts 0 |
| `Messages.ReactionsCountIgnoresOrder` | src/main.rs:104-106 | reordering the reaction list does not change the count |
| `Messages.ElapsedHours` | src/main.rs:108-110 | whole hours between `timestamp` and `now`, truncated toward zero: bounded by consecutive multiples of 3600 seconds, for past and future posts alike |
| `Messages.ElapsedHoursMonotone` | src/main.rs:108-110 | a later `now` never gives fewer elapsed hours |
| `Arguments.ParseSort` | src/main.rs:23-32 | no argument selects `ByReactions`; each of the three flags selects its own strategy; any other string, and only those, gives the usage error with the source's message |
| `Arguments.ParseFlagRoundTrip` | src/main.rs:24-26 | parsing a strategy's flag gives back that strategy; distinct strategies have distinct flags |
| `Paginator.Cursors` | src/main.rs:35-54 | one cursor per page received |
| `Paginator.CursorsFollowPages` | src/main.rs:35-54 | the first request has no cursor; every later one carries the id of the last post of the previous page, which was full |
| `Paginator.FetchAll` | src/main.rs:34-57 | the posts returned are the concatenation of the pages in fetch order; every page but the last is full and the last is not; a failed request aborts with its error and returns no posts; the result is the unique complete run whenever one fits within the fuel |
| `Paginator.AnsweredPrefix` | src/main.rs:37-57 | every prefix of a sequence of answered pages is itself answered |
| `Paginator.AnsweredAt` | src/main.rs:45-54 | the n-th page received is the source's answer to the cursor computed from the first n pages |
| `Paginator.ConcatAppend` | src/main.rs:49 | appending a page extends the accumulator by exactly that page |
| `Paginator.FullRunExtend` | src/main.rs:45-54 | a full page answering the loop's cursor extends a run of full pages |
| `Paginator.CompleteRunFromFullRun` | src/main.rs:51-56 | a page that is not full, answering the loop's cursor, completes the run |
| `Paginator.RunsAgree` | src/main.rs:37-57 | two runs of the same source agree page by page as far as both go |
| `Paginator.FullRunPrecedesCompleteRun` | src/main.rs:51-56 | the loop never continues past the complete run: every run of full pages is a proper prefix of it |
| `Paginator.CompleteRunUnique` | src/main.rs:37-57 | a source has at most one complete run |
| `Paginator.OutcomeMatchesCompleteRuns` | src/main.rs:45-57 | neither a failure nor running out of fuel can happen before the complete run is reached; a complete outcome is that run |
| `Paginator.ThreePageRun` | src/main.rs:45-56 | pages of 100, 100 and 37 posts form a complete run of three requests and 237 posts |
| `Paginator.ShortFirstPageRun` | src/main.rs:51-56 | a first page that is not full ends the loop after one request with that page's posts |
| `Ranking.Unedited` | src/main.rs:60 | the kept posts are all unedited and at most as many as the input |
| `Ranking.UneditedCounts` | src/main.rs:60 | every unedited post is kept as often as it occurs; edited posts never are |
| `Ranking.UneditedKeepsOrder` | src/main.rs:60 | the kept posts are the input's subsequence at strictly increasing positions |
| `Ranking.KeptExactlyUnedited` | src/main.rs:60 | a position is kept exactly when the post there is unedited |
| `Ranking.EditedTwinDropped` | src/main.rs:60 | of two posts that differ only by an edit, only the unedited one is kept |
| `Ranking.Insert` | src/main.rs:63 | inserting into an ascending sequence keeps it ascending and adds exactly one element |
| `Ranking.SortByKey` | src/main.rs:63 | the sorted sequence is a permutation of its input, ascending in the key |
| `Ranking.Reverse` | src/main.rs:73 | the reversed sequence has position i holding the input's element at position n-1-i |
| `Ranking.ReverseOfAscending` | src/main.rs:73 | reversing an ascending sequence gives a non-increasing permutation of it |
| `Ranking.Rank` | src/main.rs:60-73 | the listed posts are a permutation of the unedited posts, non-increasing in the key; a post with a larger key is listed before one with a smaller key |
| `Ranking.RankByReactions` | src/main.rs:60-73 | under `ByReactions` the listing is a permutation of the unedited posts, non-increasing in the reaction count |
| `Durations.FirstIndexOf` | src/main.rs:86 | the position of the first occurrence of the character, or none exactly when it does not occur |
| `Durations.SplitN` | src/main.rs:86 | `splitn`: between 1 and n pieces that join back into the input; no piece but the last holds the separator, and the last does not either when there are fewer than n pieces |
| `Durations.ThreePiecesIffTwoSpaces` | src/main.rs:86 | `splitn(3, ' ')` yields a third piece exactly when the input holds at least two spaces |
| `Durations.TruncatedAfterSecondSpace` | src/main.rs:86-87 | with three pieces, the input is the first two pieces each followed by a space, then the third piece, and that head holds exactly two spaces |
| `Durations.HumanReadableDuration` | src/main.rs:84-89 | the result is a prefix of the input; with fewer than two spaces it is the whole input; otherwise it ends with the second space |

## Left out

- HTTP requests through `minreq`, the request URL, the `Authorization` header and `serde` JSON decoding are I/O. The abstract `PageSource` replaces them. A failed request or decoding is a `FetchError` with an opaque reason.
- Reading `DISCORD_AUTHORIZATION` and `env::args` is I/O. The argument is an input of `Arguments.ParseSort`.
- `Utc::now` and chrono's `DateTime` are replaced by integer seconds since the epoch. Sub-second parts of timestamps are not modelled.
- `Message::score` uses `f32` `powf` with `GRAVITY = 1.8`. It is floating point and is not modelled.
- The throughput sort key and the displayed throughput use `f32` division, including a division by zero for posts under an hour old. They are floating point and are not modelled.
- `OrderedFloat` is not modelled. `Ranking.Rank` is proved for any integer key, but only `ByReactions` is instantiated. `ByScore` and `ByReactionsThroughput` orderings are not modelled.
- The external `human_duration` formatter, the `Display` impl, the `"ago,"` suffix, the `#` rank numbers and `println!` are presentation. `Durations.HumanReadableDuration` takes the formatter's output as its input.
- `elapsed.to_std().unwrap()` panics for a post dated in the future. This is display-only and not modelled.
- Rust measures string lengths in bytes in `human_readable_duration`. The model works on characters. The truncation removes a whole suffix either way, so the result is the same.
- `Paginator.FetchAll`: the `fuel` bound and the `OutOfFuel` outcome have no counterpart in the source. The source loops for as long as the service keeps returning full pages.
- `Messages.ReactionsCount`: the `usize` sum is modelled as an unbounded `nat`, so overflow of the sum is not modelled.
- `Ranking.SortByKey`: the source's sort is unstable. The model fixes one order for equal keys, and the contract says nothing about it.
- The absence of duplicate ids across pages depends on the chat service honouring `before`. It is not stated.
- The unused fields `channel_id` and `me` are carried in the datatypes but never read.
