/**
 * The fetch loop at the start of `main`: request pages of up to
 * `MessagesLimit` posts, newest first, each one older than the last post
 * received so far, until a page comes back short.
 *
 * The chat service is a parameter: a total function from the `before`
 * cursor of a request to the page it answers, or to the error the request
 * or its decoding raised.
 */
module Paginator {
  import opened Wrappers
  import opened Messages

  /** `MESSAGES_LIMIT`: the page size asked for, and the length of a full page. */
  const MessagesLimit: nat := 100

  /** The `before` parameter of a request: absent for the newest page. */
  type Cursor = Option<string>

  type Page = seq<Message>

  /** Whatever made `send()?` or `json()?` fail. */
  datatype FetchError = FetchError(reason: string)

  type PageSource = Cursor -> Result<Page, FetchError>

  /**
   * How a call to `FetchAll` ended. `OutOfFuel` has no counterpart in the
   * source, which keeps requesting for as long as full pages arrive.
   */
  datatype Outcome = Complete(messages: seq<Message>) | Failed(error: FetchError) | OutOfFuel

  /** The accumulator after receiving `pages`: their concatenation in fetch order. */
  function Concat(pages: seq<Page>): seq<Message> {
    if |pages| == 0 then [] else Concat(pages[..|pages| - 1]) + pages[|pages| - 1]
  }

  /** The cursor the loop sends after accumulating `acc`: the id of its last post, if any. */
  function CursorAfter(acc: seq<Message>): Cursor {
    if |acc| == 0 then None else Some(acc[|acc| - 1].id)
  }

  /**
   * Each page of `pages` is what `source` answers to the cursor the loop
   * sends after receiving the pages before it.
   */
  ghost predicate Answered(source: PageSource, pages: seq<Page>)
    decreases |pages|
  {
    || |pages| == 0
    || var previous := pages[..|pages| - 1];
       && Answered(source, previous)
       && source(CursorAfter(Concat(previous))) == Success(pages[|pages| - 1])
  }

  /** Every page holds exactly `MessagesLimit` posts. */
  ghost predicate AllFull(pages: seq<Page>) {
    forall i :: 0 <= i < |pages| ==> |pages[i]| == MessagesLimit
  }

  /** Pages the loop receives without stopping: answered in turn, and all full. */
  ghost predicate FullRun(source: PageSource, pages: seq<Page>) {
    Answered(source, pages) && AllFull(pages)
  }

  /** A run that the loop ends normally: full pages, then one page that is not full. */
  ghost predicate CompleteRun(source: PageSource, pages: seq<Page>) {
    && |pages| > 0
    && Answered(source, pages)
    && AllFull(pages[..|pages| - 1])
    && |pages[|pages| - 1]| != MessagesLimit
  }

  lemma {:induction false} AnsweredPrefix(source: PageSource, pages: seq<Page>, n: nat)
    requires Answered(source, pages) && n <= |pages|
    ensures Answered(source, pages[..n])
    decreases |pages|
  {
    if n < |pages| {
      var previous := pages[..|pages| - 1];
      AnsweredPrefix(source, previous, n);
      assert previous[..n] == pages[..n];
    } else {
      assert pages[..n] == pages;
    }
  }

  /** The n-th page answers the cursor sent after the first n pages. */
  lemma AnsweredAt(source: PageSource, pages: seq<Page>, n: nat)
    requires Answered(source, pages) && n < |pages|
    ensures source(CursorAfter(Concat(pages[..n]))) == Success(pages[n])
  {
    AnsweredPrefix(source, pages, n + 1);
    var prefix := pages[..n + 1];
    assert prefix[..n] == pages[..n] && prefix[n] == pages[n];
  }

  lemma ConcatAppend(pages: seq<Page>, page: Page)
    ensures Concat(pages + [page]) == Concat(pages) + page
  {
    assert (pages + [page])[..|pages|] == pages;
  }

  /** The cursor of each request, given the pages received before it. */
  function Cursors(pages: seq<Page>): (c: seq<Cursor>)
    ensures |c| == |pages|
  {
    if |pages| == 0 then []
    else
      var previous := pages[..|pages| - 1];
      Cursors(previous) + [CursorAfter(Concat(previous))]
  }

  lemma FullRunExtend(source: PageSource, pages: seq<Page>, page: Page)
    requires FullRun(source, pages)
    requires source(CursorAfter(Concat(pages))) == Success(page) && |page| == MessagesLimit
    ensures FullRun(source, pages + [page])
  {
    assert (pages + [page])[..|pages|] == pages;
  }

  lemma CompleteRunFromFullRun(source: PageSource, pages: seq<Page>, page: Page)
    requires FullRun(source, pages)
    requires source(CursorAfter(Concat(pages))) == Success(page) && |page| != MessagesLimit
    ensures CompleteRun(source, pages + [page])
  {
    assert (pages + [page])[..|pages|] == pages;
  }

  /**
   * The loop of `main`. Each iteration records the cursor it requests with
   * in `requests` and the page it receives in `pages`; at most `fuel`
   * requests are made. A failed request aborts the whole loop and no posts
   * are returned.
   */
  method FetchAll(source: PageSource, fuel: nat)
    returns (r: Outcome, requests: seq<Cursor>, pages: seq<Page>)
    ensures |requests| <= fuel
    ensures r.Complete? ==>
      CompleteRun(source, pages) && requests == Cursors(pages) && r.messages == Concat(pages)
    ensures r.Failed? ==> FullRun(source, pages) && requests == Cursors(pages) + [CursorAfter(Concat(pages))]
    ensures r.Failed? ==> source(CursorAfter(Concat(pages))) == Failure(r.error)
    ensures r.OutOfFuel? ==> FullRun(source, pages) && requests == Cursors(pages) && |pages| == fuel
    ensures forall p :: CompleteRun(source, p) && |p| <= fuel ==> r == Complete(Concat(p)) && pages == p
  {
    var allMessages: seq<Message> := [];
    var beforeMessage: Cursor := None;
    requests, pages := [], [];
    r := OutOfFuel;
    while |requests| < fuel
      invariant |requests| <= fuel
      invariant FullRun(source, pages)
      invariant requests == Cursors(pages)
      invariant allMessages == Concat(pages)
      invariant beforeMessage == CursorAfter(allMessages)
      invariant r == OutOfFuel
      decreases fuel - |requests|
    {
      var response := source(beforeMessage);
      if response.Failure? {
        r := Failed(response.error);
        break;
      }
      var messages := response.value;
      ConcatAppend(pages, messages);
      if |allMessages + messages| > 0 && |messages| == MessagesLimit {
        FullRunExtend(source, pages, messages);
      } else {
        CompleteRunFromFullRun(source, pages, messages);
      }
      assert (pages + [messages])[..|pages|] == pages;
      requests := requests + [beforeMessage];
      pages := pages + [messages];
      allMessages := allMessages + messages;
      if |allMessages| > 0 && |messages| == MessagesLimit {
        beforeMessage := Some(allMessages[|allMessages| - 1].id);
      } else {
        r := Complete(allMessages);
        break;
      }
    }
    OutcomeMatchesCompleteRuns(source, fuel, r, pages);
    if r.Failed? {
      requests := requests + [beforeMessage];
    }
  }

  /**
   * The first request carries no cursor; every later one carries the id
   * of the last post of the page before it, which was full.
   */
  lemma {:induction false} CursorsFollowPages(pages: seq<Page>)
    requires forall i :: 0 <= i < |pages| - 1 ==> |pages[i]| == MessagesLimit
    ensures |pages| > 0 ==> Cursors(pages)[0] == None
    ensures forall i :: 0 < i < |pages| ==> Cursors(pages)[i] == Some(pages[i - 1][MessagesLimit - 1].id)
  {
    if |pages| > 0 {
      var n := |pages| - 1;
      var previous := pages[..n];
      CursorsFollowPages(previous);
      if n > 0 {
        assert Concat(previous) == Concat(previous[..n - 1]) + pages[n - 1];
      }
      assert forall i :: 0 <= i < n ==> previous[i] == pages[i];
    }
  }

  // ---------------------------------------------------------------------
  // A source determines its run: the loop can only end one way.
  // ---------------------------------------------------------------------

  lemma {:induction false} RunsAgree(source: PageSource, q: seq<Page>, p: seq<Page>, n: nat)
    requires Answered(source, q) && Answered(source, p)
    requires n <= |q| && n <= |p|
    ensures q[..n] == p[..n]
  {
    if n > 0 {
      var m := n - 1;
      RunsAgree(source, q, p, m);
      AnsweredAt(source, p, m);
      AnsweredAt(source, q, m);
      assert q[..n] == q[..m] + [q[m]] && p[..n] == p[..m] + [p[m]];
    }
  }

  /** Any run of full pages is a proper prefix of the complete run. */
  lemma FullRunPrecedesCompleteRun(source: PageSource, q: seq<Page>, p: seq<Page>)
    requires FullRun(source, q) && CompleteRun(source, p)
    ensures |q| < |p| && q == p[..|q|]
  {
    if |q| >= |p| {
      RunsAgree(source, q, p, |p|);
      assert false;
    }
    RunsAgree(source, q, p, |q|);
  }

  /** A source admits at most one complete run. */
  lemma CompleteRunUnique(source: PageSource, p: seq<Page>, q: seq<Page>)
    requires CompleteRun(source, p) && CompleteRun(source, q)
    ensures p == q
  {
    AnsweredPrefix(source, p, |p| - 1);
    AnsweredPrefix(source, q, |q| - 1);
    FullRunPrecedesCompleteRun(source, p[..|p| - 1], q);
    FullRunPrecedesCompleteRun(source, q[..|q| - 1], p);
    RunsAgree(source, p, q, |p|);
    assert p == p[..|p|] && q == q[..|q|];
  }

  /**
   * Whatever `FetchAll` returns is consistent with the complete run, when
   * the source has one within the fuel: the run is found in full.
   */
  lemma OutcomeMatchesCompleteRuns(source: PageSource, fuel: nat, r: Outcome, pages: seq<Page>)
    requires r.Complete? ==> CompleteRun(source, pages) && r.messages == Concat(pages)
    requires r.Failed? ==>
      FullRun(source, pages) && source(CursorAfter(Concat(pages))) == Failure(r.error)
    requires r.OutOfFuel? ==> FullRun(source, pages) && |pages| == fuel
    ensures forall p :: CompleteRun(source, p) && |p| <= fuel ==> r == Complete(Concat(p)) && pages == p
  {
    forall p | CompleteRun(source, p) && |p| <= fuel
      ensures r == Complete(Concat(p)) && pages == p
    {
      if r.Complete? {
        CompleteRunUnique(source, pages, p);
      } else {
        FullRunPrecedesCompleteRun(source, pages, p);
        if r.Failed? {
          AnsweredAt(source, p, |pages|);
          assert false;
        }
      }
    }
  }

  /**
   * Pages of 100, 100 and 37 posts make a complete run of three requests
   * and 237 posts, each later request carrying the id of the last post of
   * the page before it.
   */
  lemma ThreePageRun(source: PageSource, p0: Page, p1: Page, p2: Page)
    requires |p0| == MessagesLimit && |p1| == MessagesLimit && |p2| == 37
    requires source(None) == Success(p0)
    requires source(Some(p0[MessagesLimit - 1].id)) == Success(p1)
    requires source(Some(p1[MessagesLimit - 1].id)) == Success(p2)
    ensures CompleteRun(source, [p0, p1, p2])
    ensures |Concat([p0, p1, p2])| == 237
  {
    var run := [p0, p1, p2];
    assert run[..2] == [p0, p1] && [p0, p1][..1] == [p0] && [p0][..0] == [];
    assert Concat([p0]) == p0;
    assert Concat([p0, p1]) == p0 + p1;
    assert Answered(source, [p0]);
    assert Answered(source, [p0, p1]);
    assert Concat(run) == p0 + p1 + p2;
  }

  /** A short first page ends the loop after a single request. */
  lemma ShortFirstPageRun(source: PageSource, p0: Page)
    requires source(None) == Success(p0) && |p0| != MessagesLimit
    ensures CompleteRun(source, [p0])
    ensures Concat([p0]) == p0
  {
    assert [p0][..0] == [];
  }
}
