/**
 * The ranking pipeline after pagination: drop edited posts, sort ascending
 * on an integer key, then walk the result in reverse so the best post is
 * listed first.
 */
module Ranking {
  import opened Wrappers
  import opened Messages

  // ---------------------------------------------------------------------
  // The edited-post filter: `retain(|m| m.edited_timestamp.is_none())`.
  // ---------------------------------------------------------------------

  /** The unedited posts of `ms`, in their original order. */
  function Unedited(ms: seq<Message>): (r: seq<Message>)
    ensures |r| <= |ms|
    ensures forall i :: 0 <= i < |r| ==> !r[i].IsEdited()
  {
    if |ms| == 0 then []
    else
      var init, last := ms[..|ms| - 1], ms[|ms| - 1];
      assert ms == init + [last];
      if last.IsEdited() then Unedited(init) else Unedited(init) + [last]
  }

  /** Each unedited post is kept as many times as it occurs; edited posts never are. */
  lemma {:induction false} UneditedCounts(ms: seq<Message>)
    ensures forall m :: multiset(Unedited(ms))[m] == if m.IsEdited() then 0 else multiset(ms)[m]
  {
    if |ms| > 0 {
      var init, last := ms[..|ms| - 1], ms[|ms| - 1];
      assert ms == init + [last];
      UneditedCounts(init);
    }
  }

  /** The positions in `ms` of its unedited posts, ascending. */
  function KeptPositions(ms: seq<Message>): (p: seq<nat>)
    ensures forall k :: 0 <= k < |p| ==> p[k] < |ms|
  {
    if |ms| == 0 then []
    else
      var init := KeptPositions(ms[..|ms| - 1]);
      if ms[|ms| - 1].IsEdited() then init else init + [|ms| - 1]
  }

  /** `r` is the subsequence of `ms` at the strictly increasing positions `p`. */
  ghost predicate SubsequenceAt(ms: seq<Message>, r: seq<Message>, p: seq<nat>) {
    && |p| == |r|
    && (forall k :: 0 <= k < |p| ==> p[k] < |ms| && r[k] == ms[p[k]])
    && (forall k, l :: 0 <= k < l < |p| ==> p[k] < p[l])
  }

  /**
   * `Unedited` keeps the unedited posts without reordering them: it is the
   * subsequence of `ms` at the kept positions.
   */
  lemma {:induction false} UneditedKeepsOrder(ms: seq<Message>)
    ensures SubsequenceAt(ms, Unedited(ms), KeptPositions(ms))
  {
    if |ms| > 0 {
      var n := |ms|;
      var init, last := ms[..n - 1], ms[n - 1];
      UneditedKeepsOrder(init);
      var u, p := Unedited(init), KeptPositions(init);
      if !last.IsEdited() {
        var u', p' := u + [last], p + [n - 1];
        assert Unedited(ms) == u' && KeptPositions(ms) == p';
        forall k | 0 <= k < |p'| ensures p'[k] < n && u'[k] == ms[p'[k]] {
          if k < |p| {
            assert p'[k] == p[k] && u'[k] == u[k] && init[p[k]] == ms[p[k]];
          }
        }
      }
    }
  }

  /** A position is kept exactly when the post there is unedited. */
  lemma {:induction false} KeptExactlyUnedited(ms: seq<Message>)
    ensures forall i :: 0 <= i < |ms| ==> (i in KeptPositions(ms) <==> !ms[i].IsEdited())
  {
    if |ms| > 0 {
      var n := |ms|;
      var init := ms[..n - 1];
      KeptExactlyUnedited(init);
      var p := KeptPositions(init);
      assert n - 1 !in p;
      forall i | 0 <= i < n - 1 ensures i in KeptPositions(ms) <==> !ms[i].IsEdited() {
        assert init[i] == ms[i];
      }
    }
  }

  /** Of two posts that differ only by an edit, only the unedited one is kept. */
  lemma EditedTwinDropped(m: Message, edit: int)
    requires m.editedTimestamp.None?
    ensures Unedited([m, m.(editedTimestamp := Some(edit))]) == [m]
  {
    var edited := m.(editedTimestamp := Some(edit));
    assert [m, edited][..1] == [m];
    assert [m][..0] == [];
  }

  // ---------------------------------------------------------------------
  // Sorting on an integer key, and reversal.
  // ---------------------------------------------------------------------

  ghost predicate Ascending<T>(s: seq<T>, key: T -> int) {
    forall i, j :: 0 <= i < j < |s| ==> key(s[i]) <= key(s[j])
  }

  ghost predicate NonIncreasing<T>(s: seq<T>, key: T -> int) {
    forall i, j :: 0 <= i < j < |s| ==> key(s[i]) >= key(s[j])
  }

  /** Every element of `s` has a key at least `bound`. */
  ghost predicate KeysAtLeast<T>(s: seq<T>, key: T -> int, bound: int) {
    forall k :: 0 <= k < |s| ==> bound <= key(s[k])
  }

  lemma KeysAtLeastOfSameElements<T>(a: seq<T>, b: seq<T>, key: T -> int, bound: int)
    requires multiset(a) == multiset(b) && KeysAtLeast(b, key, bound)
    ensures KeysAtLeast(a, key, bound)
  {
    forall k | 0 <= k < |a| ensures bound <= key(a[k]) {
      assert a[k] in multiset(b);
    }
  }

  lemma AscendingCons<T>(y: T, t: seq<T>, key: T -> int)
    requires Ascending(t, key) && KeysAtLeast(t, key, key(y))
    ensures Ascending([y] + t, key)
  {
    var r := [y] + t;
    forall i, j | 0 <= i < j < |r| ensures key(r[i]) <= key(r[j]) {
      assert r[j] == t[j - 1];
      if i > 0 {
        assert r[i] == t[i - 1];
      }
    }
  }

  lemma AscendingUncons<T>(s: seq<T>, key: T -> int)
    requires Ascending(s, key) && |s| > 0
    ensures Ascending(s[1..], key) && KeysAtLeast(s[1..], key, key(s[0]))
  {
    var tail := s[1..];
    forall i, j | 0 <= i < j < |tail| ensures key(tail[i]) <= key(tail[j]) {
      assert tail[i] == s[i + 1] && tail[j] == s[j + 1];
    }
    forall k | 0 <= k < |tail| ensures key(s[0]) <= key(tail[k]) {
      assert tail[k] == s[k + 1];
    }
  }

  /** Places `x` into an ascending sequence, before the first larger-or-equal key. */
  function Insert<T>(x: T, s: seq<T>, key: T -> int): (r: seq<T>)
    requires Ascending(s, key)
    ensures Ascending(r, key)
    ensures multiset(r) == multiset(s) + multiset{x}
  {
    if |s| == 0 then [x]
    else if key(x) <= key(s[0]) then
      AscendingUncons(s, key);
      AscendingCons(x, s, key);
      [x] + s
    else
      var tail := s[1..];
      AscendingUncons(s, key);
      assert s == [s[0]] + tail;
      var rest := Insert(x, tail, key);
      assert multiset(rest) == multiset(tail + [x]);
      assert KeysAtLeast(tail + [x], key, key(s[0]));
      KeysAtLeastOfSameElements(rest, tail + [x], key, key(s[0]));
      AscendingCons(s[0], rest, key);
      [s[0]] + rest
  }

  /**
   * `sort_unstable_by_key`: an ascending ordering of `s` on `key`. The
   * source's sort is unstable, so the contract says nothing about the
   * order of posts with equal keys.
   */
  function SortByKey<T>(s: seq<T>, key: T -> int): (r: seq<T>)
    ensures Ascending(r, key)
    ensures multiset(r) == multiset(s)
  {
    if |s| == 0 then []
    else
      assert s == [s[0]] + s[1..];
      Insert(s[0], SortByKey(s[1..], key), key)
  }

  /** `Iterator::rev`: the same elements, last first. */
  function Reverse<T>(s: seq<T>): (r: seq<T>)
    ensures |r| == |s|
    ensures forall i :: 0 <= i < |s| ==> r[i] == s[|s| - 1 - i]
  {
    if |s| == 0 then [] else Reverse(s[1..]) + [s[0]]
  }

  /** Reversal keeps the elements and turns an ascending order into a non-increasing one. */
  lemma ReverseOfAscending<T>(s: seq<T>, key: T -> int)
    requires Ascending(s, key)
    ensures NonIncreasing(Reverse(s), key)
    ensures multiset(Reverse(s)) == multiset(s)
  {
    var r := Reverse(s);
    forall i, j | 0 <= i < j < |r| ensures key(r[i]) >= key(r[j]) {
      assert r[i] == s[|s| - 1 - i] && r[j] == s[|s| - 1 - j];
    }
    ReverseSameElements(s);
  }

  lemma {:induction false} ReverseSameElements<T>(s: seq<T>)
    ensures multiset(Reverse(s)) == multiset(s)
  {
    if |s| > 0 {
      ReverseSameElements(s[1..]);
      assert s == [s[0]] + s[1..];
    }
  }

  // ---------------------------------------------------------------------
  // The whole pipeline.
  // ---------------------------------------------------------------------

  /**
   * Filter, sort ascending on `key`, reverse: the order in which the
   * source prints the posts. The result holds exactly the unedited posts,
   * best first.
   */
  function Rank(ms: seq<Message>, key: Message -> int): (r: seq<Message>)
    ensures multiset(r) == multiset(Unedited(ms))
    ensures NonIncreasing(r, key)
    ensures forall i :: 0 <= i < |r| ==> !r[i].IsEdited()
    ensures forall i, j :: 0 <= i < |r| && 0 <= j < |r| && key(r[i]) > key(r[j]) ==> i < j
  {
    var kept := Unedited(ms);
    var sorted := SortByKey(kept, key);
    var r := Reverse(sorted);
    ReverseOfAscending(sorted, key);
    RankedPostsAreUnedited(r, kept);
    LargerKeyListedFirst(r, key);
    r
  }

  /** In a non-increasing sequence an element with a larger key comes first. */
  lemma LargerKeyListedFirst<T>(r: seq<T>, key: T -> int)
    requires NonIncreasing(r, key)
    ensures forall i, j :: 0 <= i < |r| && 0 <= j < |r| && key(r[i]) > key(r[j]) ==> i < j
  {
  }

  lemma RankedPostsAreUnedited(r: seq<Message>, kept: seq<Message>)
    requires multiset(r) == multiset(kept)
    requires forall i :: 0 <= i < |kept| ==> !kept[i].IsEdited()
    ensures forall i :: 0 <= i < |r| ==> !r[i].IsEdited()
  {
    forall i | 0 <= i < |r| ensures !r[i].IsEdited() {
      assert r[i] in multiset(kept);
    }
  }

  /** The `ByReactions` strategy: rank by the number of thumbs-up reactions. */
  function RankByReactions(ms: seq<Message>): (r: seq<Message>)
    ensures multiset(r) == multiset(Unedited(ms))
    ensures forall i, j :: 0 <= i < j < |r| ==> ReactionsCount(r[i]) >= ReactionsCount(r[j])
  {
    Rank(ms, m => ReactionsCount(m))
  }
}
