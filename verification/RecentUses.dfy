/** Lists of recently used chunks: what the order list of the reader's cache holds. */
module RecentUses {
  import opened Common

  const MAX_CACHE_CHUNKS: nat := 256

  /** The entries of a sequence other than `x`. */
  function Without(s: seq<nat>, x: nat): (r: seq<nat>)
    ensures x !in s ==> r == s
    ensures forall y :: y in r <==> y in s && y != x
  {
    if s == [] then []
    else if s[|s| - 1] == x then Without(s[..|s| - 1], x)
    else Without(s[..|s| - 1], x) + [s[|s| - 1]]
  }

  /** The entries of a history, each once, in the order of their last use. */
  function LastUses(history: seq<nat>): seq<nat> {
    if history == [] then []
    else Without(LastUses(history[..|history| - 1]), history[|history| - 1]) + [history[|history| - 1]]
  }

  function LastN(s: seq<nat>, n: nat): seq<nat> { if |s| <= n then s else s[|s| - n..] }

  /** The entries of the history that were used most recently, at most 256 of them. */
  function MostRecent(history: seq<nat>): seq<nat> { LastN(LastUses(history), MAX_CACHE_CHUNKS) }

  lemma {:induction false} WithoutAt(s: seq<nat>, x: nat, k: nat)
    requires NoDuplicates(s) && k < |s| && s[k] == x
    ensures Without(s, x) == s[..k] + s[k + 1..] && NoDuplicates(Without(s, x))
  {
    var n := |s| - 1;
    var front := s[..n];
    if k == n {
      assert x !in front;
    } else {
      assert s[n] != s[k];
      WithoutAt(front, x, k);
      assert front[..k] == s[..k] && front[k + 1..] + [s[n]] == s[k + 1..];
    }
  }

  lemma {:induction false} LastUsesDistinct(history: seq<nat>)
    ensures NoDuplicates(LastUses(history))
  {
    if history != [] {
      var before, x := LastUses(history[..|history| - 1]), history[|history| - 1];
      LastUsesDistinct(history[..|history| - 1]);
      if x in before {
        var k :| 0 <= k < |before| && before[k] == x;
        WithoutAt(before, x, k);
      }
    }
  }

  /** The last use of `x` in a history is its entry at `p`. */
  ghost predicate LastUseAt(history: seq<nat>, x: nat, p: nat) {
    p < |history| && history[p] == x && forall q :: p < q < |history| ==> history[q] != x
  }

  lemma {:induction false} LastUsePrefix(history: seq<nat>, x: nat, p: nat)
    requires LastUseAt(history, x, p) && x != history[|history| - 1]
    ensures LastUseAt(history[..|history| - 1], x, p)
  {
  }

  /** What stays keeps its order. */
  lemma {:induction false} WithoutInOrder(s: seq<nat>, x: nat, i: nat, j: nat) returns (i': nat, j': nat)
    requires i < j < |Without(s, x)|
    ensures i' < j' < |s| && s[i'] == Without(s, x)[i] && s[j'] == Without(s, x)[j]
  {
    if s[|s| - 1] != x && j == |Without(s, x)| - 1 {
      assert Without(s[..|s| - 1], x)[i] in Without(s[..|s| - 1], x);
      i' :| 0 <= i' < |s| - 1 && s[..|s| - 1][i'] == Without(s[..|s| - 1], x)[i];
      j' := |s| - 1;
    } else {
      i', j' := WithoutInOrder(s[..|s| - 1], x, i, j);
    }
  }

  /** The list of last uses has the entries of the history, ordered by where each was used last. */
  lemma {:induction false} LastUsesInOrder(history: seq<nat>, i: nat, j: nat, p: nat, q: nat)
    requires i < j < |LastUses(history)|
    requires LastUseAt(history, LastUses(history)[i], p) && LastUseAt(history, LastUses(history)[j], q)
    ensures p < q
  {
    var n := |history| - 1;
    var before, x := LastUses(history[..n]), history[n];
    LastUsesDistinct(history);
    var all := LastUses(history);
    assert all == Without(before, x) + [x] && all[i] != all[|all| - 1];
    LastUsePrefix(history, all[i], p);
    if j < |all| - 1 {
      assert all[j] != all[|all| - 1];
      LastUsePrefix(history, all[j], q);
      var i', j' := WithoutInOrder(before, x, i, j);
      LastUsesInOrder(history[..n], i', j', p, q);
    }
  }

  lemma {:induction false} LastUsesEntries(history: seq<nat>, x: nat)
    ensures x in LastUses(history) <==> x in history
  {
    if history != [] {
      var n := |history| - 1;
      LastUsesEntries(history[..n], x);
      assert history == history[..n] + [history[n]];
    }
  }

  /** Moving the entry at `k` to the end, seen through the last `n` entries. */
  lemma {:induction false} LastNMove(all: seq<nat>, x: nat, k: nat, n: nat)
    requires k < |all| && 0 < n
    ensures var order, moved := LastN(all, n), all[..k] + all[k + 1..] + [x];
            var skip := |all| - |order|;
            LastN(moved, n) == if k < skip then order[1..] + [x] else order[..k - skip] + order[k - skip + 1..] + [x]
  {
    var order, moved := LastN(all, n), all[..k] + all[k + 1..] + [x];
    var skip := |all| - |order|;
    assert order == all[skip..] && |moved| == |all|;
    assert LastN(moved, n) == moved[skip..];
  }

  lemma {:induction false} LastNPush(all: seq<nat>, x: nat, n: nat)
    requires 0 < n
    ensures var order := LastN(all, n);
            LastN(all + [x], n) == (if |order| < n then order else order[1..]) + [x]
  {
  }

  lemma {:induction false} LastNDistinct(all: seq<nat>, n: nat)
    requires NoDuplicates(all)
    ensures NoDuplicates(LastN(all, n))
  {
  }

  /** What using `x` does to the list of recently used chunks. */
  lemma {:induction false} MostRecentNext(history: seq<nat>, x: nat)
    ensures var order := MostRecent(history);
            && NoDuplicates(order) && |order| <= 256
            && MostRecent(history + [x]) ==
               (if x in order then Without(order, x)
                else if |order| < 256 then order else order[1..]) + [x]
  {
    var all, order := LastUses(history), MostRecent(history);
    LastUsesDistinct(history);
    LastNDistinct(all, MAX_CACHE_CHUNKS);
    assert (history + [x])[..|history|] == history;
    if x in all {
      var k :| 0 <= k < |all| && all[k] == x;
      MovedInOrder(all, x, k);
    } else {
      LastNPush(all, x, MAX_CACHE_CHUNKS);
      assert x !in order;
    }
  }

  lemma {:induction false} MovedInOrder(all: seq<nat>, x: nat, k: nat)
    requires NoDuplicates(all) && k < |all| && all[k] == x
    ensures var order := LastN(all, MAX_CACHE_CHUNKS);
            LastN(Without(all, x) + [x], MAX_CACHE_CHUNKS) ==
              (if x in order then Without(order, x) else if |order| < MAX_CACHE_CHUNKS then order else order[1..]) + [x]
  {
    var order := LastN(all, MAX_CACHE_CHUNKS);
    var skip := |all| - |order|;
    LastNDistinct(all, MAX_CACHE_CHUNKS);
    WithoutAt(all, x, k);
    LastNMove(all, x, k, MAX_CACHE_CHUNKS);
    if skip <= k {
      assert order[k - skip] == x;
      WithoutAt(order, x, k - skip);
    } else {
      assert x !in order;
    }
  }

  method IndexOf(s: seq<nat>, x: nat) returns (k: nat)
    requires x in s
    ensures k < |s| && s[k] == x
  {
    k := 0;
    while s[k] != x
      invariant k < |s| && x in s[k..]
      decreases |s| - k
    {
      k := k + 1;
    }
  }

  /** The list after using a chunk that is in it. */
  lemma {:induction false} OrderRefreshed(history: seq<nat>, idx: nat, k: nat)
    requires k < |MostRecent(history)| && MostRecent(history)[k] == idx
    ensures var order := MostRecent(history);
            var next := order[..k] + order[k + 1..] + [idx];
            && next == MostRecent(history + [idx])
            && NoDuplicates(next) && |next| == |order| && SameEntries(next, order)
  {
    var order := MostRecent(history);
    MostRecentNext(history, idx);
    MostRecentNext(history + [idx], idx);
    WithoutAt(order, idx, k);
    forall i
      ensures i in Without(order, idx) + [idx] <==> i in order
    {
    }
  }

  ghost predicate SameEntries(a: seq<nat>, b: seq<nat>) { forall i :: i in a <==> i in b }

  lemma {:induction false} MostRecentDistinct(history: seq<nat>)
    ensures NoDuplicates(MostRecent(history)) && |MostRecent(history)| <= MAX_CACHE_CHUNKS
  {
    LastUsesDistinct(history);
    LastNDistinct(LastUses(history), MAX_CACHE_CHUNKS);
  }

  lemma {:induction false} WithoutFirst(order: seq<nat>)
    requires order != [] && NoDuplicates(order)
    ensures forall i :: i in order[1..] <==> i in order && i != order[0]
  {
    assert order == [order[0]] + order[1..];
  }

  /** The list after using a chunk that is not in it. */
  lemma {:induction false} OrderExtended(history: seq<nat>, idx: nat)
    requires idx !in MostRecent(history)
    ensures var order := MostRecent(history);
            var kept := if |order| < MAX_CACHE_CHUNKS then order else order[1..];
            && kept + [idx] == MostRecent(history + [idx]) && NoDuplicates(kept + [idx]) && |order| <= MAX_CACHE_CHUNKS
            && (|order| == MAX_CACHE_CHUNKS ==> forall i :: i in kept <==> i in order && i != order[0])
  {
    var order := MostRecent(history);
    MostRecentNext(history, idx);
    MostRecentDistinct(history + [idx]);
    if |order| == MAX_CACHE_CHUNKS {
      WithoutFirst(order);
    }
  }

  lemma {:induction false} Evicted<T>(cache: map<nat, T>, order: seq<nat>)
    requires order != [] && NoDuplicates(order) && |order| == |cache| && forall i :: i in order <==> i in cache
    ensures |cache - {order[0]}| == |order[1..]| && forall i :: i in order[1..] <==> i in cache - {order[0]}
  {
    assert (cache - {order[0]}).Keys == cache.Keys - {order[0]};
    assert order == [order[0]] + order[1..];
  }

  /** The order list holds the most recent uses, and the cache exactly these. */
  ghost predicate UpToDate<T>(order: seq<nat>, history: seq<nat>, cache: map<nat, T>) {
    && order == MostRecent(history) && NoDuplicates(order) && |order| == |cache| <= MAX_CACHE_CHUNKS
    && forall i :: i in order <==> i in cache
  }

  lemma {:induction false} CurrentRefreshed<T>(order: seq<nat>, history: seq<nat>, cache: map<nat, T>, idx: nat, k: nat,
                                               next: seq<nat>)
    requires UpToDate(order, history, cache) && k < |order| && order[k] == idx
    requires next == order[..k] + order[k + 1..] + [idx]
    ensures UpToDate(next, history + [idx], cache)
  {
    OrderRefreshed(history, idx, k);
  }

  lemma {:induction false} CurrentExtended<T>(order: seq<nat>, history: seq<nat>, cache: map<nat, T>, idx: nat, data: T)
    requires UpToDate(order, history, cache) && idx !in cache
    ensures |cache| >= MAX_CACHE_CHUNKS ==>
      order != [] && UpToDate(order[1..] + [idx], history + [idx], (cache - {order[0]})[idx := data])
    ensures |cache| < MAX_CACHE_CHUNKS ==> UpToDate(order + [idx], history + [idx], cache[idx := data])
  {
    OrderExtended(history, idx);
    if |cache| >= MAX_CACHE_CHUNKS {
      Evicted(cache, order);
      CurrentPushed(order[1..], cache - {order[0]}, history, idx, data);
    } else {
      CurrentPushed(order, cache, history, idx, data);
    }
  }

  lemma {:induction false} CurrentPushed<T>(kept: seq<nat>, cache: map<nat, T>, history: seq<nat>, idx: nat, data: T)
    requires |kept| == |cache| < MAX_CACHE_CHUNKS && idx !in cache && forall i :: i in kept <==> i in cache
    requires kept + [idx] == MostRecent(history + [idx]) && NoDuplicates(kept + [idx])
    ensures UpToDate(kept + [idx], history + [idx], cache[idx := data])
  {
    assert cache[idx := data].Keys == cache.Keys + {idx};
  }
}
