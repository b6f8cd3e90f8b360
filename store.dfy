/** The store's read-back query (consumer/main.go:94-97): every document of the
    collection, sorted ascending by `consumed_at`, at most `limit` of them. The
    store's engine is not modelled; `IsFindResult` says which answers it may
    give. Records that tie on `consumed_at` may come back in any order. */
module Store {
  import opened Records

  function Min(a: int, b: int): int
  {
    if a <= b then a else b
  }

  ghost predicate SortedByConsumedAt(ms: seq<ConsumerMessage>)
  {
    forall i, j :: 0 <= i < j < |ms| ==> ms[i].consumedAt <= ms[j].consumedAt
  }

  /** `res` is an answer the query may give on `store`: the `limit` (or all, if
      fewer) records with the smallest consumption times, taken from the store
      without duplication, in consumption order. */
  ghost predicate IsFindResult(store: seq<ConsumerMessage>, limit: nat, res: seq<ConsumerMessage>)
  {
    && |res| == Min(limit, |store|)
    && multiset(res) <= multiset(store)
    && SortedByConsumedAt(res)
    && forall x, y :: x in multiset(store) - multiset(res) && y in res ==> y.consumedAt <= x.consumedAt
  }

  /** Inserting one record into a sequence sorted by consumption time. */
  function Insert(x: ConsumerMessage, s: seq<ConsumerMessage>): (r: seq<ConsumerMessage>)
    ensures |r| == |s| + 1
    ensures multiset(r) == multiset(s) + multiset{x}
    ensures forall y :: y in r ==> y == x || y in s
  {
    if s == [] then [x]
    else if x.consumedAt <= s[0].consumedAt then [x] + s
    else
      assert s == [s[0]] + s[1..];
      [s[0]] + Insert(x, s[1..])
  }

  lemma {:induction false} InsertSorted(x: ConsumerMessage, s: seq<ConsumerMessage>)
    requires SortedByConsumedAt(s)
    ensures SortedByConsumedAt(Insert(x, s))
  {
    if s != [] && x.consumedAt > s[0].consumedAt {
      var t := Insert(x, s[1..]);
      InsertSorted(x, s[1..]);
      forall j | 0 <= j < |t|
        ensures s[0].consumedAt <= t[j].consumedAt
      {
        assert t[j] in t;
        if t[j] != x {
          var i :| 0 <= i < |s[1..]| && s[1..][i] == t[j];
          assert s[i + 1] == t[j];
        }
      }
    }
  }

  /** A reference sort by consumption time. */
  function SortByConsumedAt(s: seq<ConsumerMessage>): (r: seq<ConsumerMessage>)
    ensures |r| == |s|
    ensures multiset(r) == multiset(s)
  {
    if s == [] then []
    else
      assert s == [s[0]] + s[1..];
      Insert(s[0], SortByConsumedAt(s[1..]))
  }

  lemma {:induction false} SortSorted(s: seq<ConsumerMessage>)
    ensures SortedByConsumedAt(SortByConsumedAt(s))
  {
    if s != [] {
      SortSorted(s[1..]);
      InsertSorted(s[0], SortByConsumedAt(s[1..]));
    }
  }

  /** In a sorted sequence everything after position `k` is consumed no earlier
      than everything before it. */
  lemma SplitOrdered(sorted: seq<ConsumerMessage>, k: nat)
    requires k <= |sorted| && SortedByConsumedAt(sorted)
    ensures forall x, y :: x in sorted[k..] && y in sorted[..k] ==> y.consumedAt <= x.consumedAt
  {
  }

  lemma SplitMultiset(sorted: seq<ConsumerMessage>, k: nat)
    requires k <= |sorted|
    ensures multiset(sorted[..k]) <= multiset(sorted)
    ensures multiset(sorted) - multiset(sorted[..k]) == multiset(sorted[k..])
  {
    assert sorted == sorted[..k] + sorted[k..];
  }

  /** Whatever the store holds, the query has an answer: the prefix of a sort. */
  lemma FindResultExists(store: seq<ConsumerMessage>, limit: nat)
    ensures IsFindResult(store, limit, SortByConsumedAt(store)[..Min(limit, |store|)])
  {
    var sorted := SortByConsumedAt(store);
    SortSorted(store);
    var k := Min(limit, |store|);
    var res := sorted[..k];
    SplitMultiset(sorted, k);
    SplitOrdered(sorted, k);
    assert SortedByConsumedAt(res) by {
      forall i, j | 0 <= i < j < k
        ensures res[i].consumedAt <= res[j].consumedAt
      {
        assert res[i] == sorted[i] && res[j] == sorted[j];
      }
    }
    assert |res| == Min(limit, |store|);
    assert multiset(res) <= multiset(store);
    forall x, y | x in multiset(store) - multiset(res) && y in res
      ensures y.consumedAt <= x.consumedAt
    {
      assert x in sorted[k..];
    }
  }

  ghost predicate StrictlyByConsumedAt(ms: seq<ConsumerMessage>)
  {
    forall i, j :: 0 <= i < j < |ms| ==> ms[i].consumedAt < ms[j].consumedAt
  }

  lemma SubMultisetSameSize(a: multiset<ConsumerMessage>, b: multiset<ConsumerMessage>)
    requires a <= b && |a| == |b|
    ensures a == b
  {
    var d := b - a;
    assert b == a + d;
    assert |b| == |a| + |d|;
    assert d == multiset{};
  }

  lemma HeadsAgree(a: seq<ConsumerMessage>, b: seq<ConsumerMessage>)
    requires a != [] && multiset(a) == multiset(b)
    requires SortedByConsumedAt(a) && StrictlyByConsumedAt(b)
    ensures b != [] && a[0] == b[0]
  {
    assert a[0] in multiset(b);
    var i :| 0 <= i < |b| && b[i] == a[0];
    assert b[0] in multiset(a);
    var j :| 0 <= j < |a| && a[j] == b[0];
    assert a[0].consumedAt <= a[j].consumedAt;
    assert i == 0;
  }

  lemma TailsAgree(a: seq<ConsumerMessage>, b: seq<ConsumerMessage>)
    requires a != [] && b != [] && a[0] == b[0] && multiset(a) == multiset(b)
    ensures multiset(a[1..]) == multiset(b[1..])
  {
    assert a == [a[0]] + a[1..] && b == [b[0]] + b[1..];
    assert multiset(a[1..]) == multiset(a) - multiset{a[0]};
    assert multiset(b[1..]) == multiset(b) - multiset{b[0]};
  }

  /** Two orderings by consumption time of the same records agree when no two
      of the records share a consumption time. */
  lemma {:induction false} SortedPermutationUnique(a: seq<ConsumerMessage>, b: seq<ConsumerMessage>)
    requires multiset(a) == multiset(b)
    requires SortedByConsumedAt(a) && StrictlyByConsumedAt(b)
    ensures a == b
    decreases |a|
  {
    assert |a| == |multiset(a)| == |multiset(b)| == |b|;
    if a != [] {
      HeadsAgree(a, b);
      TailsAgree(a, b);
      assert SortedByConsumedAt(a[1..]) && StrictlyByConsumedAt(b[1..]) by {
        assert forall i :: 0 <= i < |a| - 1 ==> a[1..][i] == a[i + 1];
        assert forall i :: 0 <= i < |b| - 1 ==> b[1..][i] == b[i + 1];
      }
      SortedPermutationUnique(a[1..], b[1..]);
      assert a == [a[0]] + a[1..] && b == [b[0]] + b[1..];
    }
  }

  /** In a store strictly ordered by consumption time no record occurs twice. */
  lemma {:induction false} StrictCountsOne(s: seq<ConsumerMessage>)
    requires StrictlyByConsumedAt(s)
    ensures forall x :: multiset(s)[x] <= 1
    decreases |s|
  {
    if s != [] {
      var t := s[1..];
      assert StrictlyByConsumedAt(t) by {
        assert forall i :: 0 <= i < |t| ==> t[i] == s[i + 1];
      }
      StrictCountsOne(t);
      assert s == [s[0]] + t;
      assert s[0] !in t by {
        assert forall i :: 0 <= i < |t| ==> t[i] == s[i + 1];
      }
    }
  }

  lemma SubMultisetCard(a: multiset<ConsumerMessage>, b: multiset<ConsumerMessage>)
    requires a <= b
    ensures |a| <= |b|
  {
    var d := b - a;
    assert b == a + d;
  }

  /** In a strictly ordered store, records that all come before the `j`-th one
      in consumption time number at most `j`. */
  lemma EarlierThanAtMost(store: seq<ConsumerMessage>, res: seq<ConsumerMessage>, j: nat)
    requires StrictlyByConsumedAt(store) && j < |store|
    requires multiset(res) <= multiset(store)
    requires forall y :: y in res ==> y.consumedAt < store[j].consumedAt
    ensures |res| <= j
  {
    assert store == store[..j] + store[j..];
    forall y
      ensures multiset(res)[y] <= multiset(store[..j])[y]
    {
      if y in res {
        assert y !in store[j..] by {
          forall m | j <= m < |store|
            ensures store[m] != y
          {
            assert store[j].consumedAt <= store[m].consumedAt;
          }
        }
      }
    }
    SubMultisetCard(multiset(res), multiset(store[..j]));
  }

  /** A query answer on a strictly ordered store holds each of the store's first
      `|res|` records. */
  lemma AnswerHoldsPrefix(store: seq<ConsumerMessage>, limit: nat, res: seq<ConsumerMessage>, j: nat)
    requires StrictlyByConsumedAt(store)
    requires IsFindResult(store, limit, res)
    requires j < |res|
    ensures store[j] in res
  {
    if store[j] !in multiset(res) {
      assert store[j] in multiset(store) - multiset(res);
      forall y | y in res
        ensures y.consumedAt < store[j].consumedAt
      {
        assert y in multiset(store);
        var i :| 0 <= i < |store| && store[i] == y;
        assert i != j;
      }
      EarlierThanAtMost(store, res, j);
    }
  }

  /** Every one of the store's first `|res|` records is in the answer. */
  lemma PrefixInAnswer(store: seq<ConsumerMessage>, limit: nat, res: seq<ConsumerMessage>)
    requires StrictlyByConsumedAt(store)
    requires IsFindResult(store, limit, res)
    ensures multiset(store[..|res|]) <= multiset(res)
  {
    var pre := store[..|res|];
    StrictCountsOne(store);
    assert store == pre + store[|res|..];
    forall x
      ensures multiset(pre)[x] <= multiset(res)[x]
    {
      if x in pre {
        var j :| 0 <= j < |res| && pre[j] == x;
        AnswerHoldsPrefix(store, limit, res, j);
      }
    }
  }

  /** When the store is strictly ordered by consumption time, as a consumer
      clock that always moves forward leaves it, the query has one answer only,
      whatever the limit: the store's first `Min(limit, |store|)` records. */
  lemma FindResultUnique(store: seq<ConsumerMessage>, limit: nat, res: seq<ConsumerMessage>)
    requires StrictlyByConsumedAt(store)
    requires IsFindResult(store, limit, res)
    ensures res == store[..Min(limit, |store|)]
  {
    var pre := store[..|res|];
    PrefixInAnswer(store, limit, res);
    SubMultisetSameSize(multiset(pre), multiset(res));
    assert StrictlyByConsumedAt(pre) by {
      assert forall i :: 0 <= i < |pre| ==> pre[i] == store[i];
    }
    SortedPermutationUnique(res, pre);
  }
}
