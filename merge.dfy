/** The isolated side's store, `capturedHighRes`, as the `message` listener
    grows it: a batch of records is merged in order, a record being appended
    only when no record with its url is stored yet. */
module Merging {
  import opened Js
  import opened Records
  import opened Seqs

  /** Whether a window message is taken: posted by the window itself, typed
      as the interceptor's data and carrying an `images` array. */
  predicate Accepts(e: WindowMessage)
  {
    e.fromSelf && e.data.Some? && e.data.value.kind == InterceptorDataType && e.data.value.images.Some?
  }

  /** The store after the listener has merged `batch` into `store`. */
  function Merge(store: seq<ImageRecord>, batch: seq<ImageRecord>): seq<ImageRecord>
    decreases |batch|
  {
    if batch == [] then store
    else
      var m := Merge(store, batch[..|batch| - 1]);
      var r := batch[|batch| - 1];
      if r.url in Urls(m) then m else m + [r]
  }

  /** The store only grows at its end, ends up holding exactly the urls of
      the store and of the batch, and never holds a url twice. */
  lemma {:induction false} MergeGrows(store: seq<ImageRecord>, batch: seq<ImageRecord>)
    ensures store <= Merge(store, batch)
    ensures Urls(Merge(store, batch)) == Urls(store) + Urls(batch)
    ensures DistinctUrls(store) ==> DistinctUrls(Merge(store, batch))
    decreases |batch|
  {
    if batch != [] {
      var init := batch[..|batch| - 1];
      MergeGrows(store, init);
      SplitLast(batch);
      MergeStep(store, Merge(store, init), init, batch[|batch| - 1]);
    }
  }

  lemma MergeStep(store: seq<ImageRecord>, m: seq<ImageRecord>, init: seq<ImageRecord>, r: ImageRecord)
    requires store <= m
    requires Urls(m) == Urls(store) + Urls(init)
    requires DistinctUrls(store) ==> DistinctUrls(m)
    ensures var next := if r.url in Urls(m) then m else m + [r];
      && store <= next
      && Urls(next) == Urls(store) + Urls(init + [r])
      && (DistinctUrls(store) ==> DistinctUrls(next))
  {
    var next := if r.url in Urls(m) then m else m + [r];
    UrlsAppend(init, r);
    if r.url !in Urls(m) {
      assert (m + [r])[..|store|] == m[..|store|];
      UrlsAppend(m, r);
      if DistinctUrls(m) {
        DistinctSnoc(m, r);
      }
    }
    UnionStep(Urls(store), Urls(m), Urls(init), Urls(init + [r]), Urls(next), r.url);
  }

  /** The set algebra of one merge step. */
  lemma UnionStep(s: set<string>, m: set<string>, i: set<string>, i': set<string>, n: set<string>, x: string)
    requires m == s + i && i' == i + {x}
    requires n == if x in m then m else m + {x}
    ensures n == s + i'
  {
  }

  /** A url new to the store is stored with the first record of the batch
      that carries it; later records with the same url are dropped. */
  lemma {:induction false} MergeKeepsFirst(store: seq<ImageRecord>, batch: seq<ImageRecord>, u: string)
    requires u in Urls(batch) && u !in Urls(store)
    ensures var m := Merge(store, batch); u in Urls(m) && m[PositionOf(m, u)] == batch[PositionOf(batch, u)]
    decreases |batch|
  {
    var init := batch[..|batch| - 1];
    var r := batch[|batch| - 1];
    var m := Merge(store, init);
    SplitLast(batch);
    PositionOfSnoc(init, r, u);
    MergeGrows(store, init);
    PositionOfSnoc(m, r, u);
    UrlsAppend(init, r);
    if u in Urls(init) {
      MergeKeepsFirst(store, init, u);
      if r.url !in Urls(m) {
        assert (m + [r])[PositionOf(m, u)] == m[PositionOf(m, u)];
        UrlsAppend(m, r);
      }
    } else {
      assert r.url == u && u !in Urls(m);
      UrlsAppend(m, r);
    }
  }

  /** A batch whose urls are all stored changes nothing. */
  lemma {:induction false} MergeKnown(store: seq<ImageRecord>, batch: seq<ImageRecord>)
    requires Urls(batch) <= Urls(store)
    ensures Merge(store, batch) == store
    decreases |batch|
  {
    if batch != [] {
      var init := batch[..|batch| - 1];
      SplitLast(batch);
      UrlsAppend(init, batch[|batch| - 1]);
      MergeKnown(store, init);
    }
  }

  /** Receiving the same batch twice is the same as receiving it once. */
  lemma MergeIdempotent(store: seq<ImageRecord>, batch: seq<ImageRecord>)
    ensures Merge(Merge(store, batch), batch) == Merge(store, batch)
  {
    MergeGrows(store, batch);
    MergeKnown(Merge(store, batch), batch);
  }

  /** Merging two batches one after the other is merging their
      concatenation. */
  lemma {:induction false} MergeConcat(store: seq<ImageRecord>, a: seq<ImageRecord>, b: seq<ImageRecord>)
    ensures Merge(store, a + b) == Merge(Merge(store, a), b)
    decreases |b|
  {
    if b == [] {
      assert a + b == a;
    } else {
      var init := b[..|b| - 1];
      assert (a + b)[..|a + b| - 1] == a + init;
      assert (a + b)[|a + b| - 1] == b[|b| - 1];
      MergeConcat(store, a, init);
    }
  }

  /** The page side broadcasts its whole store each time, and that store
      only grows at its end: merging an earlier snapshot and then a later
      one leaves what merging the later one alone leaves. */
  lemma MergeLaterSnapshot(store: seq<ImageRecord>, earlier: seq<ImageRecord>, later: seq<ImageRecord>)
    requires earlier <= later
    ensures Merge(Merge(store, earlier), later) == Merge(store, later)
  {
    var rest := later[|earlier|..];
    assert later == earlier + rest;
    MergeConcat(Merge(store, earlier), earlier, rest);
    MergeIdempotent(store, earlier);
    MergeConcat(store, earlier, rest);
  }

  /** An empty store takes a batch of distinct urls as it is. */
  lemma {:induction false} MergeIntoEmpty(batch: seq<ImageRecord>)
    requires DistinctUrls(batch)
    ensures Merge([], batch) == batch
    decreases |batch|
  {
    if batch != [] {
      var init := batch[..|batch| - 1];
      var r := batch[|batch| - 1];
      SplitLast(batch);
      DistinctPrefix(init, r);
      MergeIntoEmpty(init);
    }
  }

  lemma DistinctPrefix(init: seq<ImageRecord>, r: ImageRecord)
    requires DistinctUrls(init + [r])
    ensures DistinctUrls(init) && r.url !in Urls(init)
  {
    var t := init + [r];
    assert forall i :: 0 <= i < |init| ==> t[i] == init[i];
    forall i | 0 <= i < |init|
      ensures init[i].url != r.url
    {
      assert t[i].url != t[|init|].url;
    }
  }
}
