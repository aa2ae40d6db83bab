/** The isolated side's state, `capturedHighRes`, with the two operations
    that use it: the window `message` listener that merges the page side's
    broadcasts into it, and `quickScanImages`, which builds the fingerprint
    index from it and scans the page's `<img>` elements. */
module Content {
  import opened Js
  import opened Records
  import opened Fingerprint
  import opened Merging
  import opened QuickScan
  import opened Seqs

  class CapturedStore {
    /** `capturedHighRes`: the records received, in arrival order. */
    var capturedHighRes: seq<ImageRecord>

    /** No url is stored twice. */
    ghost predicate Valid()
      reads this
    {
      DistinctUrls(capturedHighRes)
    }

    constructor ()
      ensures capturedHighRes == [] && Valid()
    {
      capturedHighRes := [];
    }

    /** The window `message` listener. A message is ignored unless it comes
        from the window itself, is typed as the interceptor's data and
        carries an `images` array; otherwise the batch is merged in order,
        `existingIds` tracking the urls already stored. */
    method OnMessage(e: WindowMessage)
      requires Valid()
      modifies this
      ensures Valid()
      ensures capturedHighRes ==
        if Accepts(e) then Merge(old(capturedHighRes), e.data.value.images.value) else old(capturedHighRes)
    {
      if !e.fromSelf {
        return;
      }
      if e.data.None? || e.data.value.kind != InterceptorDataType {
        return;
      }
      if e.data.value.images.None? {
        return;
      }
      var newImages := e.data.value.images.value;
      ghost var store0 := capturedHighRes;
      var existingIds := Urls(capturedHighRes);
      for i := 0 to |newImages|
        invariant capturedHighRes == Merge(store0, newImages[..i])
        invariant existingIds == Urls(capturedHighRes)
      {
        var img := newImages[i];
        MergeOneMore(store0, newImages, i);
        if img.url !in existingIds {
          UrlsAppend(capturedHighRes, img);
          capturedHighRes := capturedHighRes + [img];
          existingIds := existingIds + {img.url};
        }
      }
      TakeAll(newImages);
      MergeGrows(store0, newImages);
    }

    /** `quickScanImages()`: `None` when building the index throws. */
    method QuickScanImages(dom: seq<Candidate>) returns (result: Option<seq<ScanEntry>>)
      ensures result == QuickScanResult(capturedHighRes, dom)
    {
      var highResMap := BuildIndex(capturedHighRes);
      if highResMap.None? {
        return None;
      }
      var images := CollectImages(highResMap.value, dom);
      var unique := UniqueByUrl(images);
      result := Some(unique);
    }
  }

  /** The `capturedHighRes.forEach` that fills `highResMap`; `None` when
      `getHash(item.thumb)` throws. */
  method BuildIndex(store: seq<ImageRecord>) returns (index: Option<Index>)
    ensures index == IndexAfter(store)
  {
    var highResMap: Index := map[];
    for i := 0 to |store|
      invariant IndexAfter(store[..i]) == Some(highResMap)
    {
      var item := store[i];
      IndexOneMore(store, i);
      var h1 := HashOf(item.url);
      if h1.Found? {
        highResMap := highResMap[h1.h := item.url];
      }
      var h2 := GetHash(item.thumb);
      if h2.HashThrew? {
        IndexThrowsIff(store);
        assert Truthy(store[i].thumb) && !IsString(store[i].thumb);
        return None;
      }
      if h2.Found? {
        highResMap := highResMap[h2.h := item.url];
      }
    }
    TakeAll(store);
    index := Some(highResMap);
  }

  /** The `domImages.forEach` that pushes one entry per accepted element. */
  method CollectImages(highResMap: Index, dom: seq<Candidate>) returns (images: seq<ScanEntry>)
    ensures images == Pushed(Decisions(highResMap, dom))
  {
    ghost var ds := Decisions(highResMap, dom);
    images := [];
    for index := 0 to |dom|
      invariant images == Pushed(ds[..index])
    {
      var img := dom[index];
      PushedOneMore(ds, index);
      var src := if img.src != "" then img.src else if img.bgSrc.Some? then img.bgSrc.value else "";
      if src == "" || !Contains(src, ImageHost) {
        continue;
      }
      var width := if img.width != 0 then img.width else img.naturalWidth;
      var height := if img.height != 0 then img.height else img.naturalHeight;
      if !(width > MinSide || height > MinSide) {
        continue;
      }
      if img.hasAvatarClass || img.inUserAvatar {
        continue;
      }
      var domHash := HashOf(src);
      var finalUrl := src;
      var isHighRes := false;
      if domHash.Found? && domHash.h in highResMap && highResMap[domHash.h] != "" {
        finalUrl := highResMap[domHash.h];
        isHighRes := true;
      }
      if !isHighRes && width < UnmatchedMinSide && height < UnmatchedMinSide {
        continue;
      }
      images := images + [ScanEntry(finalUrl, src, index, isHighRes)];
    }
    TakeAll(ds);
  }

  /** `images.forEach(i => unique.set(i.url, i))` and
      `Array.from(unique.values())`: the `Map`'s values in insertion order,
      each key's position kept in `positions`. */
  method UniqueByUrl(images: seq<ScanEntry>) returns (unique: seq<ScanEntry>)
    ensures unique == Dedup(images)
  {
    unique := [];
    var positions: map<string, nat> := map[];
    for k := 0 to |images|
      invariant unique == Dedup(images[..k])
      invariant forall u :: u in positions <==> u in EntryUrls(unique)
      invariant forall u :: u in positions ==> positions[u] < |unique| && unique[positions[u]].url == u
      invariant DistinctEntryUrls(unique)
    {
      var e := images[k];
      DedupOneMore(images, k);
      PlacePositions(unique, e, positions);
      if e.url in positions {
        unique := unique[positions[e.url] := e];
      } else {
        positions := positions[e.url := |unique|];
        unique := unique + [e];
      }
    }
    TakeAll(images);
  }

  lemma MergeOneMore(store: seq<ImageRecord>, batch: seq<ImageRecord>, i: nat)
    requires i < |batch|
    ensures var m := Merge(store, batch[..i]);
      Merge(store, batch[..i + 1]) == if batch[i].url in Urls(m) then m else m + [batch[i]]
  {
    var b := batch[..i + 1];
    assert b[..|b| - 1] == batch[..i];
    assert b[|b| - 1] == batch[i];
  }

  lemma IndexOneMore(store: seq<ImageRecord>, i: nat)
    requires i < |store|
    ensures IndexAfter(store[..i + 1]) ==
      match IndexAfter(store[..i])
      case None => None
      case Some(ix) => AddRecord(ix, store[i])
  {
    var s := store[..i + 1];
    assert s[..|s| - 1] == store[..i];
    assert s[|s| - 1] == store[i];
  }

  lemma PushedOneMore(ds: seq<Option<ScanEntry>>, i: nat)
    requires i < |ds|
    ensures Pushed(ds[..i + 1]) == Pushed(ds[..i]) + match ds[i] case Some(e) => [e] case None => []
  {
    var s := ds[..i + 1];
    assert s[..|s| - 1] == ds[..i];
    assert s[|s| - 1] == ds[i];
  }

  lemma DedupOneMore(es: seq<ScanEntry>, i: nat)
    requires i < |es|
    ensures Dedup(es[..i + 1]) == Place(Dedup(es[..i]), es[i])
  {
    var s := es[..i + 1];
    assert s[..|s| - 1] == es[..i];
    assert s[|s| - 1] == es[i];
  }

  /** The positions map follows `unique.set(e.url, e)`: a known key is
      overwritten in place, a new one is appended at the next position. */
  lemma PlacePositions(d: seq<ScanEntry>, e: ScanEntry, pos: map<string, nat>)
    requires DistinctEntryUrls(d)
    requires forall u :: u in pos <==> u in EntryUrls(d)
    requires forall u :: u in pos ==> pos[u] < |d| && d[pos[u]].url == u
    ensures e.url in pos ==> pos[e.url] < |d| && Place(d, e) == d[pos[e.url] := e]
    ensures e.url !in pos ==> Place(d, e) == d + [e]
    ensures var pos' := if e.url in pos then pos else pos[e.url := |d|];
      && (forall u :: u in pos' <==> u in EntryUrls(Place(d, e)))
      && (forall u :: u in pos' ==> pos'[u] < |Place(d, e)| && Place(d, e)[pos'[u]].url == u)
    ensures DistinctEntryUrls(Place(d, e))
  {
    if e.url in pos {
      PlaceKnown(d, e, pos);
    } else {
      PlaceNew(d, e, pos);
    }
  }

  lemma PlaceKnown(d: seq<ScanEntry>, e: ScanEntry, pos: map<string, nat>)
    requires DistinctEntryUrls(d)
    requires forall u :: u in pos <==> u in EntryUrls(d)
    requires forall u :: u in pos ==> pos[u] < |d| && d[pos[u]].url == u
    requires e.url in pos
    ensures pos[e.url] < |d| && Place(d, e) == d[pos[e.url] := e]
    ensures forall u :: u in pos <==> u in EntryUrls(Place(d, e))
    ensures forall u :: u in pos ==> pos[u] < |Place(d, e)| && Place(d, e)[pos[u]].url == u
  {
    var p := pos[e.url];
    var k := EntryPosition(d, e.url);
    assert d[p].url == e.url;
    assert k == p;
    var r := Place(d, e);
    assert r == d[p := e];
    assert forall i :: 0 <= i < |d| ==> r[i].url == d[i].url;
    assert EntryUrls(r) == EntryUrls(d) by {
      SameUrlsSamePositions(d, r);
    }
  }

  lemma PlaceNew(d: seq<ScanEntry>, e: ScanEntry, pos: map<string, nat>)
    requires forall u :: u in pos <==> u in EntryUrls(d)
    requires forall u :: u in pos ==> pos[u] < |d| && d[pos[u]].url == u
    requires e.url !in pos
    ensures Place(d, e) == d + [e]
    ensures var pos' := pos[e.url := |d|];
      && (forall u :: u in pos' <==> u in EntryUrls(Place(d, e)))
      && (forall u :: u in pos' ==> pos'[u] < |Place(d, e)| && Place(d, e)[pos'[u]].url == u)
  {
    var r := Place(d, e);
    assert forall i :: 0 <= i < |d| ==> r[i] == d[i];
    assert r == d + [e];
    EntryUrlsSnoc(d, e);
  }

  /** Two entry sequences with the same url at every position have the same
      urls and the same first positions. */
  lemma {:induction false} SameUrlsSamePositions(a: seq<ScanEntry>, b: seq<ScanEntry>)
    requires |a| == |b| && forall i :: 0 <= i < |a| ==> a[i].url == b[i].url
    ensures EntryUrls(a) == EntryUrls(b)
    ensures forall u :: EntryPosition(a, u) == EntryPosition(b, u)
    decreases |a|
  {
    if a != [] {
      SameUrlsSamePositions(a[1..], b[1..]);
    }
  }
}
