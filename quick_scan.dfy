/** `quickScanImages` as functions of the store and of the page's `<img>`
    elements: the fingerprint index, the per-candidate decision, the emitted
    entries and the final de-duplication by url. */
module QuickScan {
  import opened Js
  import opened Records
  import opened Fingerprint
  import opened Seqs

  /** The host every accepted image source must mention. */
  const ImageHost: string := "ibyteimg.com"

  /** A candidate must exceed this many pixels in width or height. */
  const MinSide: nat := 140

  /** An unmatched candidate must reach this many pixels in width or
      height. */
  const UnmatchedMinSide: nat := 400

  // ---------------------------------------------------------------------
  // The fingerprint index `highResMap`

  /** Fingerprint to full-resolution url. */
  type Index = map<string, string>

  /** `h` is the fingerprint of the record's url or of its thumbnail. */
  predicate HasFingerprint(r: ImageRecord, h: string)
  {
    HashOf(r.url) == Found(h) || GetHash(r.thumb) == Found(h)
  }

  /** One `forEach` step of the index build: both fingerprints of the
      record map to its url; `None` when `getHash(item.thumb)` throws. */
  function AddRecord(ix: Index, r: ImageRecord): (out: Option<Index>)
    ensures out.None? <==> GetHash(r.thumb).HashThrew?
    ensures out.Some? ==> forall h :: h in out.value <==> h in ix || HasFingerprint(r, h)
    ensures out.Some? ==> forall h :: h in out.value ==>
              out.value[h] == if HasFingerprint(r, h) then r.url else ix[h]
  {
    var h1 := HashOf(r.url);
    var m1 := if h1.Found? then ix[h1.h := r.url] else ix;
    match GetHash(r.thumb)
    case HashThrew => None
    case Found(h2) => Some(m1[h2 := r.url])
    case _ => Some(m1)
  }

  /** The index after the records of `store`, in store order. */
  function IndexAfter(store: seq<ImageRecord>): Option<Index>
  {
    if store == [] then Some(map[])
    else
      match IndexAfter(store[..|store| - 1])
      case None => None
      case Some(ix) => AddRecord(ix, store[|store| - 1])
  }

  /** Record `i` is the last record of `store` with fingerprint `h`. */
  predicate LastWriter(store: seq<ImageRecord>, h: string, i: int)
  {
    0 <= i < |store| && HasFingerprint(store[i], h) &&
    forall j :: i < j < |store| ==> !HasFingerprint(store[j], h)
  }

  /** The index build fails exactly when some record's thumbnail is a
      truthy non-string. */
  lemma {:induction false} IndexThrowsIff(store: seq<ImageRecord>)
    ensures IndexAfter(store).None? <==>
      exists i :: 0 <= i < |store| && Truthy(store[i].thumb) && !IsString(store[i].thumb)
  {
    if store != [] {
      var init := store[..|store| - 1];
      IndexThrowsIff(init);
      assert forall i :: 0 <= i < |init| ==> init[i] == store[i];
      SplitLast(store);
    }
  }

  /** The keys of the index are the fingerprints of the stored records, and
      each maps to the url of the last record carrying it. */
  lemma {:induction false} IndexContents(store: seq<ImageRecord>, ix: Index)
    requires IndexAfter(store) == Some(ix)
    ensures forall h :: h in ix <==> exists i :: 0 <= i < |store| && HasFingerprint(store[i], h)
    ensures forall h :: h in ix ==>
              exists i :: LastWriter(store, h, i) && ix[h] == store[i].url
  {
    if store != [] {
      var init := store[..|store| - 1];
      var prev := IndexAfter(init).value;
      IndexContents(init, prev);
      SplitLast(store);
      IndexStep(init, store[|store| - 1], prev, ix);
    }
  }

  lemma IndexStep(init: seq<ImageRecord>, r: ImageRecord, prev: Index, ix: Index)
    requires AddRecord(prev, r) == Some(ix)
    requires forall h :: h in prev <==> exists i :: 0 <= i < |init| && HasFingerprint(init[i], h)
    requires forall h :: h in prev ==> exists i :: LastWriter(init, h, i) && prev[h] == init[i].url
    ensures forall h :: h in ix <==> exists i :: 0 <= i < |init + [r]| && HasFingerprint((init + [r])[i], h)
    ensures forall h :: h in ix ==> exists i :: LastWriter(init + [r], h, i) && ix[h] == (init + [r])[i].url
  {
    var store := init + [r];
    assert forall i :: 0 <= i < |init| ==> store[i] == init[i];
    assert store[|init|] == r;
    forall h | h in ix
      ensures exists i :: LastWriter(store, h, i) && ix[h] == store[i].url
    {
      if HasFingerprint(r, h) {
        assert LastWriter(store, h, |init|);
      } else {
        var i :| LastWriter(init, h, i) && prev[h] == init[i].url;
        LastWriterExtend(init, r, h, i);
      }
    }
    forall h | exists i :: 0 <= i < |store| && HasFingerprint(store[i], h)
      ensures h in ix
    {
      var i :| 0 <= i < |store| && HasFingerprint(store[i], h);
      if i < |init| {
        assert HasFingerprint(init[i], h);
      }
    }
  }

  lemma LastWriterExtend(init: seq<ImageRecord>, r: ImageRecord, h: string, i: int)
    requires LastWriter(init, h, i) && !HasFingerprint(r, h)
    ensures LastWriter(init + [r], h, i) && (init + [r])[i] == init[i]
  {
    var store := init + [r];
    forall j | i < j < |store|
      ensures !HasFingerprint(store[j], h)
    {
      if j < |init| {
        assert store[j] == init[j];
      }
    }
  }

  // ---------------------------------------------------------------------
  // One `<img>` element

  /** The fields of an `<img>` the scan reads: `src` (empty when absent),
      `dataset.bgSrc`, the rendered and natural sizes, the `avatar` class
      and whether the element itself or an ancestor has the class
      `user-avatar`. */
  datatype Candidate = Candidate(
    src: string, bgSrc: Option<string>,
    width: nat, height: nat, naturalWidth: nat, naturalHeight: nat,
    hasAvatarClass: bool, inUserAvatar: bool)

  /** One pushed entry: the output url, the element's own source, its
      position among the page's images and whether it was matched. */
  datatype ScanEntry = ScanEntry(url: string, backup: string, domIndex: nat, isHighRes: bool)

  /** `img.src || img.dataset.bgSrc`, kept only when truthy. */
  function Source(c: Candidate): (r: Option<string>)
    ensures r.Some? ==> r.value != ""
    ensures c.src != "" ==> r == Some(c.src)
    ensures c.src == "" ==> r == if c.bgSrc.Some? && c.bgSrc.value != "" then c.bgSrc else None
  {
    if c.src != "" then Some(c.src)
    else if c.bgSrc.Some? && c.bgSrc.value != "" then c.bgSrc
    else None
  }

  /** `rendered || natural || 0`. */
  function Side(rendered: nat, natural: nat): nat
  {
    if rendered != 0 then rendered else natural
  }

  /** `domHash && highResMap[domHash]`: the source's fingerprint is indexed
      to a non-empty url. */
  predicate Matched(ix: Index, src: string)
  {
    HashOf(src).Found? && HashOf(src).h in ix && ix[HashOf(src).h] != ""
  }

  /** The body of the `forEach` callback for the element at `index`: the
      entry it pushes, if any. */
  function Decide(ix: Index, c: Candidate, index: nat): Option<ScanEntry>
  {
    match Source(c)
    case None => None
    case Some(src) =>
      if !Contains(src, ImageHost) then None
      else
        var w := Side(c.width, c.naturalWidth);
        var h := Side(c.height, c.naturalHeight);
        if !(w > MinSide || h > MinSide) then None
        else if c.hasAvatarClass || c.inUserAvatar then None
        else
          var matched := Matched(ix, src);
          if !matched && w < UnmatchedMinSide && h < UnmatchedMinSide then None
          else Some(ScanEntry(if matched then ix[HashOf(src).h] else src, src, index, matched))
  }

  /** The filters of the callback, all together: a candidate is pushed iff
      it has a source on the image host, exceeds 140 px on some side, is no
      avatar, and is matched or reaches 400 px on some side. */
  lemma DecideIff(ix: Index, c: Candidate, index: nat)
    ensures Decide(ix, c, index).Some? <==>
      && Source(c).Some?
      && Contains(Source(c).value, ImageHost)
      && (Side(c.width, c.naturalWidth) > MinSide || Side(c.height, c.naturalHeight) > MinSide)
      && !c.hasAvatarClass && !c.inUserAvatar
      && (Matched(ix, Source(c).value)
          || Side(c.width, c.naturalWidth) >= UnmatchedMinSide
          || Side(c.height, c.naturalHeight) >= UnmatchedMinSide)
  {
  }

  /** What a pushed entry carries: a matched source is replaced by its
      indexed url and flagged high-resolution, an unmatched one is kept;
      the element's source and position are recorded either way. */
  lemma DecideEntry(ix: Index, c: Candidate, index: nat)
    requires Decide(ix, c, index).Some?
    ensures var e := Decide(ix, c, index).value;
      && e.backup == Source(c).value
      && e.domIndex == index
      && e.isHighRes == Matched(ix, Source(c).value)
      && e.url == (if e.isHighRes then ix[HashOf(e.backup).h] else e.backup)
      && e.url != ""
  {
  }

  /** The callback's outcome for each element of `dom`, in page order. */
  function Decisions(ix: Index, dom: seq<Candidate>): (ds: seq<Option<ScanEntry>>)
    ensures |ds| == |dom|
    ensures forall i :: 0 <= i < |dom| ==> ds[i] == Decide(ix, dom[i], i)
  {
    seq(|dom|, i requires 0 <= i < |dom| => Decide(ix, dom[i], i))
  }

  /** The entries pushed, in order: the outcomes with the skipped elements
      left out. */
  function Pushed(ds: seq<Option<ScanEntry>>): seq<ScanEntry>
  {
    if ds == [] then []
    else
      Pushed(ds[..|ds| - 1]) +
      match ds[|ds| - 1]
      case Some(e) => [e]
      case None => []
  }

  /** Every outcome names the element it was decided for. */
  predicate Stamped(ds: seq<Option<ScanEntry>>)
  {
    forall i :: 0 <= i < |ds| && ds[i].Some? ==> ds[i].value.domIndex == i
  }

  lemma DecisionsStamped(ix: Index, dom: seq<Candidate>)
    ensures Stamped(Decisions(ix, dom))
  {
    forall i | 0 <= i < |dom| && Decide(ix, dom[i], i).Some?
      ensures Decide(ix, dom[i], i).value.domIndex == i
    {
      DecideEntry(ix, dom[i], i);
    }
  }

  /** Every pushed entry is the outcome for the element it names, the
      positions strictly increase, and every outcome is pushed. */
  lemma {:induction false} PushedEntries(ds: seq<Option<ScanEntry>>)
    requires Stamped(ds)
    ensures forall k :: 0 <= k < |Pushed(ds)| ==>
              Pushed(ds)[k].domIndex < |ds| && ds[Pushed(ds)[k].domIndex] == Some(Pushed(ds)[k])
    ensures forall p, q :: 0 <= p < q < |Pushed(ds)| ==> Pushed(ds)[p].domIndex < Pushed(ds)[q].domIndex
    ensures forall i :: 0 <= i < |ds| && ds[i].Some? ==> ds[i].value in Pushed(ds)
  {
    if ds != [] {
      var init := ds[..|ds| - 1];
      assert Stamped(init) by {
        assert forall i :: 0 <= i < |init| ==> init[i] == ds[i];
      }
      PushedEntries(init);
      var em := Pushed(init);
      assert forall i :: 0 <= i < |init| ==> init[i] == ds[i];
      if ds[|ds| - 1].Some? {
        var all := em + [ds[|ds| - 1].value];
        assert forall k :: 0 <= k < |em| ==> all[k] == em[k];
      }
    }
  }

  // ---------------------------------------------------------------------
  // `unique.set(i.url, i)` and `Array.from(unique.values())`

  function EntryUrls(es: seq<ScanEntry>): (r: set<string>)
    ensures forall i :: 0 <= i < |es| ==> es[i].url in r
    ensures forall u :: u in r ==> exists i :: 0 <= i < |es| && es[i].url == u
  {
    set i | 0 <= i < |es| :: es[i].url
  }

  predicate DistinctEntryUrls(es: seq<ScanEntry>)
  {
    forall i, j :: 0 <= i < j < |es| ==> es[i].url != es[j].url
  }

  /** The index of the first entry with url `u`, or `|es|`. */
  function EntryPosition(es: seq<ScanEntry>, u: string): (k: nat)
    ensures k <= |es|
    ensures k < |es| ==> es[k].url == u
    ensures forall i :: 0 <= i < k ==> es[i].url != u
    ensures k == |es| <==> u !in EntryUrls(es)
  {
    if es == [] then 0
    else if es[0].url == u then 0
    else
      var k := EntryPosition(es[1..], u);
      assert forall i :: 0 < i < |es| ==> es[i] == es[1..][i - 1];
      1 + k
  }

  lemma EntryUrlsSnoc(es: seq<ScanEntry>, e: ScanEntry)
    ensures EntryUrls(es + [e]) == EntryUrls(es) + {e.url}
  {
    var t := es + [e];
    assert forall i :: 0 <= i < |es| ==> t[i] == es[i];
    assert t[|es|] == e;
  }

  /** `unique.set(e.url, e)`: a known url keeps its position and takes the
      new value, a new one goes last. The urls already present keep their
      order, the key set gains `e.url`, and keys stay distinct. */
  function Place(d: seq<ScanEntry>, e: ScanEntry): (r: seq<ScanEntry>)
    ensures |r| == if e.url in EntryUrls(d) then |d| else |d| + 1
    ensures forall i :: 0 <= i < |d| ==> r[i] == if i == EntryPosition(d, e.url) then e else d[i]
    ensures e.url !in EntryUrls(d) ==> r[|d|] == e
    ensures forall i :: 0 <= i < |d| ==> r[i].url == d[i].url
    ensures EntryUrls(r) == EntryUrls(d) + {e.url}
    ensures DistinctEntryUrls(d) ==> DistinctEntryUrls(r)
  {
    var k := EntryPosition(d, e.url);
    if k < |d| then
      assert forall i :: 0 <= i < |d| ==> d[k := e][i].url == d[i].url;
      d[k := e]
    else
      EntryUrlsSnoc(d, e);
      d + [e]
  }

  /** The values of the `Map` after setting every entry of `es`, in
      order. */
  function Dedup(es: seq<ScanEntry>): seq<ScanEntry>
  {
    if es == [] then [] else Place(Dedup(es[..|es| - 1]), es[|es| - 1])
  }

  /** The result holds each url of the entries once. */
  lemma {:induction false} DedupUrls(es: seq<ScanEntry>)
    ensures EntryUrls(Dedup(es)) == EntryUrls(es)
    ensures DistinctEntryUrls(Dedup(es))
    ensures |Dedup(es)| <= |es|
  {
    if es != [] {
      var init := es[..|es| - 1];
      DedupUrls(init);
      SplitLast(es);
      EntryUrlsSnoc(init, es[|es| - 1]);
    }
  }

  /** The index of the last entry with url `u`, or -1. */
  function LastPosition(es: seq<ScanEntry>, u: string): (k: int)
    ensures -1 <= k < |es|
    ensures k >= 0 ==> es[k].url == u
    ensures forall j :: k < j < |es| ==> es[j].url != u
    ensures k == -1 <==> u !in EntryUrls(es)
  {
    if es == [] then -1
    else if es[|es| - 1].url == u then |es| - 1
    else LastPosition(es[..|es| - 1], u)
  }

  /** Every entry of `d` is the last entry of `es` with its url. */
  predicate AllLast(es: seq<ScanEntry>, d: seq<ScanEntry>)
  {
    forall k :: 0 <= k < |d| ==> 0 <= LastPosition(es, d[k].url) && es[LastPosition(es, d[k].url)] == d[k]
  }

  /** Each kept entry is the last entry with its url. */
  lemma {:induction false} DedupLastWins(es: seq<ScanEntry>)
    ensures AllLast(es, Dedup(es))
  {
    if es != [] {
      var init := es[..|es| - 1];
      DedupLastWins(init);
      DedupUrls(init);
      PlaceLastWins(init, Dedup(init), es[|es| - 1]);
      SplitLast(es);
    }
  }

  lemma PlaceLastWins(init: seq<ScanEntry>, d: seq<ScanEntry>, e: ScanEntry)
    requires DistinctEntryUrls(d)
    requires AllLast(init, d)
    ensures AllLast(init + [e], Place(d, e))
  {
    var es := init + [e];
    var r := Place(d, e);
    var pos := EntryPosition(d, e.url);
    forall k | 0 <= k < |r|
      ensures 0 <= LastPosition(es, r[k].url) && es[LastPosition(es, r[k].url)] == r[k]
    {
      if k == pos || k == |d| {
        assert r[k] == e;
        assert LastPosition(es, e.url) == |init|;
      } else {
        assert r[k] == d[k];
        assert d[k].url != e.url by {
          if pos < |d| {
            assert d[pos].url == e.url;
          }
        }
        LastPositionSnoc(init, e, d[k].url);
      }
    }
  }

  lemma LastPositionSnoc(init: seq<ScanEntry>, e: ScanEntry, u: string)
    requires e.url != u
    ensures LastPosition(init + [e], u) == LastPosition(init, u)
    ensures LastPosition(init, u) >= 0 ==> (init + [e])[LastPosition(init, u)] == init[LastPosition(init, u)]
  {
    assert (init + [e])[..|init|] == init;
  }

  /** The urls of a sequence of entries, in order. */
  function Keys(es: seq<ScanEntry>): (r: seq<string>)
    ensures |r| == |es| && forall i :: 0 <= i < |es| ==> r[i] == es[i].url
  {
    seq(|es|, i requires 0 <= i < |es| => es[i].url)
  }

  /** The distinct urls of `es` in the order of their first occurrence. */
  function FirstUrls(es: seq<ScanEntry>): seq<string>
  {
    if es == [] then []
    else
      var init := es[..|es| - 1];
      var u := es[|es| - 1].url;
      if u in EntryUrls(init) then FirstUrls(init) else FirstUrls(init) + [u]
  }

  /** The kept entries stand in the order in which their urls first
      occur. */
  lemma {:induction false} DedupOrder(es: seq<ScanEntry>)
    ensures Keys(Dedup(es)) == FirstUrls(es)
  {
    if es != [] {
      var init := es[..|es| - 1];
      DedupOrder(init);
      DedupUrls(init);
      PlaceKeys(Dedup(init), es[|es| - 1]);
    }
  }

  lemma PlaceKeys(d: seq<ScanEntry>, e: ScanEntry)
    ensures Keys(Place(d, e)) == if e.url in EntryUrls(d) then Keys(d) else Keys(d) + [e.url]
  {
    var r := Place(d, e);
    if e.url in EntryUrls(d) {
      assert forall i :: 0 <= i < |d| ==> r[i].url == d[i].url;
    } else {
      assert forall i :: 0 <= i < |d| ==> r[i] == d[i];
      assert Keys(r) == Keys(d) + [e.url];
    }
  }

  /** Later entries never move the urls already seen: the first-occurrence
      order of a prefix is a prefix of the whole one. */
  lemma {:induction false} FirstUrlsPrefix(es: seq<ScanEntry>, n: nat)
    requires n <= |es|
    ensures FirstUrls(es[..n]) <= FirstUrls(es)
    decreases |es|
  {
    if n == |es| {
      TakeAll(es);
    } else {
      var init := es[..|es| - 1];
      assert init[..n] == es[..n];
      FirstUrlsPrefix(init, n);
    }
  }

  // ---------------------------------------------------------------------
  // The whole scan

  /** `quickScanImages()` on the store and the page's images: `None` when
      building the index throws (the returned promise rejects). */
  function QuickScanResult(store: seq<ImageRecord>, dom: seq<Candidate>): Option<seq<ScanEntry>>
  {
    match IndexAfter(store)
    case None => None
    case Some(ix) => Some(Dedup(Pushed(Decisions(ix, dom))))
  }

  /** The de-duplicated pushed entries: one per url, each the outcome for
      some element, with no later element pushing the same url; and every
      pushed url kept. */
  lemma DedupPushed(ds: seq<Option<ScanEntry>>)
    requires Stamped(ds)
    ensures DistinctEntryUrls(Dedup(Pushed(ds)))
    ensures forall k :: 0 <= k < |Dedup(Pushed(ds))| ==>
              var e := Dedup(Pushed(ds))[k];
              && e.domIndex < |ds|
              && ds[e.domIndex] == Some(e)
              && forall j :: e.domIndex < j < |ds| && ds[j].Some? ==> ds[j].value.url != e.url
    ensures forall i :: 0 <= i < |ds| && ds[i].Some? ==> ds[i].value.url in EntryUrls(Dedup(Pushed(ds)))
  {
    var em := Pushed(ds);
    PushedEntries(ds);
    DedupUrls(em);
    DedupLastWins(em);
    DedupKeepsLast(ds, em, Dedup(em));
  }

  lemma DedupKeepsLast(ds: seq<Option<ScanEntry>>, em: seq<ScanEntry>, res: seq<ScanEntry>)
    requires Stamped(ds)
    requires forall k :: 0 <= k < |em| ==> em[k].domIndex < |ds| && ds[em[k].domIndex] == Some(em[k])
    requires forall p, q :: 0 <= p < q < |em| ==> em[p].domIndex < em[q].domIndex
    requires forall i :: 0 <= i < |ds| && ds[i].Some? ==> ds[i].value in em
    requires AllLast(em, res)
    ensures forall k :: 0 <= k < |res| ==>
              var e := res[k];
              && e.domIndex < |ds|
              && ds[e.domIndex] == Some(e)
              && forall j :: e.domIndex < j < |ds| && ds[j].Some? ==> ds[j].value.url != e.url
  {
    forall k | 0 <= k < |res|
      ensures res[k].domIndex < |ds| && ds[res[k].domIndex] == Some(res[k])
      ensures forall j :: res[k].domIndex < j < |ds| && ds[j].Some? ==> ds[j].value.url != res[k].url
    {
      var p := LastPosition(em, res[k].url);
      assert em[p] == res[k];
      forall j | res[k].domIndex < j < |ds| && ds[j].Some?
        ensures ds[j].value.url != res[k].url
      {
        NoLaterSameUrl(ds, em, p, j);
      }
    }
  }

  lemma NoLaterSameUrl(ds: seq<Option<ScanEntry>>, em: seq<ScanEntry>, p: nat, j: nat)
    requires Stamped(ds)
    requires forall p, q :: 0 <= p < q < |em| ==> em[p].domIndex < em[q].domIndex
    requires forall i :: 0 <= i < |ds| && ds[i].Some? ==> ds[i].value in em
    requires p < |em| && em[p].domIndex < j < |ds| && ds[j].Some?
    requires forall q :: p < q < |em| ==> em[q].url != em[p].url
    ensures ds[j].value.url != em[p].url
  {
    var q :| 0 <= q < |em| && em[q] == ds[j].value;
    assert em[q].domIndex == j;
  }

  /** The scan's answer: one entry per url, each the decision for some
      element of the page, with no later element pushing the same url; and
      every url some element pushes is answered. */
  lemma QuickScanEntries(store: seq<ImageRecord>, dom: seq<Candidate>, res: seq<ScanEntry>)
    requires QuickScanResult(store, dom) == Some(res)
    ensures DistinctEntryUrls(res)
    ensures var ix := IndexAfter(store).value;
      forall k :: 0 <= k < |res| ==>
        && res[k].domIndex < |dom|
        && Decide(ix, dom[res[k].domIndex], res[k].domIndex) == Some(res[k])
        && forall j :: res[k].domIndex < j < |dom| && Decide(ix, dom[j], j).Some? ==>
             Decide(ix, dom[j], j).value.url != res[k].url
    ensures var ix := IndexAfter(store).value;
      forall i :: 0 <= i < |dom| && Decide(ix, dom[i], i).Some? ==> Decide(ix, dom[i], i).value.url in EntryUrls(res)
  {
    var ix := IndexAfter(store).value;
    DecisionsStamped(ix, dom);
    DedupPushed(Decisions(ix, dom));
  }
}
