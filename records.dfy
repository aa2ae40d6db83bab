/** The image records both stores hold and the envelope the page side posts
    to the isolated side. */
module Records {
  import opened Js

  /** An image record `{url, thumb}`; `url` is its identity key. The
      thumbnail hint is whatever value the extractor picked (a string in the
      expected payloads, `null` or `undefined` when there is none). */
  datatype ImageRecord = ImageRecord(url: string, thumb: Prop)

  /** The `type` tag of the page side's broadcast. */
  const InterceptorDataType: string := "CAPCUT_INTERCEPTOR_DATA"

  /** The payload of a window message: `data.type` and `data.images`
      (`None` when `data.images` is not an array). */
  datatype Envelope = Envelope(kind: string, images: Option<seq<ImageRecord>>)

  /** A window `message` event: whether its source is the window itself and
      its data (`None` when the data is absent or carries no envelope). */
  datatype WindowMessage = WindowMessage(fromSelf: bool, data: Option<Envelope>)

  /** The set of urls of a sequence of records. */
  function Urls(s: seq<ImageRecord>): set<string>
  {
    set i | 0 <= i < |s| :: s[i].url
  }

  /** No two records share a url. */
  predicate DistinctUrls(s: seq<ImageRecord>)
  {
    forall i, j :: 0 <= i < j < |s| ==> s[i].url != s[j].url
  }

  lemma UrlsAppend(s: seq<ImageRecord>, r: ImageRecord)
    ensures Urls(s + [r]) == Urls(s) + {r.url}
  {
    var t := s + [r];
    assert forall i :: 0 <= i < |s| ==> t[i] == s[i];
    assert t[|s|] == r;
  }

  /** The index of the first record of `s` with url `u`, or `|s|`. */
  function PositionOf(s: seq<ImageRecord>, u: string): (k: nat)
    ensures k <= |s|
    ensures k < |s| ==> s[k].url == u
    ensures forall i :: 0 <= i < k ==> s[i].url != u
    ensures k == |s| <==> u !in Urls(s)
  {
    if s == [] then 0
    else if s[0].url == u then 0
    else
      var k := PositionOf(s[1..], u);
      assert forall i :: 0 < i < |s| ==> s[i] == s[1..][i - 1];
      1 + k
  }

  /** Appending a record moves no url's first position. */
  lemma PositionOfSnoc(s: seq<ImageRecord>, r: ImageRecord, u: string)
    ensures PositionOf(s + [r], u) ==
      if u in Urls(s) then PositionOf(s, u) else if r.url == u then |s| else |s| + 1
  {
    var t := s + [r];
    var k := PositionOf(s, u);
    assert forall i :: 0 <= i < |s| ==> t[i] == s[i];
    if u in Urls(s) {
      assert t[k].url == u;
    } else if r.url == u {
      assert t[|s|].url == u;
    } else {
      UrlsAppend(s, r);
    }
  }

  /** Appending a record with a new url keeps the urls distinct. */
  lemma DistinctSnoc(s: seq<ImageRecord>, r: ImageRecord)
    requires DistinctUrls(s) && r.url !in Urls(s)
    ensures DistinctUrls(s + [r])
  {
    var t := s + [r];
    forall i, j | 0 <= i < j < |t|
      ensures t[i].url != t[j].url
    {
      if j == |s| {
        assert t[i] == s[i];
      } else {
        assert t[i] == s[i] && t[j] == s[j];
      }
    }
  }
}
