/** Which network calls the page hooks look at (`isTargetUrl`) and which
    completed responses they hand to the scan queue. */
module UrlFilter {
  import opened Js

  /** The keyword allowlist: a url must mention one of these. */
  const TargetKeywords: seq<string> :=
    ["list", "search", "feed", "query", "api", "item", "category",
     "recommend", "material", "get", "find"]

  /** Static-asset extensions that reject a url outright. */
  const IgnoredExtensions: seq<string> :=
    [".css", ".js", ".woff", ".ttf", ".ico", ".svg", ".mp4"]

  /** Logging and telemetry words that reject a url. */
  const DeniedWords: seq<string> := ["log", "pixel", "telemetry"]

  /** `words.some(w => s.includes(w))`. */
  predicate ContainsAny(s: string, words: seq<string>)
  {
    words != [] && (Contains(s, words[0]) || ContainsAny(s, words[1..]))
  }

  lemma {:induction false} ContainsAnyIff(s: string, words: seq<string>)
    ensures ContainsAny(s, words) <==> exists i :: 0 <= i < |words| && Contains(s, words[i])
  {
    if words != [] {
      ContainsAnyIff(s, words[1..]);
      assert forall i :: 0 < i < |words| ==> words[i] == words[1..][i - 1];
    }
  }

  /** The outcome of `isTargetUrl(url)`: rejected, admitted, or a
      TypeError. */
  datatype UrlVerdict = NotTarget | Target | FilterThrew

  /** The three stages on a url string: extension blacklist, then the
      purpose blacklist, then the keyword allowlist, all on the lower-cased
      url. */
  predicate TargetString(u: string)
  {
    var low := Lower(u);
    !ContainsAny(low, IgnoredExtensions)
    && !(Contains(low, "log") || Contains(low, "pixel") || Contains(low, "telemetry"))
    && ContainsAny(low, TargetKeywords)
  }

  /** `isTargetUrl(url)` on whatever value the page passed as the url. A
      falsy value (absent, empty) is never a target; a truthy non-string
      has no `toLowerCase`, so the call throws. */
  function IsTargetUrl(url: Prop): (r: UrlVerdict)
    ensures r.FilterThrew? <==> Truthy(url) && !IsString(url)
    ensures r.Target? <==> IsString(url) && url.value.s != "" && TargetString(url.value.s)
  {
    if !Truthy(url) then NotTarget
    else
      match url.value
      case JStr(u) => if TargetString(u) then Target else NotTarget
      case _ => FilterThrew
  }

  /** The corrected filter: a url that is not a string is no target, so the
      hooks can never throw into the page's own network calls. */
  function GuardedIsTargetUrl(url: Prop): (r: bool)
  {
    IsString(url) && url.value.s != "" && TargetString(url.value.s)
  }

  /** The corrected filter decides like the source's wherever the source's
      does not throw, and rejects every value on which the source's throws. */
  lemma GuardedAgrees(url: Prop)
    ensures !IsTargetUrl(url).FilterThrew? ==> (GuardedIsTargetUrl(url) <==> IsTargetUrl(url).Target?)
    ensures IsTargetUrl(url).FilterThrew? ==> !GuardedIsTargetUrl(url)
    ensures GuardedIsTargetUrl(url) ==> IsString(url)
  {
  }

  /** Whether the patched `send` (its `this._reqUrl && isTargetUrl(...)`
      test) or the patched `fetch` throws into the page's call, before the
      request is even made. */
  function HookThrows(url: Prop): (r: bool)
    ensures r <==> Truthy(url) && !IsString(url)
  {
    Truthy(url) && IsTargetUrl(url).FilterThrew?
  }

  /** The input that shows it: `fetch(new URL("https://x/api/list"))`, a
      truthy object without `toLowerCase`, makes the patched `fetch` throw,
      although the url names an api endpoint; the guarded filter only
      declines to look at the response. */
  lemma UrlObjectBreaksHook()
    ensures var url: Prop := Some(JObj([("href", JStr("https://x/api/list"))]));
      HookThrows(url) && !GuardedIsTargetUrl(url)
  {
  }

  /** The three stages, stated with quantifiers over the lists: a url is a
      target iff it is non-empty, its lower-cased form contains no ignored
      extension and no denied word, and it contains some keyword. */
  lemma TargetUrlIff(u: string)
    ensures IsTargetUrl(Some(JStr(u))).Target? <==>
      && u != ""
      && (forall i :: 0 <= i < |IgnoredExtensions| ==> !Contains(Lower(u), IgnoredExtensions[i]))
      && (forall i :: 0 <= i < |DeniedWords| ==> !Contains(Lower(u), DeniedWords[i]))
      && (exists i :: 0 <= i < |TargetKeywords| && Contains(Lower(u), TargetKeywords[i]))
  {
    ContainsAnyIff(Lower(u), IgnoredExtensions);
    ContainsAnyIff(Lower(u), TargetKeywords);
    assert DeniedWords[0] == "log" && DeniedWords[1] == "pixel" && DeniedWords[2] == "telemetry";
  }

  /** An ignored extension rejects the url even when it also holds a
      keyword. */
  lemma ExtensionBeatsKeyword(u: string, i: nat)
    requires i < |IgnoredExtensions| && Contains(Lower(u), IgnoredExtensions[i])
    ensures IsTargetUrl(Some(JStr(u))) == NotTarget
  {
    ContainsAnyIff(Lower(u), IgnoredExtensions);
  }

  /** Every `.json` url is rejected, because `.json` contains `.js`. */
  lemma JsonUrlRejected(u: string)
    requires Contains(Lower(u), ".json")
    ensures IsTargetUrl(Some(JStr(u))) == NotTarget
  {
    assert Contains(".json", ".js");
    ContainsTransitive(Lower(u), ".json", ".js");
    ExtensionBeatsKeyword(u, 1);
  }

  /** The filter ignores letter case. */
  lemma TargetUrlCaseInsensitive(u: string)
    ensures IsTargetUrl(Some(JStr(u))) == IsTargetUrl(Some(JStr(Lower(u))))
  {
    LowerIdempotent(u);
  }

  /** The `content-type` guard of both hooks: an absent (or empty) header
      passes; a present one must contain "json" (case-sensitively). */
  predicate ContentTypeAdmits(contentType: Option<string>)
  {
    contentType.None? || contentType.value == "" || Contains(contentType.value, "json")
  }

  /** The XHR `load` handler: for a request whose url is a target, the value
      it hands to `scheduleScan`, given the response's `content-type`, its
      text and the outcome of `JSON.parse(text)` (`None` when parsing
      throws, which the handler swallows). A request whose url makes the
      filter throw gets no listener: the throw happens in `send`
      (`HookThrows`). */
  function XhrLoadScan(reqUrl: Prop, contentType: Option<string>, text: string,
                       parsed: Option<JsonValue>): (r: Option<JsonValue>)
    ensures r.Some? <==>
      && IsTargetUrl(reqUrl).Target?
      && (contentType.None? || contentType.value == "" || exists i :: OccursAt(contentType.value, "json", i))
      && |text| > 0 && (text[0] == '{' || text[0] == '[')
      && parsed.Some?
    ensures r.Some? ==> r == parsed
  {
    var ct := if contentType.Some? then contentType.value else "";
    ContainsIff(ct, "json");
    if GuardedIsTargetUrl(reqUrl) && ContentTypeAdmits(contentType)
       && text != "" && (text[0] == '{' || text[0] == '[')
    then parsed
    else None
  }

  /** The fetch hook: for a target url, the value `response.clone().json()`
      hands to `scheduleScan` (`None` when parsing fails). The fetch hook has
      no check on the first character of the body. A url on which the
      filter throws makes the patched `fetch` itself throw (`HookThrows`). */
  function FetchLoadScan(url: Prop, contentType: Option<string>,
                         parsed: Option<JsonValue>): (r: Option<JsonValue>)
    ensures r.Some? <==>
      && IsTargetUrl(url).Target?
      && (contentType.None? || contentType.value == "" || exists i :: OccursAt(contentType.value, "json", i))
      && parsed.Some?
    ensures r.Some? ==> r == parsed
  {
    var ct := if contentType.Some? then contentType.value else "";
    ContainsIff(ct, "json");
    if GuardedIsTargetUrl(url) && ContentTypeAdmits(contentType) then parsed else None
  }
}
