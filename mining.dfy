/** Recursive mining of a parsed response body for image items, record
    extraction from an item, and the page-side store insertion rule. */
module Mining {
  import opened Js
  import opened Records
  import opened Seqs

  /** Nodes deeper than this are not looked at (the root is depth 0). */
  const MaxDepth: nat := 8

  /** Keys longer than this are not descended into. */
  const MaxKeyLength: nat := 25

  /** A field whose subtree the traversal never visits. */
  predicate Pruned(key: string)
  {
    |key| > MaxKeyLength || key == "common_attr" || key == "extra"
  }

  /** `obj.large_images && Array.isArray(obj.large_images)`. */
  predicate HasLargeImagesArray(v: JsonValue)
  {
    var large := Get(Some(v), "large_images");
    Truthy(large) && IsArray(large)
  }

  /** `obj.image && obj.image.large_images`. */
  predicate HasNestedLargeImages(v: JsonValue)
  {
    var image := Get(Some(v), "image");
    Truthy(image) && Truthy(Get(image, "large_images"))
  }

  /** A node the traversal hands to the item processor. */
  predicate IsItemNode(v: JsonValue)
  {
    HasLargeImagesArray(v) || HasNestedLargeImages(v)
  }

  /** The nodes `scanObjectForImages(v, depth)` passes to
      `processPotentialImageItem`, in call order. A node with a
      `large_images` array is an item and is not descended; a node with a
      truthy `image.large_images` is an item and is still descended; array
      elements and the values of unpruned fields are scanned one level
      deeper. */
  function Mine(v: JsonValue, depth: nat): (items: seq<JsonValue>)
    decreases v, 1, 0
  {
    if !IsContainer(v) || depth > MaxDepth then []
    else if HasLargeImagesArray(v) then [v]
    else
      (if HasNestedLargeImages(v) then [v] else []) +
      match v
      case JArr(elems) => MineElements(elems, depth + 1)
      case JObj(fields) => MineFields(v, |fields|, depth + 1)
      case _ => []
  }

  /** The items found under the elements of an array, in order. */
  function MineElements(elems: seq<JsonValue>, depth: nat): (items: seq<JsonValue>)
    decreases elems
  {
    if elems == [] then []
    else MineElements(elems[..|elems| - 1], depth) + Mine(elems[|elems| - 1], depth)
  }

  /** The items found under the first `n` fields of an object, skipping the
      pruned ones. */
  function MineFields(obj: JsonValue, n: nat, depth: nat): (items: seq<JsonValue>)
    requires obj.JObj? && n <= |obj.fields|
    decreases obj, 0, n
  {
    if n == 0 then []
    else
      var (key, value) := obj.fields[n - 1];
      MineFields(obj, n - 1, depth) + (if Pruned(key) then [] else Mine(value, depth))
  }

  /** The items found in a sequence of queued bodies, each scanned from the
      root. */
  function MineAll(values: seq<JsonValue>): (items: seq<JsonValue>)
  {
    if values == [] then []
    else MineAll(values[..|values| - 1]) + Mine(values[|values| - 1], 0)
  }

  lemma MineAllAppend(values: seq<JsonValue>, v: JsonValue)
    ensures MineAll(values + [v]) == MineAll(values) + Mine(v, 0)
  {
    assert (values + [v])[..|values|] == values;
  }

  /** Everything the walk hands to the item processor is an item node. */
  lemma {:induction false} MinedAreItemNodes(v: JsonValue, depth: nat)
    ensures forall u :: u in Mine(v, depth) ==> IsItemNode(u)
    decreases v, 1, 0
  {
    if IsContainer(v) && depth <= MaxDepth && !HasLargeImagesArray(v) {
      match v
      case JArr(elems) => ElementsMinedAreItemNodes(elems, depth + 1);
      case JObj(fields) => FieldsMinedAreItemNodes(v, |fields|, depth + 1);
    }
  }

  lemma {:induction false} ElementsMinedAreItemNodes(elems: seq<JsonValue>, depth: nat)
    ensures forall u :: u in MineElements(elems, depth) ==> IsItemNode(u)
    decreases elems
  {
    if elems != [] {
      ElementsMinedAreItemNodes(elems[..|elems| - 1], depth);
      MinedAreItemNodes(elems[|elems| - 1], depth);
    }
  }

  lemma {:induction false} FieldsMinedAreItemNodes(obj: JsonValue, n: nat, depth: nat)
    requires obj.JObj? && n <= |obj.fields|
    ensures forall u :: u in MineFields(obj, n, depth) ==> IsItemNode(u)
    decreases obj, 0, n
  {
    if n > 0 {
      FieldsMinedAreItemNodes(obj, n - 1, depth);
      var (key, value) := obj.fields[n - 1];
      assert obj.fields[n - 1] in obj.fields;
      if !Pruned(key) {
        MinedAreItemNodes(value, depth);
      }
    }
  }

  /** Null, scalars, and anything deeper than the cap contribute nothing. */
  lemma MineOutsideCap(v: JsonValue, depth: nat)
    requires !IsContainer(v) || depth > MaxDepth
    ensures Mine(v, depth) == []
  {
  }

  /** A node with a `large_images` array yields itself and nothing from
      below it. */
  lemma LargeImagesNotDescended(v: JsonValue, depth: nat)
    requires IsContainer(v) && depth <= MaxDepth && HasLargeImagesArray(v)
    ensures Mine(v, depth) == [v]
  {
  }

  /** `v` wrapped in `k` single-field objects `{"data": ...}`. */
  function Nest(v: JsonValue, k: nat): JsonValue
  {
    if k == 0 then v else JObj([("data", Nest(v, k - 1))])
  }

  /** The depth cap: an item nested `k` levels below a node scanned at
      `depth` is found exactly when `depth + k <= 8`. */
  lemma {:induction false} NestedItemFoundWithinCap(item: JsonValue, k: nat, depth: nat)
    requires item.JObj? && HasLargeImagesArray(item)
    ensures Mine(Nest(item, k), depth) == if depth + k <= MaxDepth then [item] else []
    decreases k
  {
    if k > 0 {
      if depth <= MaxDepth {
        NestedItemFoundWithinCap(item, k - 1, depth + 1);
        WrapperScan(Nest(item, k), Nest(item, k - 1), depth);
      } else {
        MineOutsideCap(Nest(item, k), depth);
      }
    }
  }

  /** A single-field wrapper `{"data": inner}` below the cap yields what
      `inner` yields one level deeper. */
  lemma WrapperScan(wrapper: JsonValue, inner: JsonValue, depth: nat)
    requires wrapper == JObj([("data", inner)]) && depth <= MaxDepth
    ensures Mine(wrapper, depth) == Mine(inner, depth + 1)
  {
    assert Get(Some(wrapper), "large_images") == None;
    assert Get(Some(wrapper), "image") == None;
    assert MineFields(wrapper, 0, depth + 1) == [];
    assert MineFields(wrapper, 1, depth + 1) == Mine(inner, depth + 1);
  }

  lemma LookupOtherKey(fields: seq<(string, JsonValue)>, i: nat, w: JsonValue, key: string)
    requires i < |fields| && fields[i].0 != key
    ensures Lookup(fields[i := (fields[i].0, w)], key) == Lookup(fields, key)
  {
    if i > 0 {
      LookupOtherKey(fields[1..], i - 1, w, key);
      assert fields[i := (fields[i].0, w)][1..] == fields[1..][i - 1 := (fields[i].0, w)];
    }
  }

  lemma {:induction false} MineFieldsIgnorePruned(fields: seq<(string, JsonValue)>, i: nat, w: JsonValue, n: nat, depth: nat)
    requires i < |fields| && Pruned(fields[i].0) && n <= |fields|
    ensures MineFields(JObj(fields[i := (fields[i].0, w)]), n, depth) == MineFields(JObj(fields), n, depth)
    decreases n
  {
    if n > 0 {
      var obj, obj' := JObj(fields), JObj(fields[i := (fields[i].0, w)]);
      MineFieldsIgnorePruned(fields, i, w, n - 1, depth);
      var last := if Pruned(obj.fields[n - 1].0) then [] else Mine(obj.fields[n - 1].1, depth);
      var last' := if Pruned(obj'.fields[n - 1].0) then [] else Mine(obj'.fields[n - 1].1, depth);
      assert MineFields(obj, n, depth) == MineFields(obj, n - 1, depth) + last;
      assert MineFields(obj', n, depth) == MineFields(obj', n - 1, depth) + last';
      if n - 1 != i {
        assert obj'.fields[n - 1] == obj.fields[n - 1];
      }
      assert last == last';
    }
  }

  /** Two objects that agree on every key the item checks and the extractor
      read. */
  predicate SameReads(a: JsonValue, b: JsonValue)
  {
    a.JObj? && b.JObj?
    && Lookup(a.fields, "large_images") == Lookup(b.fields, "large_images")
    && Lookup(a.fields, "image") == Lookup(b.fields, "image")
    && Lookup(a.fields, "image_url") == Lookup(b.fields, "image_url")
    && Lookup(a.fields, "cover") == Lookup(b.fields, "cover")
    && Lookup(a.fields, "uri") == Lookup(b.fields, "uri")
  }

  lemma SameReadsSameItem(a: JsonValue, b: JsonValue)
    requires SameReads(a, b)
    ensures HasLargeImagesArray(a) == HasLargeImagesArray(b)
    ensures HasNestedLargeImages(a) == HasNestedLargeImages(b)
    ensures Extract(a) == Extract(b)
  {
    SameReadsSameGets(a, b);
    SameGetsSameBest(a, b);
    SameGetsSameThumb(a, b);
  }

  /** The reads `a.key` agree on the keys the item check and the extractor
      use. */
  predicate SameGets(a: JsonValue, b: JsonValue)
  {
    && Get(Some(a), "large_images") == Get(Some(b), "large_images")
    && Get(Some(a), "image") == Get(Some(b), "image")
    && Get(Some(a), "image_url") == Get(Some(b), "image_url")
    && Get(Some(a), "cover") == Get(Some(b), "cover")
    && Get(Some(a), "uri") == Get(Some(b), "uri")
  }

  lemma SameReadsSameGets(a: JsonValue, b: JsonValue)
    requires SameReads(a, b)
    ensures SameGets(a, b)
  {
  }

  lemma SameGetsSameBest(a: JsonValue, b: JsonValue)
    requires SameGets(a, b)
    ensures BestUrl(a) == BestUrl(b)
  {
  }

  lemma SameGetsSameThumb(a: JsonValue, b: JsonValue)
    requires SameGets(a, b)
    ensures ThumbUrl(a) == ThumbUrl(b)
  {
  }

  lemma MineObjectUnfold(obj: JsonValue, depth: nat)
    requires obj.JObj? && depth <= MaxDepth && !HasLargeImagesArray(obj)
    ensures Mine(obj, depth) == (if HasNestedLargeImages(obj) then [obj] else []) + MineFields(obj, |obj.fields|, depth + 1)
  {
  }

  lemma StoreAfterOne(store: seq<ImageRecord>, a: JsonValue)
    ensures StoreAfterItems(store, [a]) == Insert(store, Extract(a))
  {
    assert [a][..0] == [];
  }

  lemma StoreAfterSameItem(store: seq<ImageRecord>, a: JsonValue, b: JsonValue, rest: seq<JsonValue>)
    requires Extract(a) == Extract(b)
    ensures StoreAfterItems(store, [a] + rest) == StoreAfterItems(store, [b] + rest)
  {
    StoreAfterConcat(store, [a], rest);
    StoreAfterConcat(store, [b], rest);
    assert [a][..0] == [b][..0];
  }

  lemma PrunedFieldSameReads(fields: seq<(string, JsonValue)>, i: nat, w: JsonValue, depth: nat)
    requires i < |fields| && Pruned(fields[i].0)
    ensures SameReads(JObj(fields), JObj(fields[i := (fields[i].0, w)]))
    ensures MineFields(JObj(fields[i := (fields[i].0, w)]), |fields|, depth) == MineFields(JObj(fields), |fields|, depth)
  {
    LookupOtherKey(fields, i, w, "large_images");
    LookupOtherKey(fields, i, w, "image");
    LookupOtherKey(fields, i, w, "image_url");
    LookupOtherKey(fields, i, w, "cover");
    LookupOtherKey(fields, i, w, "uri");
    MineFieldsIgnorePruned(fields, i, w, |fields|, depth);
  }

  lemma SameReadsSameScan(obj: JsonValue, obj': JsonValue, depth: nat, store: seq<ImageRecord>)
    requires SameReads(obj, obj') && |obj.fields| == |obj'.fields|
    requires MineFields(obj', |obj'.fields|, depth + 1) == MineFields(obj, |obj.fields|, depth + 1)
    ensures !IsItemNode(obj) ==> Mine(obj', depth) == Mine(obj, depth)
    ensures StoreAfterItems(store, Mine(obj', depth)) == StoreAfterItems(store, Mine(obj, depth))
  {
    SameReadsSameItem(obj, obj');
    if depth <= MaxDepth && !HasLargeImagesArray(obj) {
      MineObjectUnfold(obj, depth);
      MineObjectUnfold(obj', depth);
      if HasNestedLargeImages(obj) {
        StoreAfterSameItem(store, obj', obj, MineFields(obj, |obj.fields|, depth + 1));
      }
    } else if depth > MaxDepth {
      MineOutsideCap(obj, depth);
      MineOutsideCap(obj', depth);
    } else {
      LargeImagesNotDescended(obj, depth);
      LargeImagesNotDescended(obj', depth);
      StoreAfterOne(store, obj);
      StoreAfterOne(store, obj');
    }
  }

  /** Pruning: whatever a pruned field holds, the scan of the object finds
      the same items (up to the object itself, which may be one of them) and
      leaves the store in the same state. */
  lemma PrunedFieldNeverVisited(fields: seq<(string, JsonValue)>, i: nat, w: JsonValue, depth: nat, store: seq<ImageRecord>)
    requires i < |fields| && Pruned(fields[i].0)
    ensures !IsItemNode(JObj(fields)) ==>
              Mine(JObj(fields[i := (fields[i].0, w)]), depth) == Mine(JObj(fields), depth)
    ensures StoreAfterItems(store, Mine(JObj(fields[i := (fields[i].0, w)]), depth))
         == StoreAfterItems(store, Mine(JObj(fields), depth))
  {
    PrunedFieldSameReads(fields, i, w, depth + 1);
    SameReadsSameScan(JObj(fields), JObj(fields[i := (fields[i].0, w)]), depth, store);
  }

  lemma {:induction false} MineFieldsIncludes(obj: JsonValue, n: nat, i: nat, depth: nat)
    requires obj.JObj? && i < n <= |obj.fields| && !Pruned(obj.fields[i].0)
    ensures forall u :: u in Mine(obj.fields[i].1, depth) ==> u in MineFields(obj, n, depth)
    decreases n
  {
    var prev := MineFields(obj, n - 1, depth);
    var last := if Pruned(obj.fields[n - 1].0) then [] else Mine(obj.fields[n - 1].1, depth);
    assert MineFields(obj, n, depth) == prev + last;
    if i < n - 1 {
      MineFieldsIncludes(obj, n - 1, i, depth);
    } else {
      assert last == Mine(obj.fields[i].1, depth);
    }
  }

  lemma {:induction false} MineElementsIncludes(elems: seq<JsonValue>, i: nat, depth: nat)
    requires i < |elems|
    ensures forall u :: u in Mine(elems[i], depth) ==> u in MineElements(elems, depth)
    decreases elems
  {
    if i < |elems| - 1 {
      MineElementsIncludes(elems[..|elems| - 1], i, depth);
    }
  }

  /** Descent: below the cap, a node without a `large_images` array passes
      on everything found in each array element and in each unpruned field,
      scanned one level deeper. */
  lemma ChildItemsFound(v: JsonValue, depth: nat, i: nat)
    requires IsContainer(v) && depth <= MaxDepth && !HasLargeImagesArray(v)
    requires v.JArr? ==> i < |v.items|
    requires v.JObj? ==> i < |v.fields| && !Pruned(v.fields[i].0)
    ensures v.JArr? ==> forall u :: u in Mine(v.items[i], depth + 1) ==> u in Mine(v, depth)
    ensures v.JObj? ==> forall u :: u in Mine(v.fields[i].1, depth + 1) ==> u in Mine(v, depth)
  {
    if v.JArr? {
      MineElementsIncludes(v.items, i, depth + 1);
    } else {
      MineFieldsIncludes(v, |v.fields|, i, depth + 1);
    }
  }

  /** A node with a truthy `image.large_images` (and no `large_images`
      array) is an item and its children are scanned as well. */
  lemma NestedItemStillDescended(v: JsonValue, depth: nat, i: nat)
    requires v.JObj? && depth <= MaxDepth && !HasLargeImagesArray(v) && HasNestedLargeImages(v)
    requires i < |v.fields| && !Pruned(v.fields[i].0)
    ensures Mine(v, depth)[0] == v
    ensures forall u :: u in Mine(v.fields[i].1, depth + 1) ==> u in Mine(v, depth)
  {
    ChildItemsFound(v, depth, i);
  }

  // ---------------------------------------------------------------------
  // Record extraction (processPotentialImageItem)

  /** A property read that may throw: reading from `null` or `undefined`. */
  datatype Read = Thrown | Value(p: Prop)

  function ReadField(p: Prop, key: string): (r: Read)
    ensures r.Thrown? <==> ReadThrows(p)
  {
    if ReadThrows(p) then Thrown else Value(Get(p, key))
  }

  /** The url candidate, in priority order: `large_images[0].image_url` when
      `large_images` is a non-empty array; else
      `image.large_images[0].image_url` when that list is truthy and
      non-empty; else `image_url` when it is a non-empty string; else null. */
  function BestUrl(item: JsonValue): Read
  {
    var large := Get(Some(item), "large_images");
    if Truthy(large) && IsArray(large) && Positive(Get(large, "length")) then
      ReadField(Elem0(large), "image_url")
    else
      var image := Get(Some(item), "image");
      var nested := Get(image, "large_images");
      if Truthy(image) && Truthy(nested) && Positive(Get(nested, "length")) then
        ReadField(Elem0(nested), "image_url")
      else
        var direct := Get(Some(item), "image_url");
        if Truthy(direct) && IsString(direct) then Value(direct) else Value(Some(JNull))
  }

  /** The thumbnail hint: `uri` when truthy, else `cover.url_list[0]` when
      `cover.url_list` is truthy, else null. */
  function ThumbUrl(item: JsonValue): Prop
  {
    var cover := Get(Some(item), "cover");
    var list := Get(cover, "url_list");
    var fromCover := if Truthy(cover) && Truthy(list) then Elem0(list) else Some(JNull);
    var uri := Get(Some(item), "uri");
    if Truthy(uri) then uri else fromCover
  }

  /** The outcome of `processPotentialImageItem` before it touches the
      store: the exception it swallows, no record, or the record. */
  datatype Extraction = Threw | NoRecord | Record(rec: ImageRecord)

  /** A record is kept when the url candidate is a string containing
      "http". `bestUrl.includes` throws for a truthy number, boolean or
      object. */
  function Extract(item: JsonValue): (e: Extraction)
    ensures e.Record? ==> Contains(e.rec.url, "http") && e.rec.thumb == ThumbUrl(item)
    ensures e.Record? ==> BestUrl(item) == Value(Some(JStr(e.rec.url)))
    ensures var best := BestUrl(item);
      best.Value? && IsString(best.p) && Contains(best.p.value.s, "http") ==>
        e == Record(ImageRecord(best.p.value.s, ThumbUrl(item)))
  {
    match BestUrl(item)
    case Thrown => Threw
    case Value(best) =>
      if !Truthy(best) then NoRecord
      else
        match best.value
        case JStr(s) => if Contains(s, "http") then Record(ImageRecord(s, ThumbUrl(item))) else NoRecord
        case JArr(_) => NoRecord
        case _ => Threw
  }

  /** The first image of a non-empty `large_images` array wins, whatever
      `image.large_images` and `image_url` hold. */
  lemma LargeImagesUrlFirst(item: JsonValue, elems: seq<JsonValue>, s: string)
    requires Get(Some(item), "large_images") == Some(JArr(elems)) && |elems| > 0
    requires Get(Some(elems[0]), "image_url") == Some(JStr(s)) && Contains(s, "http")
    ensures Extract(item) == Record(ImageRecord(s, ThumbUrl(item)))
  {
  }

  /** Without a non-empty `large_images` array, the first image of a
      non-empty `image.large_images` array wins over `image_url`. */
  lemma NestedUrlSecond(item: JsonValue, image: JsonValue, elems: seq<JsonValue>, s: string)
    requires !(IsArray(Get(Some(item), "large_images")) && |Get(Some(item), "large_images").value.items| > 0)
    requires Get(Some(item), "image") == Some(image) && image.JObj?
    requires Get(Some(image), "large_images") == Some(JArr(elems)) && |elems| > 0
    requires Get(Some(elems[0]), "image_url") == Some(JStr(s)) && Contains(s, "http")
    ensures Extract(item) == Record(ImageRecord(s, ThumbUrl(item)))
  {
    var large := Get(Some(item), "large_images");
    assert !(Truthy(large) && IsArray(large) && Positive(Get(large, "length")));
    var nested := Get(Some(image), "large_images");
    assert Positive(Get(nested, "length")) && Elem0(nested) == Some(elems[0]);
    assert BestUrl(item) == Value(Some(JStr(s)));
  }

  /** When neither list supplies a url (absent, falsy, not an array or
      empty), a string `image_url` is the record's url. */
  lemma DirectUrlLast(item: JsonValue, s: string)
    requires var large := Get(Some(item), "large_images");
      !(Truthy(large) && IsArray(large) && Positive(Get(large, "length")))
    requires var image := Get(Some(item), "image");
      var nested := Get(image, "large_images");
      !(Truthy(image) && Truthy(nested) && Positive(Get(nested, "length")))
    requires Get(Some(item), "image_url") == Some(JStr(s)) && Contains(s, "http")
    ensures Extract(item) == Record(ImageRecord(s, ThumbUrl(item)))
  {
  }

  /** No fallback: once a list supplies the url candidate, `image_url` is
      never consulted, whatever that candidate is (even one that throws or
      is no url at all). */
  lemma ListGuardsDecide(item: JsonValue, other: JsonValue)
    requires other.JObj? && item.JObj?
    requires Lookup(other.fields, "large_images") == Lookup(item.fields, "large_images")
    requires Lookup(other.fields, "image") == Lookup(item.fields, "image")
    ensures var large := Get(Some(item), "large_images");
      Truthy(large) && IsArray(large) && Positive(Get(large, "length")) ==>
        BestUrl(item) == ReadField(Elem0(large), "image_url") && BestUrl(other) == BestUrl(item)
    ensures var large := Get(Some(item), "large_images");
      var image := Get(Some(item), "image");
      var nested := Get(image, "large_images");
      !(Truthy(large) && IsArray(large) && Positive(Get(large, "length"))) &&
      Truthy(image) && Truthy(nested) && Positive(Get(nested, "length")) ==>
        BestUrl(item) == ReadField(Elem0(nested), "image_url") && BestUrl(other) == BestUrl(item)
  {
  }

  /** A url without "http" is never recorded. */
  lemma NoHttpNoRecord(item: JsonValue, s: string)
    requires BestUrl(item) == Value(Some(JStr(s))) && !Contains(s, "http")
    ensures !Extract(item).Record?
  {
  }

  /** A truthy `uri` beats `cover.url_list[0]`; without it the cover's first
      entry is the hint when `cover` and `cover.url_list` are truthy, and
      otherwise the hint stays null. */
  lemma UriBeatsCover(item: JsonValue)
    ensures Truthy(Get(Some(item), "uri")) ==> ThumbUrl(item) == Get(Some(item), "uri")
    ensures !Truthy(Get(Some(item), "uri")) && Truthy(Get(Some(item), "cover"))
            && Truthy(Get(Get(Some(item), "cover"), "url_list"))
            ==> ThumbUrl(item) == Elem0(Get(Get(Some(item), "cover"), "url_list"))
    ensures !Truthy(Get(Some(item), "uri"))
            && !(Truthy(Get(Some(item), "cover")) && Truthy(Get(Get(Some(item), "cover"), "url_list")))
            ==> ThumbUrl(item) == Some(JNull)
  {
  }

  /** A null first entry in `large_images` makes the read throw. */
  lemma NullLargeImageThrows(item: JsonValue, rest: seq<JsonValue>)
    requires Get(Some(item), "large_images") == Some(JArr([JNull] + rest))
    ensures Extract(item) == Threw
  {
  }

  // ---------------------------------------------------------------------
  // The page-side store (`foundImages`)

  /** `foundImages.set(url, record)` guarded by `!foundImages.has(url)`:
      only a record with a new url is appended. */
  function Insert(store: seq<ImageRecord>, e: Extraction): (r: seq<ImageRecord>)
    ensures e.Record? && e.rec.url !in Urls(store) ==> r == store + [e.rec]
    ensures !(e.Record? && e.rec.url !in Urls(store)) ==> r == store
  {
    if e.Record? && e.rec.url !in Urls(store) then store + [e.rec] else store
  }

  /** The store after processing `items` in order. */
  function StoreAfterItems(store: seq<ImageRecord>, items: seq<JsonValue>): seq<ImageRecord>
  {
    if items == [] then store
    else Insert(StoreAfterItems(store, items[..|items| - 1]), Extract(items[|items| - 1]))
  }

  lemma {:induction false} StoreAfterConcat(store: seq<ImageRecord>, a: seq<JsonValue>, b: seq<JsonValue>)
    ensures StoreAfterItems(store, a + b) == StoreAfterItems(StoreAfterItems(store, a), b)
    decreases |b|
  {
    if b == [] {
      assert a + b == a;
    } else {
      assert (a + b)[..|a + b| - 1] == a + b[..|b| - 1];
      StoreAfterConcat(store, a, b[..|b| - 1]);
    }
  }

  /** Two scans in a row store what one scan of both item lists stores. */
  lemma StoreAfterSteps(f0: seq<ImageRecord>, a: seq<JsonValue>, f1: seq<ImageRecord>, b: seq<JsonValue>, f2: seq<ImageRecord>)
    requires f1 == StoreAfterItems(f0, a) && f2 == StoreAfterItems(f1, b)
    ensures f2 == StoreAfterItems(f0, a + b)
    ensures |f0| <= |f1| <= |f2|
  {
    StoreAfterConcat(f0, a, b);
    StoreGrowsByAppend(f0, a);
    StoreGrowsByAppend(f1, b);
  }

  /** One more element of an array scanned. */
  lemma ElementStep(f0: seq<ImageRecord>, elems: seq<JsonValue>, i: nat, depth: nat,
                    f1: seq<ImageRecord>, f2: seq<ImageRecord>)
    requires i < |elems|
    requires f1 == StoreAfterItems(f0, MineElements(elems[..i], depth))
    requires f2 == StoreAfterItems(f1, Mine(elems[i], depth))
    ensures f2 == StoreAfterItems(f0, MineElements(elems[..i + 1], depth))
    ensures |f0| <= |f1| <= |f2|
  {
    TakeOneMore(elems, i);
    StoreAfterSteps(f0, MineElements(elems[..i], depth), f1, Mine(elems[i], depth), f2);
  }

  /** One more field of an object visited: skipped when pruned, scanned
      otherwise. */
  lemma FieldStep(f0: seq<ImageRecord>, obj: JsonValue, i: nat, depth: nat,
                  f1: seq<ImageRecord>, f2: seq<ImageRecord>)
    requires obj.JObj? && i < |obj.fields|
    requires f1 == StoreAfterItems(f0, MineFields(obj, i, depth))
    requires f2 == if Pruned(obj.fields[i].0) then f1 else StoreAfterItems(f1, Mine(obj.fields[i].1, depth))
    ensures f2 == StoreAfterItems(f0, MineFields(obj, i + 1, depth))
    ensures |f0| <= |f1| <= |f2|
  {
    var (key, value) := obj.fields[i];
    if Pruned(key) {
      assert MineFields(obj, i + 1, depth) == MineFields(obj, i, depth);
      StoreGrowsByAppend(f0, MineFields(obj, i, depth));
    } else {
      assert MineFields(obj, i + 1, depth) == MineFields(obj, i, depth) + Mine(value, depth);
      StoreAfterSteps(f0, MineFields(obj, i, depth), f1, Mine(value, depth), f2);
    }
  }

  /** One more queued body scanned from the root. */
  lemma DrainStep(f0: seq<ImageRecord>, q: seq<JsonValue>, k: nat, f1: seq<ImageRecord>, f2: seq<ImageRecord>)
    requires k < |q|
    requires f1 == StoreAfterItems(f0, MineAll(q[..k]))
    requires f2 == StoreAfterItems(f1, Mine(q[k], 0))
    ensures f2 == StoreAfterItems(f0, MineAll(q[..k + 1]))
    ensures |f0| <= |f1| <= |f2|
  {
    TakeOneMore(q, k);
    MineAllAppend(q[..k], q[k]);
    StoreAfterSteps(f0, MineAll(q[..k]), f1, Mine(q[k], 0), f2);
  }

  lemma MineContainer(obj: JsonValue, depth: nat)
    requires IsContainer(obj) && depth <= MaxDepth && !HasLargeImagesArray(obj)
    ensures Mine(obj, depth) ==
      (if HasNestedLargeImages(obj) then [obj] else []) +
      (if obj.JArr? then MineElements(obj.items, depth + 1) else MineFields(obj, |obj.fields|, depth + 1))
  {
  }

  /** The children of a container below the cap that holds no large-images
      array are scanned after the container itself. */
  lemma ContainerStep(f0: seq<ImageRecord>, obj: JsonValue, depth: nat,
                      f1: seq<ImageRecord>, f2: seq<ImageRecord>)
    requires IsContainer(obj) && depth <= MaxDepth && !HasLargeImagesArray(obj)
    requires f1 == if HasNestedLargeImages(obj) then Insert(f0, Extract(obj)) else f0
    requires f2 == StoreAfterItems(f1, if obj.JArr? then MineElements(obj.items, depth + 1)
                                       else MineFields(obj, |obj.fields|, depth + 1))
    ensures f2 == StoreAfterItems(f0, Mine(obj, depth))
    ensures |f0| <= |f1| <= |f2|
  {
    var pre: seq<JsonValue> := if HasNestedLargeImages(obj) then [obj] else [];
    var rest := if obj.JArr? then MineElements(obj.items, depth + 1) else MineFields(obj, |obj.fields|, depth + 1);
    MineContainer(obj, depth);
    StoreAfterOne(f0, obj);
    assert f1 == StoreAfterItems(f0, pre);
    StoreAfterSteps(f0, pre, f1, rest, f2);
  }

  /** Insertion only appends: existing records, with their thumbnails, are
      never replaced, and no url is stored twice. */
  lemma {:induction false} StoreGrowsByAppend(store: seq<ImageRecord>, items: seq<JsonValue>)
    ensures |StoreAfterItems(store, items)| >= |store|
    ensures StoreAfterItems(store, items)[..|store|] == store
    ensures DistinctUrls(store) ==> DistinctUrls(StoreAfterItems(store, items))
    ensures (forall i :: 0 <= i < |store| ==> Contains(store[i].url, "http")) ==>
            forall i :: 0 <= i < |StoreAfterItems(store, items)| ==> Contains(StoreAfterItems(store, items)[i].url, "http")
    decreases |items|
  {
    if items != [] {
      var prev := StoreAfterItems(store, items[..|items| - 1]);
      StoreGrowsByAppend(store, items[..|items| - 1]);
      InsertGrows(store, prev, Extract(items[|items| - 1]));
    }
  }

  lemma InsertGrows(store: seq<ImageRecord>, prev: seq<ImageRecord>, e: Extraction)
    requires |prev| >= |store| && prev[..|store|] == store
    requires e.Record? ==> Contains(e.rec.url, "http")
    ensures |Insert(prev, e)| >= |store| && Insert(prev, e)[..|store|] == store
    ensures DistinctUrls(prev) ==> DistinctUrls(Insert(prev, e))
    ensures (forall i :: 0 <= i < |prev| ==> Contains(prev[i].url, "http")) ==>
            forall i :: 0 <= i < |Insert(prev, e)| ==> Contains(Insert(prev, e)[i].url, "http")
  {
    if e.Record? && e.rec.url !in Urls(prev) {
      var next := prev + [e.rec];
      assert next[..|store|] == prev[..|store|];
      if DistinctUrls(prev) {
        DistinctSnoc(prev, e.rec);
      }
      assert forall i :: 0 <= i < |prev| ==> next[i] == prev[i];
    }
  }

  /** Every item that yields a record has its url in the store
      afterwards. */
  lemma {:induction false} StoreKeepsItemUrls(store: seq<ImageRecord>, items: seq<JsonValue>)
    ensures forall j :: 0 <= j < |items| && Extract(items[j]).Record? ==>
              Extract(items[j]).rec.url in Urls(StoreAfterItems(store, items))
    decreases |items|
  {
    if items != [] {
      var init := items[..|items| - 1];
      StoreKeepsItemUrls(store, init);
      var es := seq(|items|, j requires 0 <= j < |items| => Extract(items[j]));
      forall j | 0 <= j < |init|
        ensures es[j] == Extract(init[j])
      {
        assert items[j] == init[j];
      }
      var prev := StoreAfterItems(store, init);
      KeepsStep(prev, es);
      assert StoreAfterItems(store, items) == Insert(prev, es[|items| - 1]);
      forall j | 0 <= j < |items| && Extract(items[j]).Record?
        ensures Extract(items[j]).rec.url in Urls(StoreAfterItems(store, items))
      {
        assert es[j] == Extract(items[j]);
      }
    }
  }

  lemma KeepsStep(prev: seq<ImageRecord>, es: seq<Extraction>)
    requires es != []
    requires forall j :: 0 <= j < |es| - 1 && es[j].Record? ==> es[j].rec.url in Urls(prev)
    ensures forall j :: 0 <= j < |es| && es[j].Record? ==> es[j].rec.url in Urls(Insert(prev, es[|es| - 1]))
  {
    InsertUrls(prev, es[|es| - 1]);
  }

  /** Every url in the store came from the old store or from one of the
      items. */
  lemma {:induction false} StoreUrlsFromItems(store: seq<ImageRecord>, items: seq<JsonValue>)
    ensures forall u :: u in Urls(StoreAfterItems(store, items)) ==>
              u in Urls(store) || exists j :: 0 <= j < |items| && Extract(items[j]).Record? && Extract(items[j]).rec.url == u
    decreases |items|
  {
    if items != [] {
      var init := items[..|items| - 1];
      StoreUrlsFromItems(store, init);
      var es := seq(|items|, j requires 0 <= j < |items| => Extract(items[j]));
      forall u | u in Urls(StoreAfterItems(store, init)) && u !in Urls(store)
        ensures exists j :: 0 <= j < |items| - 1 && es[j].Record? && es[j].rec.url == u
      {
        var j :| 0 <= j < |init| && Extract(init[j]).Record? && Extract(init[j]).rec.url == u;
        assert items[j] == init[j] && es[j] == Extract(init[j]);
      }
      var prev := StoreAfterItems(store, init);
      OriginStep(store, prev, es);
      assert StoreAfterItems(store, items) == Insert(prev, es[|items| - 1]);
      forall u | u in Urls(StoreAfterItems(store, items)) && u !in Urls(store)
        ensures exists j :: 0 <= j < |items| && Extract(items[j]).Record? && Extract(items[j]).rec.url == u
      {
        var j :| 0 <= j < |es| && es[j].Record? && es[j].rec.url == u;
        assert es[j] == Extract(items[j]);
      }
    }
  }

  lemma OriginStep(store: seq<ImageRecord>, prev: seq<ImageRecord>, es: seq<Extraction>)
    requires es != []
    requires forall u :: u in Urls(prev) ==>
               u in Urls(store) || exists j :: 0 <= j < |es| - 1 && es[j].Record? && es[j].rec.url == u
    ensures forall u :: u in Urls(Insert(prev, es[|es| - 1])) ==>
               u in Urls(store) || exists j :: 0 <= j < |es| && es[j].Record? && es[j].rec.url == u
  {
    InsertUrls(prev, es[|es| - 1]);
    forall u | u in Urls(Insert(prev, es[|es| - 1])) && u !in Urls(store)
      ensures exists j :: 0 <= j < |es| && es[j].Record? && es[j].rec.url == u
    {
      if u !in Urls(prev) {
        assert es[|es| - 1].Record? && es[|es| - 1].rec.url == u;
      }
    }
  }

  lemma InsertUrls(store: seq<ImageRecord>, e: Extraction)
    ensures Urls(Insert(store, e)) == Urls(store) + (if e.Record? then {e.rec.url} else {})
  {
    if e.Record? && e.rec.url !in Urls(store) {
      UrlsAppend(store, e.rec);
    }
  }

  /** Processing an item twice stores its record once. */
  lemma InsertIdempotent(store: seq<ImageRecord>, item: JsonValue)
    ensures StoreAfterItems(store, [item, item]) == StoreAfterItems(store, [item])
  {
    var once := StoreAfterItems(store, [item]);
    assert [item, item][..1] == [item];
    assert [item][..0] == [];
    var e := Extract(item);
    if e.Record? && e.rec.url !in Urls(store) {
      UrlsAppend(store, e.rec);
    }
  }

  // ---------------------------------------------------------------------
  // The traversal as written: `obj.hasOwnProperty(key)`

  /** The calls made by the source's traversal up to the point it stops,
      and whether it stopped by throwing. */
  datatype Walk = Walk(items: seq<JsonValue>, threw: bool)

  /** The object has an own key "hasOwnProperty"; it shadows the prototype
      method, and since no JSON value is callable, `obj.hasOwnProperty(key)`
      throws a TypeError at the first unpruned key. */
  predicate ShadowsHasOwnProperty(obj: JsonValue)
  {
    obj.JObj? && Lookup(obj.fields, "hasOwnProperty").Some?
  }

  function Then(a: Walk, b: Walk): Walk
  {
    Walk(a.items + b.items, b.threw)
  }

  /** `scanObjectForImages` exactly as written: the exception raised by a
      shadowed `hasOwnProperty` is not caught inside the traversal. */
  function MineAsWritten(v: JsonValue, depth: nat): Walk
    decreases v, 1, 0
  {
    if !IsContainer(v) || depth > MaxDepth then Walk([], false)
    else if HasLargeImagesArray(v) then Walk([v], false)
    else
      Then(Walk(if HasNestedLargeImages(v) then [v] else [], false),
           match v
           case JArr(elems) => WalkElements(elems, depth + 1)
           case JObj(fields) => WalkFields(v, |fields|, depth + 1)
           case _ => Walk([], false))
  }

  function WalkElements(elems: seq<JsonValue>, depth: nat): Walk
    decreases elems
  {
    if elems == [] then Walk([], false)
    else
      var w := WalkElements(elems[..|elems| - 1], depth);
      if w.threw then w else Then(w, MineAsWritten(elems[|elems| - 1], depth))
  }

  function WalkFields(obj: JsonValue, n: nat, depth: nat): Walk
    requires obj.JObj? && n <= |obj.fields|
    decreases obj, 0, n
  {
    if n == 0 then Walk([], false)
    else
      var w := WalkFields(obj, n - 1, depth);
      var (key, value) := obj.fields[n - 1];
      if w.threw || Pruned(key) then w
      else if ShadowsHasOwnProperty(obj) then Walk(w.items, true)
      else Then(w, MineAsWritten(value, depth))
  }

  /** The source's traversal makes a prefix of the corrected traversal's
      calls, and all of them when it does not throw. */
  lemma {:induction false} AsWrittenIsPrefix(v: JsonValue, depth: nat)
    ensures MineAsWritten(v, depth).items <= Mine(v, depth)
    ensures !MineAsWritten(v, depth).threw ==> MineAsWritten(v, depth).items == Mine(v, depth)
    decreases v, 1, 0
  {
    if IsContainer(v) && depth <= MaxDepth && !HasLargeImagesArray(v) {
      var pre: seq<JsonValue> := if HasNestedLargeImages(v) then [v] else [];
      if v.JArr? {
        ElementsAsWrittenIsPrefix(v.items, depth + 1);
        ThenPrefix(pre, WalkElements(v.items, depth + 1), MineElements(v.items, depth + 1));
      } else {
        FieldsAsWrittenIsPrefix(v, |v.fields|, depth + 1);
        ThenPrefix(pre, WalkFields(v, |v.fields|, depth + 1), MineFields(v, |v.fields|, depth + 1));
      }
      WalkContainer(v, depth);
      MineContainer(v, depth);
    }
  }

  lemma WalkContainer(v: JsonValue, depth: nat)
    requires IsContainer(v) && depth <= MaxDepth && !HasLargeImagesArray(v)
    ensures MineAsWritten(v, depth) ==
      Then(Walk(if HasNestedLargeImages(v) then [v] else [], false),
           if v.JArr? then WalkElements(v.items, depth + 1) else WalkFields(v, |v.fields|, depth + 1))
  {
  }

  /** The items found before a sub-walk do not disturb its prefix
      relation. */
  lemma ThenPrefix(pre: seq<JsonValue>, sub: Walk, rest: seq<JsonValue>)
    requires sub.items <= rest && (!sub.threw ==> sub.items == rest)
    ensures Then(Walk(pre, false), sub).items <= pre + rest
    ensures !Then(Walk(pre, false), sub).threw ==> Then(Walk(pre, false), sub).items == pre + rest
  {
    assert (pre + rest)[..|pre + sub.items|] == pre + sub.items;
  }

  lemma {:induction false} ElementsAsWrittenIsPrefix(elems: seq<JsonValue>, depth: nat)
    ensures WalkElements(elems, depth).items <= MineElements(elems, depth)
    ensures !WalkElements(elems, depth).threw ==> WalkElements(elems, depth).items == MineElements(elems, depth)
    decreases elems
  {
    if elems != [] {
      ElementsAsWrittenIsPrefix(elems[..|elems| - 1], depth);
      AsWrittenIsPrefix(elems[|elems| - 1], depth);
    }
  }

  lemma {:induction false} FieldsAsWrittenIsPrefix(obj: JsonValue, n: nat, depth: nat)
    requires obj.JObj? && n <= |obj.fields|
    ensures WalkFields(obj, n, depth).items <= MineFields(obj, n, depth)
    ensures !WalkFields(obj, n, depth).threw ==> WalkFields(obj, n, depth).items == MineFields(obj, n, depth)
    decreases obj, 0, n
  {
    if n > 0 {
      var key, value := obj.fields[n - 1].0, obj.fields[n - 1].1;
      var w, m := WalkFields(obj, n - 1, depth), MineFields(obj, n - 1, depth);
      var pruned, shadows := Pruned(key), ShadowsHasOwnProperty(obj);
      var sub := if pruned then Walk([], false) else MineAsWritten(value, depth);
      var more := if pruned then [] else Mine(value, depth);
      assert w.items <= m && (!w.threw ==> w.items == m) by {
        FieldsAsWrittenIsPrefix(obj, n - 1, depth);
      }
      assert sub.items <= more && (!sub.threw ==> sub.items == more) by {
        if !pruned {
          assert obj.fields[n - 1] in obj.fields;
          AsWrittenIsPrefix(value, depth);
        }
      }
      WalkStep(w, m, sub, more, pruned, shadows);
      assert MineFields(obj, n, depth) == m + more &&
        WalkFields(obj, n, depth) == (if w.threw || pruned then w else if shadows then Walk(w.items, true) else Then(w, sub)) by {
        FieldsUnfold(obj, n, depth);
      }
    }
  }

  lemma FieldsUnfold(obj: JsonValue, n: nat, depth: nat)
    requires obj.JObj? && 0 < n <= |obj.fields|
    ensures var key, value := obj.fields[n - 1].0, obj.fields[n - 1].1;
      && MineFields(obj, n, depth) == MineFields(obj, n - 1, depth) + (if Pruned(key) then [] else Mine(value, depth))
      && var w := WalkFields(obj, n - 1, depth);
         WalkFields(obj, n, depth) ==
           if w.threw || Pruned(key) then w
           else if ShadowsHasOwnProperty(obj) then Walk(w.items, true)
           else Then(w, MineAsWritten(value, depth))
  {
  }

  /** One field of the as-written walk against the corrected one. */
  lemma WalkStep(w: Walk, m: seq<JsonValue>, sub: Walk, more: seq<JsonValue>, pruned: bool, shadows: bool)
    requires w.items <= m && (!w.threw ==> w.items == m)
    requires sub.items <= more && (!sub.threw ==> sub.items == more)
    requires pruned ==> more == []
    ensures var next := if w.threw || pruned then w else if shadows then Walk(w.items, true) else Then(w, sub);
      next.items <= m + more && (!next.threw ==> next.items == m + more)
  {
    if w.threw || pruned || shadows {
      PrefixOfLonger(w.items, m, more);
    } else {
      assert (m + more)[..|m + sub.items|] == m + sub.items;
    }
  }

  lemma PrefixOfLonger<T>(a: seq<T>, b: seq<T>, c: seq<T>)
    requires a <= b
    ensures a <= b + c
  {
    assert (b + c)[..|a|] == b[..|a|];
  }

  /** The input that shows the discrepancy: a body `{"hasOwnProperty": 1}`
      makes the source's traversal throw, where nothing should be found and
      nothing should fail. */
  lemma ShadowedHasOwnPropertyThrows()
    ensures MineAsWritten(JObj([("hasOwnProperty", JNum(1))]), 0).threw
    ensures Mine(JObj([("hasOwnProperty", JNum(1))]), 0) == []
  {
    var v := JObj([("hasOwnProperty", JNum(1))]);
    assert WalkFields(v, 0, 1) == Walk([], false);
    assert MineFields(v, 0, 1) == [];
  }
}
