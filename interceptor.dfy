/** The page-side state of the interceptor: the scan queue and its single
    drain loop, the store of found records and the broadcast debounce flag.
    The host's callback machinery (`requestIdleCallback`, `setTimeout`) is
    modelled by two counters of callbacks registered and not yet run; the
    host runs a drain with a `Deadline` and fires a pending timer by calling
    the corresponding method. */
module Interceptor {
  import opened Js
  import opened Records
  import opened UrlFilter
  import opened Mining
  import opened Seqs
  import Merging

  /** The argument of `processQueue`: none (the `setTimeout` fallback), or
      an idle deadline, described by how many consecutive `timeRemaining()`
      readings are at least 2 ms before the first one below 2 ms. */
  datatype Deadline = NoDeadline | Idle(budget: nat)

  /** The idle-time threshold, in milliseconds, below which the drain loop
      yields. */
  const YieldThreshold: nat := 2

  /** How many queued bodies one drain scans before it yields or empties the
      queue. */
  function Drained(queueLength: nat, deadline: Deadline): (k: nat)
    ensures k <= queueLength
    ensures deadline.NoDeadline? ==> k == queueLength
    ensures deadline.Idle? && deadline.budget >= queueLength ==> k == queueLength
    ensures deadline.Idle? && deadline.budget < queueLength ==> k == deadline.budget
  {
    match deadline
    case NoDeadline => queueLength
    case Idle(budget) => if budget < queueLength then budget else queueLength
  }

  class PageCapture {
    /** `'requestIdleCallback' in window`. */
    const idleAvailable: bool

    /** `foundImages`: insertion-ordered, keyed by url. */
    var foundImages: seq<ImageRecord>
    var isScanning: bool
    var scanQueue: seq<JsonValue>
    /** `this._broadcastTimeout` is set. */
    var broadcastPending: bool
    /** Drain callbacks registered with the host and not yet run. */
    var pendingDrains: nat
    /** Broadcast timers registered with the host and not yet fired. */
    var pendingTimers: nat

    /** The store holds distinct urls, all containing "http", and a timer
        is pending exactly when the debounce flag is set. */
    ghost predicate StoreValid()
      reads this
    {
      && DistinctUrls(foundImages)
      && (forall i :: 0 <= i < |foundImages| ==> Contains(foundImages[i].url, "http"))
      && pendingTimers == (if broadcastPending then 1 else 0)
    }

    /** Between host events: at most one drain is pending, exactly when
        `isScanning` is set, and an idle scanner has an empty queue. */
    ghost predicate Valid()
      reads this
    {
      && StoreValid()
      && pendingDrains == (if isScanning then 1 else 0)
      && (!isScanning ==> scanQueue == [])
    }

    constructor (idleAvailable: bool)
      ensures Valid() && this.idleAvailable == idleAvailable
      ensures foundImages == [] && scanQueue == [] && !isScanning && !broadcastPending
    {
      this.idleAvailable := idleAvailable;
      foundImages := [];
      isScanning := false;
      scanQueue := [];
      broadcastPending := false;
      pendingDrains := 0;
      pendingTimers := 0;
    }

    /** `scheduleScan(data)`: append to the queue; register a drain only
        when none is pending. */
    method ScheduleScan(data: JsonValue)
      requires Valid()
      modifies this
      ensures Valid()
      ensures scanQueue == old(scanQueue) + [data]
      ensures isScanning && pendingDrains == 1
      ensures old(isScanning) ==> pendingDrains == old(pendingDrains)
      ensures foundImages == old(foundImages) && broadcastPending == old(broadcastPending)
      ensures pendingTimers == old(pendingTimers)
    {
      scanQueue := scanQueue + [data];
      if !isScanning {
        isScanning := true;
        // one drain callback registered with the host (idle callback or timer)
        pendingDrains := pendingDrains + 1;
      }
    }

    /** `processQueue(deadline)`, run by the host for the pending drain:
        scans queued bodies from the front until the queue is empty, or
        yields (re-registering itself) at the first reading below the
        threshold. */
    method ProcessQueue(deadline: Deadline)
      requires Valid() && isScanning
      requires deadline.NoDeadline? <==> !idleAvailable
      modifies this
      ensures Valid()
      ensures var k := Drained(|old(scanQueue)|, deadline);
        && scanQueue == old(scanQueue)[k..]
        && foundImages == StoreAfterItems(old(foundImages), MineAll(old(scanQueue)[..k]))
        && isScanning == (k < |old(scanQueue)|)
      ensures broadcastPending == (old(broadcastPending) || |foundImages| > |old(foundImages)|)
    {
      pendingDrains := pendingDrains - 1;  // the host has taken this callback
      ghost var q0, f0, t0 := scanQueue, foundImages, broadcastPending;
      var readings := 0;  // calls of deadline.timeRemaining() that returned >= 2
      while |scanQueue| > 0
        invariant 0 <= readings <= Drained(|q0|, deadline)
        invariant scanQueue == q0[readings..]
        invariant foundImages == StoreAfterItems(f0, MineAll(q0[..readings]))
        invariant broadcastPending == (t0 || |foundImages| > |f0|)
        invariant StoreValid() && pendingDrains == 0 && isScanning
        decreases |scanQueue|
      {
        if deadline.Idle? && readings >= deadline.budget {
          // the idle time left is below the threshold: register the drain again and yield
          pendingDrains := pendingDrains + 1;
          assert readings == Drained(|q0|, deadline);
          return;
        }
        var data := scanQueue[0];
        scanQueue := scanQueue[1..];
        ghost var f1 := foundImages;
        ScanObjectForImages(data, 0);
        DrainStep(f0, q0, readings, f1, foundImages);
        readings := readings + 1;
      }
      assert readings == |q0| == Drained(|q0|, deadline);
      TakeAll(q0);
      isScanning := false;
    }

    /** `scanObjectForImages(obj, depth)`: hands the items of `Mine` to the
        item processor, in order. Every own key of an object is visited (see
        `MineAsWritten` for the source's `obj.hasOwnProperty(key)`). */
    method ScanObjectForImages(obj: JsonValue, depth: nat)
      requires StoreValid()
      modifies this
      ensures StoreValid()
      ensures foundImages == StoreAfterItems(old(foundImages), Mine(obj, depth))
      ensures broadcastPending == (old(broadcastPending) || |foundImages| > |old(foundImages)|)
      ensures scanQueue == old(scanQueue) && isScanning == old(isScanning)
      ensures pendingDrains == old(pendingDrains)
      decreases obj, 2
    {
      if !IsContainer(obj) || depth > MaxDepth {
        MineOutsideCap(obj, depth);
        return;
      }
      if HasLargeImagesArray(obj) {
        ProcessPotentialImageItem(obj);
        LargeImagesNotDescended(obj, depth);
        StoreAfterOne(old(foundImages), obj);
        return;
      }
      if HasNestedLargeImages(obj) {
        ProcessPotentialImageItem(obj);
      }
      ghost var f1 := foundImages;
      if obj.JArr? {
        ScanElements(obj, depth + 1);
      } else {
        ScanFields(obj, depth + 1);
      }
      ContainerStep(old(foundImages), obj, depth, f1, foundImages);
    }

    /** The source's `for` loop over the elements of an array, each scanned
        one level deeper. */
    method ScanElements(arr: JsonValue, depth: nat)
      requires arr.JArr? && StoreValid()
      modifies this
      ensures StoreValid()
      ensures foundImages == StoreAfterItems(old(foundImages), MineElements(arr.items, depth))
      ensures broadcastPending == (old(broadcastPending) || |foundImages| > |old(foundImages)|)
      ensures scanQueue == old(scanQueue) && isScanning == old(isScanning)
      ensures pendingDrains == old(pendingDrains)
      decreases arr, 1
    {
      var elems := arr.items;
      for i := 0 to |elems|
        invariant StoreValid()
        invariant foundImages == StoreAfterItems(old(foundImages), MineElements(elems[..i], depth))
        invariant broadcastPending == (old(broadcastPending) || |foundImages| > |old(foundImages)|)
        invariant scanQueue == old(scanQueue) && isScanning == old(isScanning)
        invariant pendingDrains == old(pendingDrains)
      {
        ghost var f2 := foundImages;
        ScanObjectForImages(elems[i], depth);
        ElementStep(old(foundImages), elems, i, depth, f2, foundImages);
      }
      assert elems[..|elems|] == elems;
    }

    /** The source's `for...in` loop over the own keys of an object: a
        pruned key is skipped, every other value scanned one level deeper. */
    method ScanFields(obj: JsonValue, depth: nat)
      requires obj.JObj? && StoreValid()
      modifies this
      ensures StoreValid()
      ensures foundImages == StoreAfterItems(old(foundImages), MineFields(obj, |obj.fields|, depth))
      ensures broadcastPending == (old(broadcastPending) || |foundImages| > |old(foundImages)|)
      ensures scanQueue == old(scanQueue) && isScanning == old(isScanning)
      ensures pendingDrains == old(pendingDrains)
      decreases obj, 1
    {
      var fields := obj.fields;
      for i := 0 to |fields|
        invariant StoreValid()
        invariant foundImages == StoreAfterItems(old(foundImages), MineFields(obj, i, depth))
        invariant broadcastPending == (old(broadcastPending) || |foundImages| > |old(foundImages)|)
        invariant scanQueue == old(scanQueue) && isScanning == old(isScanning)
        invariant pendingDrains == old(pendingDrains)
      {
        var (key, value) := fields[i];
        assert fields[i] in fields;
        if Pruned(key) {
          // a pruned key: its value is not scanned
          FieldStep(old(foundImages), obj, i, depth, foundImages, foundImages);
          continue;
        }
        ghost var f2 := foundImages;
        ScanObjectForImages(value, depth);
        FieldStep(old(foundImages), obj, i, depth, f2, foundImages);
      }
    }

    /** `processPotentialImageItem(item)`: a new record is appended and arms
        the debounce timer unless one is pending; a known url, a missing
        record and a swallowed exception leave everything unchanged. */
    method ProcessPotentialImageItem(item: JsonValue)
      requires StoreValid()
      modifies this
      ensures StoreValid()
      ensures foundImages == Insert(old(foundImages), Extract(item))
      ensures broadcastPending == (old(broadcastPending) || |foundImages| > |old(foundImages)|)
      ensures old(broadcastPending) ==> pendingTimers == old(pendingTimers)
      ensures scanQueue == old(scanQueue) && isScanning == old(isScanning)
      ensures pendingDrains == old(pendingDrains)
    {
      var e := Extract(item);
      match e
      case Record(rec) =>
        if rec.url !in Urls(foundImages) {
          foundImages := foundImages + [rec];
          if !broadcastPending {
            // arm the single debounce timer
            broadcastPending := true;
            pendingTimers := pendingTimers + 1;
          }
        }
      case _ =>
    }

    /** `broadcast()`: all stored records, in insertion order, under the
        interceptor's message type. */
    function Broadcast(): (msg: Envelope)
      reads this
      ensures msg.kind == InterceptorDataType && msg.images.Some?
      ensures msg.images.value == foundImages
    {
      Envelope(InterceptorDataType, Some(foundImages))
    }

    /** The debounce timer fires: broadcast, then clear the flag. */
    method FireBroadcastTimer() returns (msg: Envelope)
      requires Valid() && broadcastPending
      modifies this
      ensures Valid()
      ensures msg == Envelope(InterceptorDataType, Some(foundImages))
      ensures !broadcastPending && pendingTimers == 0
      ensures foundImages == old(foundImages) && scanQueue == old(scanQueue)
      ensures isScanning == old(isScanning) && pendingDrains == old(pendingDrains)
    {
      pendingTimers := pendingTimers - 1;  // the host has taken this timer
      msg := Broadcast();
      broadcastPending := false;
    }

    /** The XHR `load` listener: an admitted, parsed body is queued. */
    method OnXhrLoad(reqUrl: Prop, contentType: Option<string>, text: string, parsed: Option<JsonValue>)
      requires Valid()
      modifies this
      ensures Valid()
      ensures var v := XhrLoadScan(reqUrl, contentType, text, parsed);
        && scanQueue == old(scanQueue) + (if v.Some? then [v.value] else [])
        && isScanning == (old(isScanning) || v.Some?)
      ensures foundImages == old(foundImages) && broadcastPending == old(broadcastPending)
      ensures old(isScanning) ==> pendingDrains == old(pendingDrains)
    {
      var v := XhrLoadScan(reqUrl, contentType, text, parsed);
      if v.Some? {
        ScheduleScan(v.value);
      }
    }

    /** The fetch hook's `clone.json().then(scheduleScan)`. */
    method OnFetchJson(url: Prop, contentType: Option<string>, parsed: Option<JsonValue>)
      requires Valid()
      modifies this
      ensures Valid()
      ensures var v := FetchLoadScan(url, contentType, parsed);
        && scanQueue == old(scanQueue) + (if v.Some? then [v.value] else [])
        && isScanning == (old(isScanning) || v.Some?)
      ensures foundImages == old(foundImages) && broadcastPending == old(broadcastPending)
      ensures old(isScanning) ==> pendingDrains == old(pendingDrains)
    {
      var v := FetchLoadScan(url, contentType, parsed);
      if v.Some? {
        ScheduleScan(v.value);
      }
    }
  }

  /** What a broadcast delivers to the isolated side: the envelope, posted
      by the window to itself, passes the listener's guards; merged into an
      empty store it reproduces the page's store in order; and since the
      page's store only grows by appending, a broadcast after an earlier one
      leaves the isolated store as if only the later one had arrived. */
  lemma BroadcastDelivered(page: PageCapture, store: seq<ImageRecord>, earlier: seq<ImageRecord>)
    requires page.StoreValid()
    requires earlier <= page.foundImages
    ensures var msg := page.Broadcast();
      && Merging.Accepts(WindowMessage(true, Some(msg)))
      && Merging.Merge([], msg.images.value) == page.foundImages
      && Merging.Merge(Merging.Merge(store, earlier), msg.images.value) == Merging.Merge(store, msg.images.value)
  {
    Merging.MergeIntoEmpty(page.foundImages);
    Merging.MergeLaterSnapshot(store, earlier, page.foundImages);
  }

  /** How a drain as written ends: the queue emptied (`isScanning`
      cleared), a yield (the drain registered again), or an exception out of
      the traversal of the body at `at`, which leaves `processQueue` before
      either: `isScanning` stays set and no drain is registered, so
      `scheduleScan` never registers one again. */
  datatype DrainEnd = Emptied | Yielded | Stalled(at: nat)

  /** The drain loop of the source, from the body at `i` on, with the
      source's traversal `MineAsWritten`. */
  function DrainAsWritten(q: seq<JsonValue>, deadline: Deadline, i: nat): (r: DrainEnd)
    requires i <= Drained(|q|, deadline)
    ensures r.Stalled? ==> i <= r.at < Drained(|q|, deadline) && MineAsWritten(q[r.at], 0).threw
    ensures r.Stalled? ==> forall j :: i <= j < r.at ==> !MineAsWritten(q[j], 0).threw
    ensures !r.Stalled? ==> forall j :: i <= j < Drained(|q|, deadline) ==> !MineAsWritten(q[j], 0).threw
    ensures r.Emptied? <==> !r.Stalled? && Drained(|q|, deadline) == |q|
    decreases |q| - i
  {
    if i == |q| then Emptied
    else if deadline.Idle? && i >= deadline.budget then Yielded
    else if MineAsWritten(q[i], 0).threw then Stalled(i)
    else DrainAsWritten(q, deadline, i + 1)
  }

  /** The input that shows the stall: a body `{"hasOwnProperty": 1}` at the
      head of the queue stalls a drain without a deadline before the body
      behind it is scanned, where the corrected drain scans both. */
  lemma ShadowedBodyStallsDrain(item: JsonValue)
    ensures DrainAsWritten([JObj([("hasOwnProperty", JNum(1))]), item], NoDeadline, 0) == Stalled(0)
    ensures Drained(2, NoDeadline) == 2
  {
    ShadowedHasOwnPropertyThrows();
  }

  /** A client: two bodies scheduled back to back share one drain, and a
      drain without a deadline scans both in order and stops scanning. */
  method ScheduleTwiceThenDrain(a: JsonValue, b: JsonValue)
  {
    var page := new PageCapture(false);
    page.ScheduleScan(a);
    assert page.pendingDrains == 1;
    page.ScheduleScan(b);
    assert page.pendingDrains == 1 && page.scanQueue == [a, b];
    ghost var queued := page.scanQueue;
    page.ProcessQueue(NoDeadline);
    TakeAll(queued);
    assert page.scanQueue == [] && !page.isScanning && page.pendingDrains == 0;
    assert page.foundImages == StoreAfterItems([], MineAll([a, b]));
  }
}
