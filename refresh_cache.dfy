/** The background refresh cache of app.js: the module-level state
    (app.js:12-22), the item refresh `fetchItems` (app.js:24-41), the
    availability refresh `fetchAvailabilities` (app.js:43-82) and the
    single-flight guard of the request loop (app.js:108-115).

    Network calls are replaced by their replies, passed in as parameters:
    a `Listing` per product category and, per manufacturer, a feed of the
    replies its successive availability fetches would yield. A refresh that
    the request loop fires and forgets is modelled as the trigger (which sets
    the flag) followed, at some later point, by a call of the refresh method. */
module RefreshCache {
  import opened Upstream
  import opened Text
  import opened Payload
  import opened Discovery
  import opened AvailabilityFetcher
  import opened AvailabilityIndex

  /** The JavaScript object `manufAvailbList`: its keys in insertion order
      (the order `Object.entries` visits them) and the value of each key. */
  datatype Store = Store(order: seq<string>, entries: map<string, seq<Record>>)

  predicate WellFormed(st: Store)
  {
    && NoDuplicates(st.order)
    && (forall m :: m in st.order ==> m in st.entries)
    && (forall m :: m in st.entries ==> m in st.order)
  }

  /** `manufAvailbList[m] = records`: a new key goes to the end of the key
      order, an existing key keeps its place and gets the new value. */
  function Put(st: Store, m: string, records: seq<Record>): (r: Store)
    ensures WellFormed(st) ==> WellFormed(r)
    ensures r.entries.Keys == st.entries.Keys + {m} && m in r.entries && r.entries[m] == records
    ensures forall k :: k in st.entries && k != m ==> r.entries[k] == st.entries[k]
    ensures st.order <= r.order && forall k :: k in r.order ==> k in st.order || k == m
  {
    Store(if m in st.entries then st.order else st.order + [m], st.entries[m := records])
  }

  /** The stored responses, in key order. */
  function Entries(st: Store): seq<seq<Record>>
    requires forall m :: m in st.order ==> m in st.entries
  {
    seq(|st.order|, i requires 0 <= i < |st.order| => st.entries[st.order[i]])
  }

  /** Every manufacturer has a feed long enough for all its attempts. */
  predicate Fed(feeds: seq<seq<Reply>>)
  {
    forall j :: 0 <= j < |feeds| ==> MAX_ATTEMPTS <= |feeds[j]|
  }

  /** How each manufacturer's retry ends. */
  function Outcomes(feeds: seq<seq<Reply>>): (outs: seq<Outcome>)
    requires Fed(feeds)
    ensures |outs| == |feeds|
    ensures forall j :: 0 <= j < |feeds| ==> outs[j] == Retry(feeds[j]).outcome
  {
    seq(|feeds|, j requires 0 <= j < |feeds| => Retry(feeds[j]).outcome)
  }

  /** The store after the fetch loop, and whether a throw cut the loop short. */
  datatype Collected = Collected(store: Store, threw: bool)

  /** The fetch loop (app.js:44-67) from the `i`-th manufacturer on: each
      manufacturer's retry ends as `outs` says; a good response is stored, a
      manufacturer given up on is skipped, and a throw ends the whole refresh. */
  function CollectFrom(st: Store, ms: seq<string>, outs: seq<Outcome>, i: nat): Collected
    requires |outs| == |ms| && i <= |ms|
    decreases |ms| - i
  {
    if i == |ms| then Collected(st, false)
    else
      match outs[i]
      case Threw => Collected(st, true)
      case GaveUp => CollectFrom(st, ms, outs, i + 1)
      case Got(records) => CollectFrom(Put(st, ms[i], records), ms, outs, i + 1)
  }

  /** The fetch loop keeps the store well formed, only adds keys (never
      removes one), and every key it adds is one of the manufacturers. */
  lemma {:induction false} CollectKeepsStore(st: Store, ms: seq<string>, outs: seq<Outcome>, i: nat)
    requires |outs| == |ms| && i <= |ms| && WellFormed(st)
    ensures var out := CollectFrom(st, ms, outs, i).store;
      && WellFormed(out)
      && st.order <= out.order
      && forall m :: m in out.order ==> m in st.order || m in ms
    decreases |ms| - i
  {
    if i < |ms| {
      match outs[i]
      case Threw =>
      case GaveUp => CollectKeepsStore(st, ms, outs, i + 1);
      case Got(records) => CollectKeepsStore(Put(st, ms[i], records), ms, outs, i + 1);
    }
  }

  /** The loop is cut short exactly when some manufacturer's fetch throws. */
  lemma {:induction false} CollectThrewIff(st: Store, ms: seq<string>, outs: seq<Outcome>, i: nat)
    requires |outs| == |ms| && i <= |ms|
    ensures CollectFrom(st, ms, outs, i).threw <==>
      exists j :: i <= j < |ms| && outs[j].Threw?
    decreases |ms| - i
  {
    if i < |ms| {
      match outs[i]
      case Threw =>
      case GaveUp => CollectThrewIff(st, ms, outs, i + 1);
      case Got(records) => CollectThrewIff(Put(st, ms[i], records), ms, outs, i + 1);
    }
  }

  /** `m` holds the same value, or is equally absent, in both dictionaries. */
  predicate SameEntry(a: map<string, seq<Record>>, b: map<string, seq<Record>>, m: string)
  {
    (m in a <==> m in b) && (m in a ==> a[m] == b[m])
  }

  /** The loop, whether it runs to its end or is cut short by a throw, leaves
      a manufacturer it does not visit as it was. */
  lemma {:induction false} CollectKeepsUnvisited(st: Store, ms: seq<string>, outs: seq<Outcome>, i: nat, m: string)
    requires |outs| == |ms| && i <= |ms|
    requires m !in ms[i..]
    ensures SameEntry(CollectFrom(st, ms, outs, i).store.entries, st.entries, m)
    decreases |ms| - i
  {
    if i < |ms| {
      assert ms[i] != m && ms[i + 1..] == ms[i..][1..];
      match outs[i]
      case Threw =>
      case GaveUp => CollectKeepsUnvisited(st, ms, outs, i + 1, m);
      case Got(records) => CollectKeepsUnvisited(Put(st, ms[i], records), ms, outs, i + 1, m);
    }
  }

  /** In a loop that runs to its end over distinct manufacturers, each one
      fetched successfully holds the response it got, and each one given up on
      keeps the records it held before (or stays absent). */
  lemma {:induction false} CollectOutcomes(st: Store, ms: seq<string>, outs: seq<Outcome>, i: nat, j: nat)
    requires |outs| == |ms| && i <= j < |ms| && NoDuplicates(ms)
    requires !CollectFrom(st, ms, outs, i).threw
    ensures var out := CollectFrom(st, ms, outs, i).store.entries;
      && (outs[j].Got? ==>
            ms[j] in out && out[ms[j]] == outs[j].records)
      && (outs[j].GaveUp? ==> SameEntry(out, st.entries, ms[j]))
    decreases |ms| - i
  {
    var next := match outs[i]
      case Got(records) => Put(st, ms[i], records)
      case _ => st;
    if i < j {
      CollectOutcomes(next, ms, outs, i + 1, j);
      assert SameEntry(next.entries, st.entries, ms[j]);
    } else {
      assert ms[j] !in ms[j + 1..];
      CollectKeepsUnvisited(next, ms, outs, j + 1, ms[j]);
    }
  }

  class Cache {
    /** `manufList`: every manufacturer ever seen, in first-seen order; never cleared. */
    var manufList: seq<string>
    /** `manufAvailbList`: the last good availability response per manufacturer. */
    var manufAvailbList: Store
    /** `availabilities`: lower-cased item id to stock status; never cleared. */
    var availabilities: Index
    var beanies: seq<Item>
    var facemasks: seq<Item>
    var gloves: seq<Item>
    var fetchingItems: bool
    var fetchingAvailabilities: bool
    /** `successfulUpdate`, as a tick that counts completed availability refreshes. */
    var successfulUpdate: nat

    ghost predicate Valid()
      reads this
    {
      && NoDuplicates(manufList)
      && WellFormed(manufAvailbList)
      && (forall m :: m in manufAvailbList.order ==> m in manufList)
      && forall k :: k in availabilities ==> IsLower(k)
    }

    /** The module state as app.js starts it (app.js:12-22); the three
        category variables start as `{}`, modelled as no items. */
    constructor ()
      ensures Valid()
      ensures manufList == [] && manufAvailbList == Store([], map[]) && availabilities == map[]
      ensures beanies == [] && facemasks == [] && gloves == []
      ensures !fetchingItems && !fetchingAvailabilities && successfulUpdate == 0
    {
      manufList := [];
      manufAvailbList := Store([], map[]);
      availabilities := map[];
      beanies, facemasks, gloves := [], [], [];
      fetchingItems, fetchingAvailabilities := false, false;
      successfulUpdate := 0;
    }

    /** `fetchItems` (app.js:24-41) with the three category replies. Each
        category replaces its variable as soon as its reply is read; a reply
        that throws ends the refresh there, with the earlier categories
        replaced and `fetchingItems` left as it was. A complete refresh appends
        the unseen manufacturers to `manufList` and clears `fetchingItems`. */
    method RefreshItems(b: Listing, f: Listing, g: Listing) returns (completed: bool)
      requires Valid()
      modifies this`beanies, this`facemasks, this`gloves, this`manufList, this`fetchingItems
      ensures Valid()
      ensures completed <==> b.Some? && f.Some? && g.Some?
      ensures beanies == if b.Some? then b.value else old(beanies)
      ensures facemasks == if b.Some? && f.Some? then f.value else old(facemasks)
      ensures gloves == if completed then g.value else old(gloves)
      ensures completed ==> manufList == Discover(old(manufList), b.value + f.value + g.value)
      ensures completed ==> !fetchingItems
      ensures !completed ==> manufList == old(manufList) && fetchingItems == old(fetchingItems)
    {
      if b.None? {
        return false;
      }
      beanies := b.value;
      if f.None? {
        return false;
      }
      facemasks := f.value;
      if g.None? {
        return false;
      }
      gloves := g.value;
      DiscoverManufacturers(beanies + facemasks + gloves);
      fetchingItems := false;
      return true;
    }

    /** The scan of app.js:34-37: each item's manufacturer is pushed onto
        `manufList` unless the list already includes it. */
    method DiscoverManufacturers(all: seq<Item>)
      requires Valid()
      modifies this`manufList
      ensures Valid()
      ensures manufList == Discover(old(manufList), all)
    {
      for i := 0 to |all|
        invariant manufList == Discover(old(manufList), all[..i])
        invariant NoDuplicates(manufList) && old(manufList) <= manufList
      {
        assert all[..i + 1][..i] == all[..i];
        var manufacturer := all[i].manufacturer;
        if manufacturer !in manufList {
          manufList := manufList + [manufacturer];
        }
      }
      assert all[..|all|] == all;
    }

    /** The fetch loop of `fetchAvailabilities` (app.js:44-67), one feed per
        manufacturer of `manufList`; `threw` says a fetch threw and ended the
        refresh. */
    method FetchAll(feeds: seq<seq<Reply>>) returns (threw: bool)
      requires Valid() && |feeds| == |manufList| && Fed(feeds)
      modifies this`manufAvailbList
      ensures Valid()
      ensures manufAvailbList == CollectFrom(old(manufAvailbList), manufList, Outcomes(feeds), 0).store
      ensures threw == CollectFrom(old(manufAvailbList), manufList, Outcomes(feeds), 0).threw
    {
      ghost var outs := Outcomes(feeds);
      CollectKeepsStore(manufAvailbList, manufList, outs, 0);
      var i := 0;
      while i < |manufList|
        invariant 0 <= i <= |manufList|
        invariant CollectFrom(manufAvailbList, manufList, outs, i) == CollectFrom(old(manufAvailbList), manufList, outs, 0)
      {
        var manufacturer := manufList[i];
        var fetch := FetchAvailability(feeds[i]);
        assert fetch.outcome == outs[i];
        match fetch.outcome {
          case Threw =>
            return true;
          case GaveUp =>
          case Got(records) =>
            manufAvailbList := Put(manufAvailbList, manufacturer, records);
        }
        i := i + 1;
      }
      return false;
    }

    /** The index pass of `fetchAvailabilities` (app.js:69-78): the stored
        responses, in key order, written into `availabilities`; `done` is false
        when a payload without a start tag threw. A stored response is always
        a list, and a list is never falsy, so the `!json` guard never skips. */
    method IndexPass() returns (done: bool)
      requires Valid()
      modifies this`availabilities
      ensures Valid()
      ensures var p := Apply(old(availabilities), Flatten(Entries(manufAvailbList)), Extract);
        availabilities == p.index && done == p.Done?
    {
      ghost var es := Entries(manufAvailbList);
      ghost var all := Flatten(es);
      ApplyMergesLowerCased(availabilities, all, Extract);
      var order := manufAvailbList.order;
      assert es[0..] == es;
      var i := 0;
      while i < |order|
        invariant 0 <= i <= |order|
        invariant Apply(old(availabilities), all, Extract) == Apply(availabilities, Flatten(es[i..]), Extract)
      {
        var json := manufAvailbList.entries[order[i]];
        FlattenFrom(es, i);
        var complete := IndexResponse(json, Flatten(es[i + 1..]));
        if !complete {
          return false;
        }
        i := i + 1;
      }
      assert es[i..] == [];
      return true;
    }

    /** The inner loop of the index pass (app.js:72-77) over one stored
        response `json`, followed in the pass by the records `later`: it either
        writes every record of `json` or stops at the first payload without a
        start tag, as the pass over `json + later` does. */
    method IndexResponse(json: seq<Record>, ghost later: seq<Record>) returns (done: bool)
      modifies this`availabilities
      ensures Apply(old(availabilities), json + later, Extract) ==
        if done then Apply(availabilities, later, Extract) else Pass.Threw(availabilities)
    {
      assert json[0..] == json;
      var j := 0;
      while j < |json|
        invariant 0 <= j <= |json|
        invariant Apply(old(availabilities), json + later, Extract) == Apply(availabilities, json[j..] + later, Extract)
      {
        var item := json[j];
        ghost var rest := json[j + 1..] + later;
        assert json[j..] + later == [item] + rest;
        ApplyStep(availabilities, item, rest, Extract);
        var extracted := Extract(item.payload);
        if extracted.MissingStartTag? {
          return false;
        }
        availabilities := availabilities[Key(item) := extracted.stock];
        j := j + 1;
      }
      assert json[j..] + later == later;
      return true;
    }

    /** `fetchAvailabilities` (app.js:43-82). A throw, in a fetch or in the
        index pass, ends the refresh with `fetchingAvailabilities` and
        `successfulUpdate` as they were; only a complete refresh clears the flag
        and advances the timestamp. */
    method RefreshAvailabilities(feeds: seq<seq<Reply>>) returns (completed: bool)
      requires Valid() && |feeds| == |manufList| && Fed(feeds)
      modifies this`manufAvailbList, this`availabilities, this`fetchingAvailabilities, this`successfulUpdate
      ensures Valid()
      ensures var c := CollectFrom(old(manufAvailbList), manufList, Outcomes(feeds), 0);
        && manufAvailbList == c.store
        && (c.threw ==> !completed && availabilities == old(availabilities))
        && (!c.threw ==>
              var p := Apply(old(availabilities), Flatten(Entries(manufAvailbList)), Extract);
              availabilities == p.index && completed == p.Done?)
      ensures completed ==> !fetchingAvailabilities && successfulUpdate == old(successfulUpdate) + 1
      ensures !completed ==>
        fetchingAvailabilities == old(fetchingAvailabilities) && successfulUpdate == old(successfulUpdate)
    {
      var threw := FetchAll(feeds);
      if threw {
        return false;
      }
      var done := IndexPass();
      if !done {
        return false;
      }
      fetchingAvailabilities := false;
      successfulUpdate := successfulUpdate + 1;
      return true;
    }

    /** The item half of the guard (app.js:108-111): a refresh starts exactly
        when none is in progress, and the flag is set either way. */
    method TriggerItems() returns (started: bool)
      modifies this`fetchingItems
      ensures started == !old(fetchingItems)
      ensures fetchingItems
    {
      started := !fetchingItems;
      if started {
        fetchingItems := true;
      }
    }

    /** The availability half of the guard (app.js:112-115). */
    method TriggerAvailabilities() returns (started: bool)
      modifies this`fetchingAvailabilities
      ensures started == !old(fetchingAvailabilities)
      ensures fetchingAvailabilities
    {
      started := !fetchingAvailabilities;
      if started {
        fetchingAvailabilities := true;
      }
    }

    /** The guard a page request runs before it renders (app.js:107-115). */
    method OnPageView() returns (itemsStarted: bool, availabilitiesStarted: bool)
      modifies this`fetchingItems, this`fetchingAvailabilities
      ensures itemsStarted == !old(fetchingItems) && availabilitiesStarted == !old(fetchingAvailabilities)
      ensures fetchingItems && fetchingAvailabilities
    {
      itemsStarted := TriggerItems();
      availabilitiesStarted := TriggerAvailabilities();
    }
  }

  /** Single flight: two page views with no refresh completing in between start
      each kind of refresh at most once, and the second view starts nothing. */
  method TwoPageViews(c: Cache) returns (first: (bool, bool), second: (bool, bool))
    modifies c`fetchingItems, c`fetchingAvailabilities
    ensures first == (!old(c.fetchingItems), !old(c.fetchingAvailabilities))
    ensures second == (false, false)
    ensures c.fetchingItems && c.fetchingAvailabilities
  {
    var a, b := c.OnPageView();
    first := (a, b);
    a, b := c.OnPageView();
    second := (a, b);
  }
}
