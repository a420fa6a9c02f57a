/** A worked refresh cycle on a fresh cache: two items from manufacturers
    "A" and "B"; "A" answers at once with one record, "B" answers with the
    two-entry failure signature six times in a row (app.js:84-85 run the two
    refreshes once at start-up in this order). */
module Scenario {
  import opened Upstream
  import opened Text
  import opened Payload
  import opened Discovery
  import opened AvailabilityFetcher
  import opened AvailabilityIndex
  import opened RefreshCache

  const ITEM_A := Item("ABC123", "A")
  const ITEM_B := Item("XYZ9", "B")
  const RECORD_A := Record("ABC123", START_TAG + "InStock" + END_TAG)
  const SIGNATURE: Reply := Some([Record("x", "y"), Record("x", "y")])

  /** The scan over the two items finds A, then B. */
  lemma DiscoversBoth()
    ensures Discover([], [ITEM_A, ITEM_B] + [] + []) == ["A", "B"]
  {
    assert [ITEM_A, ITEM_B] + [] + [] == [ITEM_A, ITEM_B];
    assert [ITEM_A, ITEM_B][..1] == [ITEM_A];
    assert [ITEM_A][..0] == [];
    assert Discover([], [ITEM_A]) == ["A"];
    assert "B" !in ["A"];
    assert Discover([], [ITEM_A, ITEM_B]) == ["A", "B"];
  }

  /** A keeps its one good response; B, given up on, is not stored. */
  lemma StoresOnlyA(feeds: seq<seq<Reply>>)
    requires |feeds| == 2 && |feeds[0]| == |feeds[1]| == MAX_ATTEMPTS
    requires feeds[0][0] == Some([RECORD_A])
    requires forall j :: 0 <= j < MAX_ATTEMPTS ==> feeds[1][j] == SIGNATURE
    ensures CollectFrom(Store([], map[]), ["A", "B"], Outcomes(feeds), 0)
      == Collected(Store(["A"], map["A" := [RECORD_A]]), false)
  {
    RetrySucceedsWithinBudget(feeds[0], 0);
    RetryGivesUpAfterSix(feeds[1]);
    assert Outcomes(feeds) == [Got([RECORD_A]), GaveUp];
  }

  /** The index pass over A's record writes its status under "abc123". */
  lemma IndexesA()
    ensures Apply(map[], Flatten(Entries(Store(["A"], map["A" := [RECORD_A]]))), Extract)
      == Done(map["abc123" := "InStock"])
  {
    assert "" + START_TAG + "InStock" + END_TAG + "" == RECORD_A.payload;
    ExtractRoundTrip("", "InStock", "");
    assert ToLower("ABC123") == "abc123";
    assert Entries(Store(["A"], map["A" := [RECORD_A]])) == [[RECORD_A]];
    assert Flatten([[RECORD_A]]) == [RECORD_A];
  }

  /** The availability refresh over A and B, with A's feed answering well at
      once and B's sending the failure signature throughout, completes and
      indexes only A's record. */
  lemma CycleOutcome(feeds: seq<seq<Reply>>)
    requires |feeds| == 2 && |feeds[0]| == |feeds[1]| == MAX_ATTEMPTS
    requires feeds[0][0] == Some([RECORD_A])
    requires forall j :: 0 <= j < MAX_ATTEMPTS ==> feeds[1][j] == SIGNATURE
    ensures Fed(feeds)
    ensures var c := CollectFrom(Store([], map[]), ["A", "B"], Outcomes(feeds), 0);
      && !c.threw
      && Apply(map[], Flatten(Entries(c.store)), Extract) == Done(map["abc123" := "InStock"])
  {
    assert MAX_ATTEMPTS <= |feeds[0]| && MAX_ATTEMPTS <= |feeds[1]|;
    assert Fed(feeds);
    StoresOnlyA(feeds);
    IndexesA();
  }

  /** After the cycle the index maps A's item, lower-cased, to its stock
      status and holds nothing for B; the refresh completed, so the timestamp
      advanced once and the flag is clear. */
  method StartUpCycle() returns (index: Index, tick: nat, busy: bool)
    ensures index == map["abc123" := "InStock"]
    ensures tick == 1 && !busy
  {
    var c := new Cache();
    var itemsDone := c.RefreshItems(Some([ITEM_A, ITEM_B]), Some([]), Some([]));
    DiscoversBoth();
    var good: Reply := Some([RECORD_A]);
    var feeds := [seq(MAX_ATTEMPTS, _ => good), seq(MAX_ATTEMPTS, _ => SIGNATURE)];
    CycleOutcome(feeds);
    var completed := c.RefreshAvailabilities(feeds);
    index, tick, busy := c.availabilities, c.successfulUpdate, c.fetchingAvailabilities;
  }
}
