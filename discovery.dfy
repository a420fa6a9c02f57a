/** Manufacturer discovery (app.js:34-37): every item of
    `beanies.concat(facemasks, gloves)` is scanned once and its manufacturer is
    pushed onto `manufList` unless `manufList.includes` it already. */
module Discovery {
  import opened Upstream

  predicate NoDuplicates<T(==)>(s: seq<T>)
  {
    forall i, j :: 0 <= i < j < |s| ==> s[i] != s[j]
  }

  /** The manufacturer of each item, in item order. */
  function Manufacturers(items: seq<Item>): (ms: seq<string>)
    ensures |ms| == |items|
    ensures forall i :: 0 <= i < |items| ==> ms[i] == items[i].manufacturer
  {
    seq(|items|, i requires 0 <= i < |items| => items[i].manufacturer)
  }

  /** The position of the first occurrence of `x` in `s`. */
  function FirstIndex<T(==)>(s: seq<T>, x: T): (k: nat)
    requires x in s
    ensures k < |s| && s[k] == x
    ensures forall j :: 0 <= j < k ==> s[j] != x
  {
    if s[0] == x then 0 else 1 + FirstIndex(s[1..], x)
  }

  /** The list `known` after the scan of `items`: one push per item whose
      manufacturer the list does not include yet at that point. */
  function Discover(known: seq<string>, items: seq<Item>): seq<string>
    decreases |items|
  {
    if items == [] then known
    else
      var seen := Discover(known, items[..|items| - 1]);
      var m := items[|items| - 1].manufacturer;
      if m in seen then seen else seen + [m]
  }

  /** The scan keeps the old list as a prefix, appends only manufacturers it did
      not hold, never appends one twice, and ends up holding exactly the old
      entries and the manufacturer of every item. */
  lemma {:induction false} DiscoverAppendsUnseen(known: seq<string>, items: seq<Item>)
    ensures var r := Discover(known, items);
      && |known| <= |r| && r[..|known|] == known
      && (forall x :: x in r <==> x in known || x in Manufacturers(items))
      && (forall j :: |known| <= j < |r| ==> r[j] !in known)
      && NoDuplicates(r[|known|..])
  {
    if items != [] {
      var front := items[..|items| - 1];
      var m := items[|items| - 1].manufacturer;
      DiscoverAppendsUnseen(known, front);
      var seen := Discover(known, front);
      assert Manufacturers(items) == Manufacturers(front) + [m];
      if m !in seen {
        assert (seen + [m])[..|known|] == seen[..|known|];
        assert (seen + [m])[|known|..] == seen[|known|..] + [m];
      }
    }
  }

  /** Starting from a list without duplicates, the scan leaves one without
      duplicates. */
  lemma DiscoverNoDuplicates(known: seq<string>, items: seq<Item>)
    requires NoDuplicates(known)
    ensures NoDuplicates(Discover(known, items))
  {
    DiscoverAppendsUnseen(known, items);
    var r := Discover(known, items);
    forall i, j | 0 <= i < j < |r| ensures r[i] != r[j] {
      if j < |known| {
        assert r[i] == known[i] && r[j] == known[j];
      } else if i < |known| {
        assert r[i] == known[i];
      } else {
        assert r[i] == r[|known|..][i - |known|] && r[j] == r[|known|..][j - |known|];
      }
    }
  }

  /** In a prefix, an element's first occurrence is where it is in the whole. */
  lemma {:induction false} FirstIndexInPrefix<T>(s: seq<T>, n: nat, x: T)
    requires n <= |s| && x in s[..n]
    ensures x in s && FirstIndex(s, x) == FirstIndex(s[..n], x)
  {
    assert s[..n][0] == s[0];
    if s[0] != x {
      assert s[..n] == [s[0]] + s[1..][..n - 1];
      FirstIndexInPrefix(s[1..], n - 1, x);
      assert s[..n][1..] == s[1..][..n - 1];
    }
  }

  /** The appended manufacturers come in first-seen order: one that is appended
      before another has its first item earlier in the scan. */
  lemma {:induction false} DiscoverFirstSeenOrder(known: seq<string>, items: seq<Item>)
    ensures var r := Discover(known, items);
      var ms := Manufacturers(items);
      forall i, j :: |known| <= i < j < |r| ==>
        r[i] in ms && r[j] in ms && FirstIndex(ms, r[i]) < FirstIndex(ms, r[j])
  {
    if items != [] {
      var front := items[..|items| - 1];
      var m := items[|items| - 1].manufacturer;
      var ms, msFront := Manufacturers(items), Manufacturers(front);
      DiscoverFirstSeenOrder(known, front);
      DiscoverAppendsUnseen(known, front);
      var seen := Discover(known, front);
      assert msFront == ms[..|items| - 1];
      var r := Discover(known, items);
      forall i, j | |known| <= i < j < |r|
        ensures r[i] in ms && r[j] in ms && FirstIndex(ms, r[i]) < FirstIndex(ms, r[j])
      {
        assert r[i] == seen[i] && r[i] in msFront;
        FirstIndexInPrefix(ms, |items| - 1, r[i]);
        if j < |seen| {
          assert r[j] == seen[j] && r[j] in msFront;
          FirstIndexInPrefix(ms, |items| - 1, r[j]);
        } else {
          assert r[j] == m && m !in msFront;
          assert ms[|items| - 1] == m;
        }
      }
    }
  }
}
