/** The index pass (app.js:69-78): every record of every stored manufacturer
    response, in order, writes its extracted stock status under its lower-cased
    identifier into the `availabilities` dictionary. The dictionary is merged
    into, never cleared, and a payload without a start tag throws out of the
    pass, leaving the writes made before it in place.

    The pass is stated for any extraction function `extract`; the refresh cache
    runs it with `Payload.Extract`. Keeping the extraction a parameter keeps
    the lemmas below about the pass alone. */
module AvailabilityIndex {
  import opened Upstream
  import opened Text
  import opened Payload

  type Index = map<string, string>

  type Extractor = string -> Extracted

  /** The dictionary after the pass, and whether the pass ran to its end or
      stopped at a throw. */
  datatype Pass = Done(index: Index) | Threw(index: Index)

  /** The key a record writes: `item.id.toLowerCase()`. */
  function Key(r: Record): string
  {
    ToLower(r.id)
  }

  /** Every record's payload has a start tag. */
  predicate AllExtractable(recs: seq<Record>, extract: Extractor)
  {
    forall j :: 0 <= j < |recs| ==> extract(recs[j].payload).Value?
  }

  /** No record after position `j` writes the key record `j` writes. */
  predicate LastWriter(recs: seq<Record>, j: nat)
    requires j < |recs|
  {
    forall j' :: j < j' < |recs| ==> Key(recs[j']) != Key(recs[j])
  }

  /** No record writes key `k`. */
  predicate Untouched(recs: seq<Record>, k: string)
  {
    forall j :: 0 <= j < |recs| ==> Key(recs[j]) != k
  }

  /** The records visited in turn, each written into `index`. */
  function Apply(index: Index, recs: seq<Record>, extract: Extractor): Pass
    decreases |recs|
  {
    if recs == [] then Done(index)
    else
      match extract(recs[0].payload)
      case MissingStartTag => Threw(index)
      case Value(v) => Apply(index[Key(recs[0]) := v], recs[1..], extract)
  }

  /** The records of all entries, entry after entry. */
  function Flatten(entries: seq<seq<Record>>): seq<Record>
  {
    if entries == [] then [] else entries[0] + Flatten(entries[1..])
  }

  /** The flattened records are exactly the records of the entries. */
  lemma {:induction false} FlattenMembers(entries: seq<seq<Record>>)
    ensures forall i, r :: 0 <= i < |entries| && r in entries[i] ==> r in Flatten(entries)
    ensures forall r :: r in Flatten(entries) ==> exists i :: 0 <= i < |entries| && r in entries[i]
  {
    if entries != [] {
      FlattenMembers(entries[1..]);
      forall r | r in Flatten(entries)
        ensures exists i :: 0 <= i < |entries| && r in entries[i]
      {
        if r !in entries[0] {
          assert r in Flatten(entries[1..]);
          var i :| 0 <= i < |entries[1..]| && r in entries[1..][i];
          assert r in entries[i + 1];
        }
      }
      forall i, r | 0 <= i < |entries| && r in entries[i]
        ensures r in Flatten(entries)
      {
        if i > 0 {
          assert r in entries[1..][i - 1];
        }
      }
    }
  }

  /** The entries from `i` on flatten to entry `i` followed by the rest. */
  lemma FlattenFrom(entries: seq<seq<Record>>, i: nat)
    requires i < |entries|
    ensures Flatten(entries[i..]) == entries[i] + Flatten(entries[i + 1..])
  {
    assert entries[i..][1..] == entries[i + 1..];
  }

  /** One step of the pass: the first record either throws or is written. */
  lemma ApplyStep(index: Index, r: Record, rest: seq<Record>, extract: Extractor)
    ensures extract(r.payload).MissingStartTag? ==> Apply(index, [r] + rest, extract) == Threw(index)
    ensures extract(r.payload).Value? ==>
      Apply(index, [r] + rest, extract) == Apply(index[Key(r) := extract(r.payload).stock], rest, extract)
  {
    assert ([r] + rest)[0] == r && ([r] + rest)[1..] == rest;
  }

  /** Dropping the first record keeps the rest extractable. */
  lemma TailExtractable(recs: seq<Record>, extract: Extractor)
    requires recs != [] && AllExtractable(recs, extract)
    ensures AllExtractable(recs[1..], extract)
  {
    forall j | 0 <= j < |recs| - 1 ensures extract(recs[1..][j].payload).Value? {
      assert recs[1..][j] == recs[j + 1];
    }
  }

  /** The pass runs to its end exactly when every payload has a start tag. */
  lemma {:induction false} ApplyDoneIff(index: Index, recs: seq<Record>, extract: Extractor)
    ensures Apply(index, recs, extract).Done? <==> AllExtractable(recs, extract)
    decreases |recs|
  {
    if recs != [] {
      match extract(recs[0].payload)
      case MissingStartTag =>
      case Value(v) =>
        var tail := recs[1..];
        ApplyDoneIff(index[Key(recs[0]) := v], tail, extract);
        if AllExtractable(tail, extract) {
          forall j | 0 <= j < |recs| ensures extract(recs[j].payload).Value? {
            if j > 0 {
              assert recs[j] == tail[j - 1];
            }
          }
        } else if AllExtractable(recs, extract) {
          TailExtractable(recs, extract);
        }
    }
  }

  /** After a complete pass the keys are the old keys plus every record's key. */
  lemma {:induction false} ApplyKeys(index: Index, recs: seq<Record>, extract: Extractor)
    requires AllExtractable(recs, extract)
    ensures Apply(index, recs, extract).Done?
    ensures forall k :: k in Apply(index, recs, extract).index <==> k in index || !Untouched(recs, k)
    decreases |recs|
  {
    if recs != [] {
      var tail := recs[1..];
      TailExtractable(recs, extract);
      ApplyKeys(index[Key(recs[0]) := extract(recs[0].payload).stock], tail, extract);
      forall k ensures !Untouched(recs, k) <==> Key(recs[0]) == k || !Untouched(tail, k) {
        if !Untouched(recs, k) {
          var j :| 0 <= j < |recs| && Key(recs[j]) == k;
          if j > 0 {
            assert Key(tail[j - 1]) == k;
          }
        }
        if !Untouched(tail, k) {
          var j :| 0 <= j < |tail| && Key(tail[j]) == k;
          assert Key(recs[j + 1]) == k;
        }
      }
    }
  }

  /** A key that no record writes keeps its old value through a complete pass. */
  lemma {:induction false} ApplyKeepsUntouched(index: Index, recs: seq<Record>, extract: Extractor, k: string)
    requires AllExtractable(recs, extract) && k in index && Untouched(recs, k)
    ensures Apply(index, recs, extract).Done?
    ensures k in Apply(index, recs, extract).index && Apply(index, recs, extract).index[k] == index[k]
    decreases |recs|
  {
    if recs != [] {
      var tail := recs[1..];
      TailExtractable(recs, extract);
      assert Key(recs[0]) != k;
      assert Untouched(tail, k) by {
        forall i | 0 <= i < |tail| ensures Key(tail[i]) != k {
          assert tail[i] == recs[i + 1];
        }
      }
      ApplyKeepsUntouched(index[Key(recs[0]) := extract(recs[0].payload).stock], tail, extract, k);
    }
  }

  /** The last record writing a key decides its value after a complete pass. */
  lemma {:induction false} ApplyLastWriter(index: Index, recs: seq<Record>, extract: Extractor, j: nat)
    requires AllExtractable(recs, extract) && j < |recs| && LastWriter(recs, j)
    ensures Apply(index, recs, extract).Done?
    ensures Key(recs[j]) in Apply(index, recs, extract).index
    ensures Apply(index, recs, extract).index[Key(recs[j])] == extract(recs[j].payload).stock
    decreases |recs|
  {
    var tail := recs[1..];
    TailExtractable(recs, extract);
    var next := index[Key(recs[0]) := extract(recs[0].payload).stock];
    if j == 0 {
      assert Untouched(tail, Key(recs[0])) by {
        forall i | 0 <= i < |tail| ensures Key(tail[i]) != Key(recs[0]) {
          assert tail[i] == recs[i + 1];
        }
      }
      ApplyKeepsUntouched(next, tail, extract, Key(recs[0]));
    } else {
      assert recs[j] == tail[j - 1];
      assert LastWriter(tail, j - 1) by {
        forall i | j - 1 < i < |tail| ensures Key(tail[i]) != Key(tail[j - 1]) {
          assert tail[i] == recs[i + 1];
        }
      }
      ApplyLastWriter(next, tail, extract, j - 1);
    }
  }

  /** Last writer wins, and the dictionary is merged into: after a complete
      pass, the keys are the old keys plus every record's key; a key some record
      writes holds the value of the last record writing it; a key no record
      writes keeps its old value. */
  lemma ApplyLastWriterWins(index: Index, recs: seq<Record>, extract: Extractor)
    requires AllExtractable(recs, extract)
    ensures Apply(index, recs, extract).Done?
    ensures var out := Apply(index, recs, extract).index;
      && (forall k :: k in out <==> k in index || !Untouched(recs, k))
      && (forall j :: 0 <= j < |recs| && LastWriter(recs, j) ==>
            Key(recs[j]) in out && out[Key(recs[j])] == extract(recs[j].payload).stock)
      && (forall k :: k in index && Untouched(recs, k) ==> out[k] == index[k])
  {
    ApplyKeys(index, recs, extract);
    forall j | 0 <= j < |recs| && LastWriter(recs, j)
      ensures Apply(index, recs, extract).index[Key(recs[j])] == extract(recs[j].payload).stock
    {
      ApplyLastWriter(index, recs, extract, j);
    }
    forall k | k in index && Untouched(recs, k)
      ensures Apply(index, recs, extract).index[k] == index[k]
    {
      ApplyKeepsUntouched(index, recs, extract, k);
    }
  }

  /** A pass that meets a payload without a start tag stops there, with the
      writes of the records before it made. */
  lemma {:induction false} ApplyThrowsAtFirstBad(index: Index, recs: seq<Record>, extract: Extractor, f: nat)
    requires f < |recs| && extract(recs[f].payload).MissingStartTag?
    requires forall j :: 0 <= j < f ==> extract(recs[j].payload).Value?
    ensures Apply(index, recs[..f], extract).Done?
    ensures Apply(index, recs, extract) == Threw(Apply(index, recs[..f], extract).index)
    decreases f
  {
    if f > 0 {
      var v := extract(recs[0].payload).stock;
      var tail := recs[1..];
      forall j | 0 <= j < f - 1 ensures extract(tail[j].payload).Value? {
        assert tail[j] == recs[j + 1];
      }
      ApplyThrowsAtFirstBad(index[Key(recs[0]) := v], tail, extract, f - 1);
      assert recs[..f][1..] == tail[..f - 1];
    }
  }

  /** Some record is the last one writing a key that some record writes. */
  lemma LastWriterOf(recs: seq<Record>, k: string) returns (j: nat)
    requires !Untouched(recs, k)
    ensures j < |recs| && Key(recs[j]) == k && LastWriter(recs, j)
  {
    var i :| 0 <= i < |recs| && Key(recs[i]) == k;
    j := i;
    while j + 1 < |recs| && !Untouched(recs[j + 1..], k)
      invariant i <= j < |recs| && Key(recs[j]) == k
      decreases |recs| - j
    {
      var d :| 0 <= d < |recs[j + 1..]| && Key(recs[j + 1..][d]) == k;
      j := j + 1 + d;
    }
    forall j' | j < j' < |recs| ensures Key(recs[j']) != k {
      assert recs[j'] == recs[j + 1..][j' - j - 1];
    }
  }

  /** Running the same complete pass twice over the same records leaves the
      dictionary as the first run left it. */
  lemma ApplyIdempotent(index: Index, recs: seq<Record>, extract: Extractor)
    requires AllExtractable(recs, extract)
    ensures Apply(Apply(index, recs, extract).index, recs, extract) == Apply(index, recs, extract)
  {
    ApplyLastWriterWins(index, recs, extract);
    var once := Apply(index, recs, extract).index;
    ApplyLastWriterWins(once, recs, extract);
    var twice := Apply(once, recs, extract).index;
    assert twice.Keys == once.Keys;
    forall k | k in once ensures twice[k] == once[k] {
      if !Untouched(recs, k) {
        var j := LastWriterOf(recs, k);
        assert twice[Key(recs[j])] == extract(recs[j].payload).stock == once[Key(recs[j])];
      }
    }
    assert twice == once;
  }

  /** The pass, complete or not, never removes a key, and every key it adds is
      lower-cased. */
  lemma {:induction false} ApplyMergesLowerCased(index: Index, recs: seq<Record>, extract: Extractor)
    ensures var out := Apply(index, recs, extract).index;
      && index.Keys <= out.Keys
      && forall k :: k in out && k !in index ==> IsLower(k)
    decreases |recs|
  {
    if recs != [] {
      match extract(recs[0].payload)
      case MissingStartTag =>
      case Value(v) =>
        ToLowerIsLower(recs[0].id);
        ApplyMergesLowerCased(index[Key(recs[0]) := v], recs[1..], extract);
    }
  }
}
