/** Extraction of the stock-status token from an availability record's
    DATAPAYLOAD: `payload.split(START)[1].split(END)[0]` (app.js:73-75). */
module Payload {
  import opened Upstream
  import opened Text

  const START_TAG: string := "<INSTOCKVALUE>"
  const END_TAG: string := "</INSTOCKVALUE>"

  /** The result of the two splits: the token, or the TypeError thrown by
      `undefined.split` when the payload has no start tag. */
  datatype Extracted = Value(stock: string) | MissingStartTag

  /** `payload.split(START_TAG)[1].split(END_TAG)[0]`, with the TypeError of a
      payload that has no start tag; what it yields is stated by
      `ExtractMeaning`. */
  function Extract(payload: string): Extracted
  {
    match SplitSecond(payload, START_TAG)
    case None => MissingStartTag
    case Some(middle) => Value(SplitFirst(middle, END_TAG))
  }

  /** The token is the text after the first start tag, up to the next start tag
      or the first end tag, whichever comes first, or to the end of the payload
      when neither follows. A payload without a start tag fails; a missing end
      tag does not. */
  lemma ExtractMeaning(payload: string)
    ensures Extract(payload).MissingStartTag? <==> !Contains(payload, START_TAG)
    ensures Extract(payload).Value? ==>
      var rest := payload[Find(payload, START_TAG).value + |START_TAG|..];
      var stock := Extract(payload).stock;
      var n := |stock|;
      && n <= |rest| && stock == rest[..n]
      && NoneBefore(rest, START_TAG, n) && NoneBefore(rest, END_TAG, n)
      && (n == |rest| || OccursAt(rest, START_TAG, n) || OccursAt(rest, END_TAG, n))
  {
    SplitSecondMeaning(payload, START_TAG);
    if Contains(payload, START_TAG) {
      var middle := SplitSecond(payload, START_TAG).value;
      var stock := SplitFirst(middle, END_TAG);
      SplitFirstMeaning(middle, END_TAG);
      var rest := payload[Find(payload, START_TAG).value + |START_TAG|..];
      assert middle == rest[..|middle|];
      assert stock == rest[..|stock|];
      forall i: nat | i < |stock| ensures !OccursAt(rest, END_TAG, i) {
        if OccursAt(rest, END_TAG, i) {
          EndTagInsideSegment(rest, middle, i);
        }
      }
    }
  }

  /** The character '>' closes both tags and occurs nowhere else in them, and
      '<' occurs in the end tag only at its head. */
  lemma TagShapes()
    ensures START_TAG[0] == '<'
    ensures forall j :: 0 <= j < |START_TAG| - 1 ==> START_TAG[j] != '>'
    ensures forall j :: 0 <= j < |END_TAG| - 1 ==> END_TAG[j] != '>'
    ensures forall j :: 1 <= j < |END_TAG| ==> END_TAG[j] != '<'
  {
  }

  /** Inside an occurrence of the end tag, '<' is found only at its head. */
  lemma EndTagOpensOnce(s: string, i: nat)
    requires OccursAt(s, END_TAG, i)
    ensures forall p :: i < p < i + |END_TAG| ==> s[p] != '<'
  {
    TagShapes();
    forall p | i < p < i + |END_TAG| ensures s[p] != '<' {
      assert s[p] == s[i..i + |END_TAG|][p - i];
    }
  }

  /** An end tag that starts before the first start tag of `rest` cannot reach
      into it, because that start tag begins with '<'; so it lies inside the
      segment before the start tag. */
  lemma EndTagInsideSegment(rest: string, middle: string, i: nat)
    requires |middle| <= |rest| && middle == rest[..|middle|]
    requires middle == rest || OccursAt(rest, START_TAG, |middle|)
    requires i < |middle| && OccursAt(rest, END_TAG, i)
    ensures OccursAt(middle, END_TAG, i)
  {
    TagShapes();
    EndTagOpensOnce(rest, i);
    assert middle != rest ==> rest[|middle|] == rest[|middle|..|middle| + |START_TAG|][0] == '<';
    assert i + |END_TAG| <= |middle|;
    assert middle[i..i + |END_TAG|] == rest[i..i + |END_TAG|];
  }

  /** When `t` ends with '>' and `y` has no '>' within its first `|t| - 1`
      characters, no occurrence of `t` in `x + y` starts inside `x` unless `x`
      already contains `t`. */
  lemma NoOccurrenceInside(x: string, y: string, t: string)
    requires |t| > 0 && t[|t| - 1] == '>' && !Contains(x, t)
    requires forall j :: 0 <= j < |y| && j < |t| - 1 ==> y[j] != '>'
    ensures NoneBefore(x + y, t, |x|)
  {
    forall i: nat | i < |x| ensures !OccursAt(x + y, t, i) {
      if OccursAt(x + y, t, i) {
        OccursInConcat(x, y, t, i);
      }
    }
  }

  /** A tag followed by anything has no '>' before the tag's last character. */
  lemma TagThenAnything(tag: string, z: string)
    requires tag == START_TAG || tag == END_TAG
    ensures forall j :: 0 <= j < |tag + z| && j < |tag| - 1 ==> (tag + z)[j] != '>'
    ensures forall j :: 0 <= j < |tag + z| && j < |START_TAG| - 1 ==> (tag + z)[j] != '>'
  {
    TagShapes();
  }

  /** The first occurrence of `t` is at `k` exactly when `t` occurs at `k` and
      nowhere before. */
  lemma FindIs(s: string, t: string, k: nat)
    requires OccursAt(s, t, k) && NoneBefore(s, t, k)
    ensures Find(s, t) == Some(k)
  {
    assert k <= |s|;
    FindMeaning(s, t);
    var r := Find(s, t);
    assert r.Some?;
    assert !(r.value < k);
    assert !(k < r.value);
  }

  /** After a prefix without a start tag, the first start tag is the one
      that follows the prefix. */
  lemma FirstStartTag(p: string, rest: string)
    requires !Contains(p, START_TAG)
    ensures Find(p + (START_TAG + rest), START_TAG) == Some(|p|)
  {
    TagThenAnything(START_TAG, rest);
    NoOccurrenceInside(p, START_TAG + rest, START_TAG);
    assert (p + (START_TAG + rest))[|p|..|p| + |START_TAG|] == START_TAG;
    FindIs(p + (START_TAG + rest), START_TAG, |p|);
  }

  /** A prefix of `v + END_TAG + s` that no tag starts inside and that ends
      where the text ends or a tag starts is `v` itself. */
  lemma SegmentIsToken(v: string, s: string, n: nat)
    requires !Contains(v, START_TAG) && !Contains(v, END_TAG)
    requires n <= |v + (END_TAG + s)|
    requires NoneBefore(v + (END_TAG + s), END_TAG, n)
    requires n == |v + (END_TAG + s)| || OccursAt(v + (END_TAG + s), START_TAG, n)
      || OccursAt(v + (END_TAG + s), END_TAG, n)
    ensures n == |v|
  {
    var rest := v + (END_TAG + s);
    TagThenAnything(END_TAG, s);
    NoOccurrenceInside(v, END_TAG + s, START_TAG);
    NoOccurrenceInside(v, END_TAG + s, END_TAG);
    assert rest[|v|..|v| + |END_TAG|] == END_TAG;
    assert OccursAt(rest, END_TAG, |v|);
  }

  /** Round trip: wrapping a token `v` that holds neither tag in a start and an
      end tag, after any prefix without a start tag and before any suffix,
      extracts `v` again. */
  lemma ExtractRoundTrip(p: string, v: string, s: string)
    requires !Contains(p, START_TAG)
    requires !Contains(v, START_TAG) && !Contains(v, END_TAG)
    ensures Extract(p + START_TAG + v + END_TAG + s) == Value(v)
  {
    var rest := v + (END_TAG + s);
    var payload := p + (START_TAG + rest);
    assert p + START_TAG + v + END_TAG + s == payload;
    FirstStartTag(p, rest);
    assert payload[|p| + |START_TAG|..] == rest;
    var r := Extract(payload);
    ExtractMeaning(payload);
    SegmentIsToken(v, s, |r.stock|);
    assert r.stock == rest[..|v|] == v;
  }

  /** A missing end tag is not an error: the whole remainder after the start
      tag is the token. */
  lemma ExtractWithoutEndTag(p: string, v: string)
    requires !Contains(p, START_TAG)
    requires !Contains(v, START_TAG) && !Contains(v, END_TAG)
    ensures Extract(p + START_TAG + v) == Value(v)
  {
    assert p + START_TAG + v == p + (START_TAG + v);
    FirstStartTag(p, v);
    assert (p + (START_TAG + v))[|p| + |START_TAG|..] == v;
    ExtractMeaning(p + (START_TAG + v));
  }
}
