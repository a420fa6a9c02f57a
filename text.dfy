/** The two JavaScript string operations the refresh cache relies on:
    `String.prototype.split` (only its first two parts are ever used) and
    `String.prototype.toLowerCase`. */
module Text {
  import opened Upstream

  /** `t` occurs in `s` starting at index `i`. */
  predicate OccursAt(s: string, t: string, i: nat)
  {
    i + |t| <= |s| && s[i..i + |t|] == t
  }

  /** `t` occurs in `s` somewhere. */
  predicate Contains(s: string, t: string)
  {
    exists i: nat :: i <= |s| && OccursAt(s, t, i)
  }

  /** No occurrence of `t` in `s` starts before index `n`. */
  predicate NoneBefore(s: string, t: string, n: nat)
  {
    forall i: nat :: i < n ==> !OccursAt(s, t, i)
  }

  /** `t[k..]` matches `s` from index `i + k` on, compared character by
      character. */
  predicate MatchesFrom(s: string, t: string, i: nat, k: nat)
    requires i + |t| <= |s| && k <= |t|
    decreases |t| - k
  {
    k == |t| || (s[i + k] == t[k] && MatchesFrom(s, t, i, k + 1))
  }

  lemma {:induction false} MatchesFromMeaning(s: string, t: string, i: nat, k: nat)
    requires i + |t| <= |s| && k <= |t|
    ensures MatchesFrom(s, t, i, k) <==> s[i + k..i + |t|] == t[k..]
    decreases |t| - k
  {
    if k < |t| {
      MatchesFromMeaning(s, t, i, k + 1);
      assert s[i + k..i + |t|] == [s[i + k]] + s[i + k + 1..i + |t|];
      assert t[k..] == [t[k]] + t[k + 1..];
    }
  }

  /** The first index at or after `from` where `t` occurs in `s`. */
  function FindFrom(s: string, t: string, from: nat): (r: Option<nat>)
    requires from <= |s|
    ensures r.Some? ==> from <= r.value && r.value + |t| <= |s|
    decreases |s| - from
  {
    if from + |t| > |s| then None
    else if MatchesFrom(s, t, from, 0) then Some(from)
    else if from == |s| then None
    else FindFrom(s, t, from + 1)
  }

  /** `FindFrom` finds the first occurrence at or after `from`, and finds none
      only when there is none. */
  lemma {:induction false} FindFromMeaning(s: string, t: string, from: nat)
    requires from <= |s|
    ensures var r := FindFrom(s, t, from);
      && (r.Some? ==> OccursAt(s, t, r.value))
      && (r.Some? ==> forall i: nat :: from <= i < r.value ==> !OccursAt(s, t, i))
      && (r.None? ==> forall i: nat :: from <= i ==> !OccursAt(s, t, i))
    decreases |s| - from
  {
    if from + |t| <= |s| {
      MatchesFromMeaning(s, t, from, 0);
      if !MatchesFrom(s, t, from, 0) && from < |s| {
        FindFromMeaning(s, t, from + 1);
      }
    }
  }

  /** The first index where `t` occurs in `s`, like `indexOf` with -1 as `None`. */
  function Find(s: string, t: string): (r: Option<nat>)
    ensures r.Some? ==> r.value + |t| <= |s|
  {
    FindFrom(s, t, 0)
  }

  /** `Find` yields the first occurrence, and yields one whenever there is one. */
  lemma FindMeaning(s: string, t: string)
    ensures Find(s, t).Some? <==> Contains(s, t)
    ensures Find(s, t).Some? ==> OccursAt(s, t, Find(s, t).value) && NoneBefore(s, t, Find(s, t).value)
  {
    FindFromMeaning(s, t, 0);
  }

  /** `s.split(sep)[0]`: the text before the first separator, or all of `s`. */
  function SplitFirst(s: string, sep: string): (r: string)
    requires |sep| > 0
    ensures |r| <= |s|
  {
    match Find(s, sep)
    case None => s
    case Some(k) => s[..k]
  }

  /** The first part is a prefix of `s` that no separator starts inside and
      that ends where `s` ends or a separator starts; it is all of `s` exactly
      when `s` has no separator. */
  lemma SplitFirstMeaning(s: string, sep: string)
    requires |sep| > 0
    ensures var r := SplitFirst(s, sep);
      && r == s[..|r|]
      && NoneBefore(s, sep, |r|)
      && (r == s || OccursAt(s, sep, |r|))
      && (r == s <==> !Contains(s, sep))
  {
    FindMeaning(s, sep);
  }

  /** `s.split(sep)[1]`: the text between the first and the second separator
      (or the end of `s`); `None` stands for JavaScript's `undefined`, which is
      what indexing past the single part of a separator-free string yields. */
  function SplitSecond(s: string, sep: string): (r: Option<string>)
    requires |sep| > 0
  {
    match Find(s, sep)
    case None => None
    case Some(k) => Some(SplitFirst(s[k + |sep|..], sep))
  }

  /** The second part exists exactly when `s` has a separator; it is the first
      part of what follows the first separator. */
  lemma SplitSecondMeaning(s: string, sep: string)
    requires |sep| > 0
    ensures SplitSecond(s, sep).None? <==> !Contains(s, sep)
    ensures SplitSecond(s, sep).Some? ==>
      var r := SplitSecond(s, sep).value;
      var rest := s[Find(s, sep).value + |sep|..];
      && |r| <= |rest| && r == rest[..|r|]
      && NoneBefore(rest, sep, |r|)
      && (r == rest || OccursAt(rest, sep, |r|))
  {
    FindMeaning(s, sep);
    if Contains(s, sep) {
      SplitFirstMeaning(s[Find(s, sep).value + |sep|..], sep);
    }
  }

  predicate IsUpper(c: char)
  {
    'A' <= c <= 'Z'
  }

  /** Lower-casing of one character; only the ASCII letters are mapped. */
  function LowerChar(c: char): (r: char)
    ensures !IsUpper(r)
    ensures IsUpper(c) ==> r as int == c as int + 32
    ensures !IsUpper(c) ==> r == c
  {
    if IsUpper(c) then (c as int + 32) as char else c
  }

  /** `s.toLowerCase()`, for ASCII letters: the result has no upper-case
      letter, each upper-case letter becomes its lower-case letter in place, and
      every other character is kept. */
  function ToLower(s: string): (r: string)
    ensures |r| == |s| && IsLower(r)
    ensures forall i :: 0 <= i < |s| && IsUpper(s[i]) ==> r[i] as int == s[i] as int + 32
    ensures forall i :: 0 <= i < |s| && !IsUpper(s[i]) ==> r[i] == s[i]
  {
    seq(|s|, i requires 0 <= i < |s| => LowerChar(s[i]))
  }

  /** The lower-cased string has no upper-case letter left. */
  predicate IsLower(s: string)
  {
    forall i :: 0 <= i < |s| ==> !IsUpper(s[i])
  }

  lemma ToLowerIsLower(s: string)
    ensures IsLower(ToLower(s))
    ensures ToLower(ToLower(s)) == ToLower(s)
  {
  }

  /** A string without upper-case letters is its own lower-cased form. */
  lemma LowerIsFixedPoint(s: string)
    requires IsLower(s)
    ensures ToLower(s) == s
  {
  }

  /** An occurrence of `t` in `x + y` that starts inside `x` lies either wholly
      inside `x` or ends inside `y`, where its last character is found. */
  lemma OccursInConcat(x: string, y: string, t: string, i: nat)
    requires OccursAt(x + y, t, i) && i < |x|
    ensures i + |t| <= |x| ==> OccursAt(x, t, i)
    ensures i + |t| > |x| ==> y[i + |t| - 1 - |x|] == t[|t| - 1]
  {
    if i + |t| <= |x| {
      assert (x + y)[i..i + |t|] == x[i..i + |t|];
    } else {
      assert (x + y)[i..i + |t|][|t| - 1] == t[|t| - 1];
    }
  }

  /** An occurrence at `i` in `x` is an occurrence at `i` in any extension of `x`. */
  lemma OccursInPrefix(x: string, y: string, t: string, i: nat)
    requires OccursAt(x, t, i)
    ensures OccursAt(x + y, t, i)
  {
    assert (x + y)[i..i + |t|] == x[i..i + |t|];
  }
}
