/**
 * Python's substring test (`sep in s`) and `str.split(sep)` for a non-empty
 * separator: occurrences are found left to right and do not overlap.
 */
module PyStrings {
  import opened Wrappers

  /** `sep` occurs in `s` starting at index `i`. */
  predicate OccursAt(s: string, sep: string, i: int)
  {
    0 <= i && i + |sep| <= |s| && s[i..i + |sep|] == sep
  }

  /** Python's `sep in s`: for a non-empty separator, exactly when `find` succeeds. */
  predicate Contains(s: string, sep: string)
    ensures |sep| > 0 ==> (Contains(s, sep) <==> Find(s, sep, 0).Some?)
  {
    exists i :: 0 <= i <= |s| && OccursAt(s, sep, i)
  }

  /** Python's `s.find(sep, from)`: the first occurrence at or after `from`. */
  function Find(s: string, sep: string, from: nat): (r: Option<nat>)
    requires |sep| > 0 && from <= |s|
    ensures r.Some? ==> from <= r.value && OccursAt(s, sep, r.value)
    ensures r.Some? ==> forall k :: from <= k < r.value ==> !OccursAt(s, sep, k)
    ensures r.None? ==> forall k :: from <= k ==> !OccursAt(s, sep, k)
    decreases |s| - from
  {
    if from + |sep| > |s| then None
    else if s[from..from + |sep|] == sep then Some(from)
    else Find(s, sep, from + 1)
  }

  /**
   * Python's `s.split(sep)`. There is always at least one part, and there are
   * two or more exactly when the separator occurs.
   */
  function Split(s: string, sep: string): (parts: seq<string>)
    requires |sep| > 0
    ensures |parts| >= 1
    ensures |parts| >= 2 <==> Contains(s, sep)
    decreases |s|
  {
    match Find(s, sep, 0)
    case None => [s]
    case Some(i) => [s[..i]] + Split(s[i + |sep|..], sep)
  }

  /** Python's `sep.join(parts)`. */
  function Join(parts: seq<string>, sep: string): (joined: string)
  {
    if parts == [] then ""
    else if |parts| == 1 then parts[0]
    else parts[0] + sep + Join(parts[1..], sep)
  }

  /** An occurrence in a suffix is an occurrence in the whole string, shifted. */
  lemma OccursInSuffix(s: string, sep: string, d: nat, k: int)
    requires d <= |s|
    ensures OccursAt(s[d..], sep, k) <==> 0 <= k && OccursAt(s, sep, k + d)
  {
    if 0 <= k && k + |sep| <= |s| - d {
      assert s[d..][k..k + |sep|] == s[k + d..k + d + |sep|];
    }
  }

  /** An occurrence in a prefix is an occurrence in the whole string. */
  lemma OccursInPrefix(s: string, sep: string, n: nat, k: int)
    requires n <= |s|
    ensures OccursAt(s[..n], sep, k) <==> OccursAt(s, sep, k) && k + |sep| <= n
  {
    if 0 <= k && k + |sep| <= n {
      assert s[..n][k..k + |sep|] == s[k..k + |sep|];
    }
  }

  /** Splitting never loses or adds text: joining the parts gives back `s`. */
  lemma {:induction false} JoinSplit(s: string, sep: string)
    requires |sep| > 0
    ensures Join(Split(s, sep), sep) == s
    decreases |s|
  {
    match Find(s, sep, 0)
    case None =>
    case Some(i) =>
      var head, rest := s[..i], s[i + |sep|..];
      var parts := Split(rest, sep);
      JoinSplit(rest, sep);
      JoinCons(head, parts, sep);
      Reassemble(s, sep, i);
      calc {
        Join(Split(s, sep), sep);
        Join([head] + parts, sep);
        head + sep + Join(parts, sep);
        head + sep + rest;
        s;
      }
  }

  lemma Reassemble(s: string, sep: string, i: int)
    requires OccursAt(s, sep, i)
    ensures s[..i] + sep + s[i + |sep|..] == s
  {
    assert s == s[..i] + s[i..i + |sep|] + s[i + |sep|..];
  }

  lemma JoinCons(head: string, tail: seq<string>, sep: string)
    requires |tail| >= 1
    ensures Join([head] + tail, sep) == head + sep + Join(tail, sep)
  {
    assert ([head] + tail)[1..] == tail;
  }

  /** No part of a split contains the separator. */
  lemma {:induction false} SplitPartsFree(s: string, sep: string)
    requires |sep| > 0
    ensures forall k :: 0 <= k < |Split(s, sep)| ==> !Contains(Split(s, sep)[k], sep)
    decreases |s|
  {
    var parts := Split(s, sep);
    match Find(s, sep, 0)
    case None =>
      forall j | OccursAt(s, sep, j) ensures false {
      }
    case Some(i) =>
      var rest := s[i + |sep|..];
      SplitPartsFree(rest, sep);
      assert parts == [s[..i]] + Split(rest, sep);
      forall j | OccursAt(s[..i], sep, j) ensures false {
        OccursInPrefix(s, sep, i, j);
      }
      forall k | 0 <= k < |parts| ensures !Contains(parts[k], sep) {
        if k > 0 {
          assert parts[k] == Split(rest, sep)[k - 1];
        }
      }
  }
}
