/** Splitting at a separator and joining with it, as JavaScript's `split` and `join` do. */
module Splitting {
  /** The first position of `sep` in `s`, or `|s|`. */
  function IndexOf<T(==)>(s: seq<T>, sep: T): (k: nat)
    ensures k <= |s| && sep !in s[..k] && (k < |s| ==> s[k] == sep)
  {
    if s == [] then 0
    else if s[0] == sep then 0
    else
      var k := IndexOf(s[1..], sep) + 1;
      assert s[..k] == [s[0]] + s[1..][..k - 1];
      k
  }

  function Split<T(==)>(s: seq<T>, sep: T): (parts: seq<seq<T>>)
    ensures |parts| >= 1
    decreases |s|
  {
    var k := IndexOf(s, sep);
    if k == |s| then [s] else [s[..k]] + Split(s[k + 1..], sep)
  }

  function Join<T>(parts: seq<seq<T>>, sep: T): (s: seq<T>)
    requires |parts| >= 1
  {
    if |parts| == 1 then parts[0] else parts[0] + [sep] + Join(parts[1..], sep)
  }

  lemma IndexOfUnique<T>(s: seq<T>, sep: T, k: nat)
    requires k <= |s| && sep !in s[..k] && (k < |s| ==> s[k] == sep)
    ensures IndexOf(s, sep) == k
  {
    hide IndexOf;
    var i := IndexOf(s, sep);
    assert i < |s| ==> i >= k;
    assert k < |s| ==> k >= i;
  }

  /** Joining the parts gives the text back, and no part holds the separator. */
  lemma {:induction false} JoinSplit<T>(s: seq<T>, sep: T)
    ensures Join(Split(s, sep), sep) == s
    ensures forall p :: p in Split(s, sep) ==> sep !in p
    decreases |s|
  {
    hide IndexOf;
    var k := IndexOf(s, sep);
    if k == |s| {
      assert s[..k] == s;
    } else {
      JoinSplit(s[k + 1..], sep);
      var rest := Split(s[k + 1..], sep);
      assert ([s[..k]] + rest)[1..] == rest;
      assert s == s[..k] + [sep] + s[k + 1..];
    }
  }

  lemma SplitNone<T>(a: seq<T>, sep: T)
    requires sep !in a
    ensures Split(a, sep) == [a]
  {
    hide IndexOf;
    assert a[..|a|] == a;
    IndexOfUnique(a, sep, |a|);
  }

  lemma SplitFirst<T>(a: seq<T>, rest: seq<T>, sep: T)
    requires sep !in a
    ensures Split(a + [sep] + rest, sep) == [a] + Split(rest, sep)
  {
    hide IndexOf;
    var s, k := a + [sep] + rest, |a|;
    assert s[..k] == a && s[k] == sep;
    IndexOfUnique(s, sep, k);
    assert s[k + 1..] == rest;
  }

  /** Splitting a joined list of separator-free parts gives the parts back. */
  lemma {:induction false} SplitJoin<T>(parts: seq<seq<T>>, sep: T)
    requires |parts| >= 1 && forall p :: p in parts ==> sep !in p
    ensures Split(Join(parts, sep), sep) == parts
  {
    hide Split;
    if |parts| == 1 {
      SplitNone(parts[0], sep);
    } else {
      SplitJoin(parts[1..], sep);
      SplitFirst(parts[0], Join(parts[1..], sep), sep);
    }
  }
}
