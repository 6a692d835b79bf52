/** Sequence operations behind the observer and mediator lists: `indexOf`,
    `splice(index, 1)` and `includes`. */
module Seqs {
  import opened Wrappers

  /** No element occurs twice. */
  predicate NoDups<T(==)>(s: seq<T>)
  {
    forall i, j :: 0 <= i < j < |s| ==> s[i] != s[j]
  }

  /** `s.indexOf(x)`: the first index holding `x`, if any. */
  function IndexOf<T(==)>(s: seq<T>, x: T): (r: Option<nat>)
    ensures r.Some? ==> r.value < |s| && s[r.value] == x && x !in s[..r.value]
    ensures r.None? <==> x !in s
    decreases |s|
  {
    if |s| == 0 then None
    else if s[0] == x then Some(0)
    else
      match IndexOf(s[1..], x)
      case Some(i) =>
        assert s[..i + 1] == [s[0]] + s[1..][..i];
        Some(i + 1)
      case None => None
  }

  /** `const i = s.indexOf(x); if (i > -1) s.splice(i, 1);` */
  function RemoveFirst<T(==)>(s: seq<T>, x: T): seq<T>
  {
    match IndexOf(s, x)
    case Some(i) => s[..i] + s[i + 1..]
    case None => s
  }

  /** Removing the first occurrence takes exactly one `x` out of the multiset
      of elements when there is one, and keeps everything else. */
  lemma RemoveFirstSpec<T>(s: seq<T>, x: T)
    ensures x in s ==> multiset(RemoveFirst(s, x)) == multiset(s) - multiset{x}
    ensures x in s ==> |RemoveFirst(s, x)| == |s| - 1
    ensures x !in s ==> RemoveFirst(s, x) == s
  {
    if x in s {
      var i := IndexOf(s, x).value;
      assert s == s[..i] + [s[i]] + s[i + 1..];
    }
  }

  /** A removal keeps the elements before and after the removed one in order. */
  lemma RemoveFirstOrder<T>(s: seq<T>, x: T)
    requires x in s
    ensures var i := IndexOf(s, x).value;
      RemoveFirst(s, x)[..i] == s[..i] && RemoveFirst(s, x)[i..] == s[i + 1..]
  {
  }

  /** In a list without duplicates, removal leaves no copy of `x` and no
      duplicates. */
  lemma RemoveFirstNoDups<T>(s: seq<T>, x: T)
    requires NoDups(s)
    ensures NoDups(RemoveFirst(s, x))
    ensures x !in RemoveFirst(s, x)
  {
    if x in s {
      var i := IndexOf(s, x).value;
      var r := RemoveFirst(s, x);
      assert forall k :: 0 <= k < |r| ==> r[k] == (if k < i then s[k] else s[k + 1]);
    }
  }

  lemma AppendNoDups<T>(s: seq<T>, x: T)
    requires NoDups(s) && x !in s
    ensures NoDups(s + [x])
  {
  }
}
