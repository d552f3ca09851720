/** Directory scans as the back ends do them: keep the entries that parse, stop
    at a maximum, sort. */
module Listing {

  datatype Option<T> = None | Some(value: T)

  /** The kept entries, in directory order. */
  function Keep<E, T>(view: E -> Option<T>, s: seq<E>): seq<T> {
    if s == [] then []
    else
      var n := |s| - 1;
      Keep(view, s[..n]) + match view(s[n]) case Some(t) => [t] case None => []
  }

  function Take<T>(s: seq<T>, n: nat): (t: seq<T>)
    ensures |t| <= n && t <= s
  {
    if |s| <= n then s else s[..n]
  }

  lemma KeepOne<E, T>(view: E -> Option<T>, e: E)
    ensures Keep(view, [e]) == match view(e) case Some(t) => [t] case None => []
  {
    assert [e][..0] == [] && Keep(view, []) == [];
  }

  /** Entries are judged one by one, in order: the scan of two directories after each
      other is the two scans. */
  lemma {:induction false} KeepAppend<E, T>(view: E -> Option<T>, a: seq<E>, b: seq<E>)
    ensures Keep(view, a + b) == Keep(view, a) + Keep(view, b)
  {
    if b == [] {
      assert a + b == a && Keep(view, a) + [] == Keep(view, a);
    } else {
      var n := |b| - 1;
      var s := a + b;
      KeepAppend(view, a, b[..n]);
      assert s[..|s| - 1] == a + b[..n] && s[|s| - 1] == b[n];
      var last := match view(b[n]) case Some(t) => [t] case None => [];
      assert Keep(view, s) == Keep(view, a + b[..n]) + last;
      assert Keep(view, b) == Keep(view, b[..n]) + last;
    }
  }

  /** What is kept is what some entry gives, and every such thing is kept. */
  lemma {:induction false} KeptIff<E, T>(view: E -> Option<T>, s: seq<E>, t: T)
    ensures t in Keep(view, s) <==> exists e :: e in s && view(e) == Some(t)
  {
    if s != [] {
      var n := |s| - 1;
      KeptIff(view, s[..n], t);
      assert s == s[..n] + [s[n]];
    }
  }

  lemma {:induction false} KeepPrefix<E, T>(view: E -> Option<T>, s: seq<E>, j: nat)
    requires j <= |s|
    ensures Keep(view, s[..j]) <= Keep(view, s)
  {
    if j < |s| {
      var n := |s| - 1;
      KeepPrefix(view, s[..n], j);
      assert s[..n][..j] == s[..j];
    } else {
      assert s[..j] == s;
    }
  }

  /** Reads entries until the directory ends or enough were kept. */
  method Collect<E, T>(view: E -> Option<T>, entries: seq<E>, max: nat) returns (list: seq<T>)
    ensures list == Take(Keep(view, entries), max)
  {
    list := [];
    var j := 0;
    while |list| < max && j < |entries|
      invariant j <= |entries| && |list| <= max
      invariant list == Keep(view, entries[..j])
    {
      assert entries[..j + 1][..j] == entries[..j];
      match view(entries[j]) {
        case Some(t) => list := list + [t];
        case None =>
      }
      j := j + 1;
    }
    KeepPrefix(view, entries, j);
    assert entries[..|entries|] == entries;
  }

  predicate Ascending<T>(key: T -> int, s: seq<T>) {
    forall i, j :: 0 <= i < j < |s| ==> key(s[i]) <= key(s[j])
  }

  function Insert<T>(key: T -> int, x: T, s: seq<T>): (r: seq<T>)
    requires Ascending(key, s)
    ensures Ascending(key, r) && multiset(r) == multiset(s) + multiset{x}
    ensures |r| == |s| + 1
    ensures r[0] == x || (s != [] && r[0] == s[0])
  {
    if s == [] then [x]
    else if key(x) <= key(s[0]) then [x] + s
    else
      assert s == [s[0]] + s[1..];
      [s[0]] + Insert(key, x, s[1..])
  }

  /** Any sort by `key`: ascending, and a permutation of its input. */
  function SortBy<T>(key: T -> int, s: seq<T>): (r: seq<T>)
    ensures Ascending(key, r) && multiset(r) == multiset(s) && |r| == |s|
  {
    if s == [] then []
    else
      assert s == [s[0]] + s[1..];
      Insert(key, s[0], SortBy(key, s[1..]))
  }
}
