/** Looking entries up by name: the Go maps that both rate functions and the meminfo parser fill in
    a loop, where a later entry replaces an earlier one of the same name. */
module Join {

  function ByName<T, K(==)>(s: seq<T>, name: T -> K): map<K, T> {
    if s == [] then map[] else
      var last := s[|s| - 1];
      ByName(s[..|s| - 1], name)[name(last) := last]
  }

  lemma ByNameSnoc<T, K>(s: seq<T>, i: nat, name: T -> K)
    requires i < |s|
    ensures ByName(s[..i + 1], name) == ByName(s[..i], name)[name(s[i]) := s[i]]
  {
    assert s[..i + 1][..i] == s[..i];
  }

  /** x is the last entry of s called n. */
  ghost predicate IsLast<T, K>(s: seq<T>, name: T -> K, n: K, x: T) {
    exists i :: 0 <= i < |s| && s[i] == x && name(x) == n && forall j :: i < j < |s| ==> name(s[j]) != n
  }

  lemma {:induction false} ByNameIsLast<T, K>(s: seq<T>, name: T -> K, n: K)
    ensures n in ByName(s, name) <==> exists x :: x in s && name(x) == n
    ensures n in ByName(s, name) ==> IsLast(s, name, n, ByName(s, name)[n])
  {
    if s == [] {
    } else {
      var before, last := s[..|s| - 1], s[|s| - 1];
      ByNameIsLast(before, name, n);
      assert forall x :: x in s <==> x in before || x == last;
      if name(last) != n && n in ByName(before, name) {
        var x := ByName(before, name)[n];
        var i :| 0 <= i < |before| && before[i] == x && name(x) == n
                 && forall j :: i < j < |before| ==> name(before[j]) != n;
        assert s[i] == x && forall j :: i < j < |before| ==> s[j] == before[j];
      }
    }
  }

  lemma {:induction false} ByNameAt<T, K>(s: seq<T>, name: T -> K, i: nat)
    requires i < |s| && forall j :: i < j < |s| ==> name(s[j]) != name(s[i])
    ensures name(s[i]) in ByName(s, name) && ByName(s, name)[name(s[i])] == s[i]
  {
    ByNameIsLast(s, name, name(s[i]));
    assert s[i] in s;
  }

  ghost predicate AtMostOne<T, K>(s: seq<T>, name: T -> K, n: K) {
    forall i, j :: 0 <= i < j < |s| ==> !(name(s[i]) == n && name(s[j]) == n)
  }

  ghost predicate UniqueNames<T, K>(s: seq<T>, name: T -> K) {
    forall i, j :: 0 <= i < j < |s| ==> name(s[i]) != name(s[j])
  }

  lemma SameMembers<T>(s: seq<T>, t: seq<T>)
    requires multiset(s) == multiset(t)
    ensures forall x :: x in s <==> x in t
  {
    forall x ensures x in s <==> x in t {
      assert x in multiset(s) <==> x in multiset(t);
    }
  }

  /** The order of the entries does not matter for a name that occurs at most once. */
  lemma {:induction false} LookupIgnoresOrder<T, K>(s: seq<T>, t: seq<T>, name: T -> K, n: K)
    requires multiset(s) == multiset(t) && AtMostOne(s, name, n)
    ensures n in ByName(s, name) <==> n in ByName(t, name)
    ensures n in ByName(s, name) ==> ByName(s, name)[n] == ByName(t, name)[n]
  {
    SameMembers(s, t);
    ByNameIsLast(s, name, n);
    ByNameIsLast(t, name, n);
    if n in ByName(s, name) {
      var x, y := ByName(s, name)[n], ByName(t, name)[n];
      assert x in s && y in s && name(x) == n && name(y) == n;
    }
  }

  lemma {:induction false} ByNameIgnoresOrder<T, K(!new)>(s: seq<T>, t: seq<T>, name: T -> K)
    requires multiset(s) == multiset(t) && UniqueNames(s, name)
    ensures ByName(s, name) == ByName(t, name)
  {
    var ms, mt := ByName(s, name), ByName(t, name);
    forall n | n in ms || n in mt
      ensures n in ms && n in mt && ms[n] == mt[n]
    {
      LookupIgnoresOrder(s, t, name, n);
    }
    assert ms.Keys == mt.Keys;
  }

  /** A value for exactly the names in both samples, from the last entry of that name in each. */
  function Joined<T, K(==), R>(prev: seq<T>, cur: seq<T>, name: T -> K, rate: (T, T) -> R): map<K, R> {
    var p, c := ByName(prev, name), ByName(cur, name);
    map n | n in c && n in p :: rate(p[n], c[n])
  }

  lemma {:induction false} JoinedSnoc<T, K, R>(prev: seq<T>, cur: seq<T>, i: nat, name: T -> K, rate: (T, T) -> R)
    requires i < |cur|
    ensures var before, n, p := Joined(prev, cur[..i], name, rate), name(cur[i]), ByName(prev, name);
            Joined(prev, cur[..i + 1], name, rate) == if n in p then before[n := rate(p[n], cur[i])] else before
  {
    ByNameSnoc(cur, i, name);
  }

  /** The result does not depend on the order of either sample, as long as names are unique. */
  lemma JoinedIgnoresOrder<T, K(!new), R>(prev: seq<T>, cur: seq<T>, prev': seq<T>, cur': seq<T>,
                                          name: T -> K, rate: (T, T) -> R)
    requires multiset(prev) == multiset(prev') && multiset(cur) == multiset(cur')
    requires UniqueNames(prev, name) && UniqueNames(cur, name)
    ensures Joined(prev, cur, name, rate) == Joined(prev', cur', name, rate)
  {
    ByNameIgnoresOrder(prev, prev', name);
    ByNameIgnoresOrder(cur, cur', name);
  }

  /** With duplicates, the last entry of each sample counts. */
  lemma JoinedUsesLast<T, K, R>(prev: seq<T>, cur: seq<T>, name: T -> K, rate: (T, T) -> R, n: K)
    ensures n in Joined(prev, cur, name, rate)
       <==> (exists x :: x in prev && name(x) == n) && (exists x :: x in cur && name(x) == n)
    ensures n in Joined(prev, cur, name, rate) ==> exists p, c ::
              IsLast(prev, name, n, p) && IsLast(cur, name, n, c) && Joined(prev, cur, name, rate)[n] == rate(p, c)
  {
    ByNameIsLast(prev, name, n);
    ByNameIsLast(cur, name, n);
  }

  /** f of every entry and the one before it. */
  function Neighbours<T, R>(s: seq<T>, f: (T, T) -> R): (r: seq<R>)
    ensures |r| == if s == [] then 0 else |s| - 1
  {
    if |s| <= 1 then [] else
      var n := |s| - 1;
      Neighbours(s[..n], f) + [f(s[n - 1], s[n])]
  }

  lemma {:induction false} NeighboursAt<T, R>(s: seq<T>, f: (T, T) -> R, k: nat)
    requires k + 1 < |s|
    ensures Neighbours(s, f)[k] == f(s[k], s[k + 1])
  {
    var n := |s| - 1;
    if k + 1 < n {
      NeighboursAt(s[..n], f, k);
    }
  }

  lemma NeighboursSnoc<T, R>(s: seq<T>, f: (T, T) -> R, i: nat)
    requires 0 < i < |s|
    ensures Neighbours(s[..i + 1], f) == Neighbours(s[..i], f) + [f(s[i - 1], s[i])]
  {
    assert s[..i + 1][..i] == s[..i];
  }
}
