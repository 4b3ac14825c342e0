/**
 * The bookkeeping `Coroutines` does on its array of handles, stated over
 * sequences: JS `indexOf` and `splice(start, 1)`, the removal they make up
 * together (used by `stop` and by the second loop of `tick`), and the
 * selection of the handles `tick` retires and keeps.
 *
 * Handles are compared by identity, as `indexOf` does; nothing stops a
 * registry from holding the same handle twice, so the general facts are
 * stated for any sequence and the filter facts for one without duplicates.
 */
module Registry {

  /** No handle occurs twice: the last one does not occur before it, and so
      on down the prefix. */
  predicate NoDup<T(==)>(s: seq<T>)
  {
    s == [] || (s[|s| - 1] !in s[..|s| - 1] && NoDup(s[..|s| - 1]))
  }

  /** Two positions of a registry without duplicates hold different handles. */
  lemma {:induction false} NoDupDistinct<T>(s: seq<T>, i: nat, j: nat)
    requires NoDup(s) && i < j < |s|
    ensures s[i] != s[j]
  {
    var n := |s| - 1;
    if j == n {
      assert s[i] == s[..n][i];
    } else {
      NoDupDistinct(s[..n], i, j);
    }
  }

  /** In a registry without duplicates a handle does not occur before its
      own position. */
  lemma NoDupFirst<T>(s: seq<T>, i: nat)
    requires NoDup(s) && i < |s|
    ensures forall j :: 0 <= j < i ==> s[j] != s[i]
  {
    forall j | 0 <= j < i ensures s[j] != s[i] {
      NoDupDistinct(s, j, i);
    }
  }

  /** JS `indexOf`: the index of the first occurrence of `x`, or -1. */
  function IndexOf<T(==)>(s: seq<T>, x: T): (i: int)
    ensures -1 <= i < |s|
    ensures i == -1 <==> x !in s
    ensures 0 <= i ==> s[i] == x && x !in s[..i]
  {
    if s == [] then -1
    else if s[0] == x then 0
    else
      var j := IndexOf(s[1..], x);
      assert s == [s[0]] + s[1..];
      if j == -1 then -1
      else
        assert s[..j + 1] == [s[0]] + s[1..][..j];
        j + 1
  }

  /** JS `splice(start, 1)`: a negative start counts from the end (clamped at
      0), a start past the end is clamped to the length, and the element at
      the resulting position, if there is one, is removed. */
  function Splice1<T>(s: seq<T>, start: int): seq<T>
  {
    var at := if start < 0 then (if |s| + start < 0 then 0 else |s| + start)
              else (if start > |s| then |s| else start);
    if at < |s| then s[..at] + s[at + 1..] else s
  }

  /** `splice(indexOf(x), 1)`: removes the first occurrence of a registered
      `x` and keeps the rest in order; for an `x` that is not registered
      `indexOf` gives -1, and the LAST element is removed; an empty
      registry stays empty. */
  function Stopped<T(==)>(s: seq<T>, x: T): (r: seq<T>)
    ensures x in s ==> r == s[..IndexOf(s, x)] + s[IndexOf(s, x) + 1..]
    ensures x !in s && s != [] ==> r == s[..|s| - 1]
    ensures s == [] ==> r == []
  {
    Splice1(s, IndexOf(s, x))
  }

  /** Stopping a registered handle removes exactly one occurrence of it and
      nothing else. */
  lemma StoppedDropsOne<T>(s: seq<T>, x: T)
    requires x in s
    ensures multiset(Stopped(s, x)) == multiset(s) - multiset{x}
  {
    var i := IndexOf(s, x);
    assert s == s[..i] + [x] + s[i + 1..];
  }

  /** The registry after `splice(indexOf(x), 1)` for each `x` of `xs` in turn,
      as the second loop of `tick` does. */
  function RemoveEach<T(==)>(s: seq<T>, xs: seq<T>): seq<T>
  {
    if xs == [] then s
    else Stopped(RemoveEach(s, xs[..|xs| - 1]), xs[|xs| - 1])
  }

  /** The handles `cs[i]` whose report `done[i]` equals `want`, in order:
      with `want` true the `toRemove` list `tick` collects, with `want`
      false the handles it keeps. */
  function Select<T(==)>(cs: seq<T>, done: seq<bool>, want: bool): (r: seq<T>)
    requires |done| == |cs|
    ensures |r| <= |cs|
  {
    if cs == [] then []
    else
      var n := |cs| - 1;
      Select(cs[..n], done[..n], want) + (if done[n] == want then [cs[n]] else [])
  }

  /** `Select` keeps handles of `cs` only, and every handle whose report is
      the one wanted. */
  lemma {:induction false} SelectMembers<T>(cs: seq<T>, done: seq<bool>, want: bool)
    requires |done| == |cs|
    ensures forall z :: z in Select(cs, done, want) ==> z in cs
    ensures forall i :: 0 <= i < |cs| && done[i] == want ==> cs[i] in Select(cs, done, want)
  {
    if cs != [] {
      var n := |cs| - 1;
      SelectMembers(cs[..n], done[..n], want);
      assert forall i :: 0 <= i < n ==> cs[..n][i] == cs[i] && done[..n][i] == done[i];
    }
  }

  /** Every handle `Select` keeps stands at a position of `cs` whose report
      is the one wanted. */
  lemma {:induction false} SelectFrom<T>(cs: seq<T>, done: seq<bool>, want: bool, z: T)
    requires |done| == |cs| && z in Select(cs, done, want)
    ensures exists i :: 0 <= i < |cs| && cs[i] == z && done[i] == want
  {
    var n := |cs| - 1;
    if z in Select(cs[..n], done[..n], want) {
      SelectFrom(cs[..n], done[..n], want, z);
      var i :| 0 <= i < n && cs[..n][i] == z && done[..n][i] == want;
      assert cs[i] == z && done[i] == want;
    } else {
      assert cs[n] == z && done[n] == want;
    }
  }

  /** Selecting over one more handle and its report appends that handle when
      its report is the one wanted. */
  lemma SelectSnoc<T>(cs: seq<T>, done: seq<bool>, i: nat, d: bool, want: bool)
    requires i < |cs| && |done| == i
    ensures Select(cs[..i + 1], done + [d], want)
         == Select(cs[..i], done, want) + (if d == want then [cs[i]] else [])
  {
    assert cs[..i + 1][..i] == cs[..i] && (done + [d])[..i] == done;
  }

  /** Each handle paired with its report, position by position. */
  function Zip<T>(cs: seq<T>, done: seq<bool>): (r: seq<(T, bool)>)
    requires |done| == |cs|
    ensures |r| == |cs|
  {
    seq(|cs|, k requires 0 <= k < |cs| => (cs[k], done[k]))
  }

  /** One more handle and its report append one pair. */
  lemma ZipSnoc<T>(cs: seq<T>, done: seq<bool>, i: nat, d: bool)
    requires i < |cs| && |done| == i
    ensures Zip(cs[..i + 1], done + [d]) == Zip(cs[..i], done) + [(cs[i], d)]
  {
  }

  /** The elements of `s` that do not occur in `xs`, in order. */
  function Without<T(==)>(s: seq<T>, xs: seq<T>): seq<T>
  {
    if s == [] then []
    else
      var n := |s| - 1;
      Without(s[..n], xs) + (if s[n] in xs then [] else [s[n]])
  }

  /** `Without` keeps exactly the elements of `s` that `xs` does not hold. */
  lemma {:induction false} WithoutMember<T>(s: seq<T>, xs: seq<T>, z: T)
    ensures z in Without(s, xs) <==> z in s && z !in xs
  {
    if s != [] {
      var n := |s| - 1;
      assert s == s[..n] + [s[n]];
      WithoutMember(s[..n], xs, z);
    }
  }

  lemma NoDupSnoc<T>(s: seq<T>, y: T)
    requires NoDup(s) && y !in s
    ensures NoDup(s + [y])
  {
    assert (s + [y])[..|s|] == s;
  }

  lemma {:induction false} NoDupPrefix<T>(s: seq<T>, n: nat)
    requires NoDup(s) && n <= |s|
    ensures NoDup(s[..n])
  {
    if n < |s| {
      NoDupPrefix(s[..|s| - 1], n);
      assert s[..|s| - 1][..n] == s[..n];
    } else {
      assert s[..n] == s;
    }
  }

  lemma {:induction false} WithoutNoDup<T>(s: seq<T>, xs: seq<T>)
    requires NoDup(s)
    ensures NoDup(Without(s, xs))
  {
    if s != [] {
      var n := |s| - 1;
      NoDupPrefix(s, n);
      WithoutNoDup(s[..n], xs);
      if s[n] !in xs {
        assert s[n] !in s[..n];
        WithoutMember(s[..n], xs, s[n]);
        NoDupSnoc(Without(s[..n], xs), s[n]);
      } else {
        assert Without(s, xs) == Without(s[..n], xs);
      }
    }
  }

  lemma {:induction false} SelectNoDup<T>(cs: seq<T>, done: seq<bool>, want: bool)
    requires |done| == |cs| && NoDup(cs)
    ensures NoDup(Select(cs, done, want))
  {
    if cs != [] {
      var n := |cs| - 1;
      NoDupPrefix(cs, n);
      SelectNoDup(cs[..n], done[..n], want);
      if done[n] == want {
        assert cs[n] !in cs[..n];
        SelectMembers(cs[..n], done[..n], want);
        NoDupSnoc(Select(cs[..n], done[..n], want), cs[n]);
      } else {
        assert Select(cs, done, want) == Select(cs[..n], done[..n], want);
      }
    }
  }

  lemma {:induction false} WithoutConcat<T>(u: seq<T>, v: seq<T>, xs: seq<T>)
    ensures Without(u + v, xs) == Without(u, xs) + Without(v, xs)
  {
    if v != [] {
      var n := |v| - 1;
      var tail := if v[n] in xs then [] else [v[n]];
      assert (u + v)[..|u + v| - 1] == u + v[..n];
      assert (u + v)[|u + v| - 1] == v[n];
      calc {
        Without(u + v, xs);
        Without(u + v[..n], xs) + tail;
        { WithoutConcat(u, v[..n], xs); }
        Without(u, xs) + Without(v[..n], xs) + tail;
        Without(u, xs) + (Without(v[..n], xs) + tail);
        Without(u, xs) + Without(v, xs);
      }
    } else {
      assert u + v == u;
    }
  }

  lemma {:induction false} WithoutNothing<T>(s: seq<T>, xs: seq<T>)
    requires forall z :: z in s ==> z !in xs
    ensures Without(s, xs) == s
  {
    if s != [] {
      var n := |s| - 1;
      WithoutNothing(s[..n], xs);
      assert s == s[..n] + [s[n]];
    }
  }

  /** `Without` depends on `xs` only through which elements of `s` it holds. */
  lemma {:induction false} WithoutSameMembers<T>(s: seq<T>, xs: seq<T>, ys: seq<T>)
    requires forall z :: z in s ==> (z in xs <==> z in ys)
    ensures Without(s, xs) == Without(s, ys)
  {
    if s != [] {
      var n := |s| - 1;
      WithoutSameMembers(s[..n], xs, ys);
    }
  }

  /** In a registry without duplicates a handle does not occur after its own
      position either. */
  lemma NoDupAfter<T>(s: seq<T>, i: nat)
    requires NoDup(s) && i < |s|
    ensures s[i] !in s[i + 1..]
  {
    var b := s[i + 1..];
    forall k | 0 <= k < |b| ensures b[k] != s[i] {
      NoDupDistinct(s, i, i + 1 + k);
    }
  }

  /** Filtering `x` out of `a + [x] + b`, where `a` and `b` do not hold it,
      leaves `a + b`. */
  lemma WithoutSplit<T>(t: seq<T>, a: seq<T>, x: T, b: seq<T>)
    requires t == a + [x] + b && x !in a && x !in b
    ensures Without(t, [x]) == a + b
  {
    var ax := a + [x];
    assert Without(ax + b, [x]) == Without(ax, [x]) + Without(b, [x]) by {
      WithoutConcat(ax, b, [x]);
    }
    assert Without(ax, [x]) == Without(a, [x]) + Without([x], [x]) by {
      WithoutConcat(a, [x], [x]);
    }
    assert Without(a, [x]) == a by {
      WithoutNothing(a, [x]);
    }
    assert Without(b, [x]) == b by {
      WithoutNothing(b, [x]);
    }
    assert Without([x], [x]) == [] by {
      assert [x][..0] == [];
    }
    assert a + [] == a;
  }

  /** Filtering out the handle at position `i`, when it occurs nowhere else,
      leaves the handles on either side of it. */
  lemma WithoutAt<T>(t: seq<T>, i: nat)
    requires i < |t| && t[i] !in t[..i] && t[i] !in t[i + 1..]
    ensures Without(t, [t[i]]) == t[..i] + t[i + 1..]
  {
    SplitAround(t, i);
    WithoutSplit(t, t[..i], t[i], t[i + 1..]);
  }

  /** A sequence is its prefix, the element at `i` and its suffix. */
  lemma SplitAround<T>(t: seq<T>, i: nat)
    requires i < |t|
    ensures t == t[..i] + [t[i]] + t[i + 1..]
  {
  }

  /** On a registry without duplicates, stopping a registered handle removes
      every occurrence of it. */
  lemma StoppedIsWithout<T>(t: seq<T>, x: T)
    requires NoDup(t) && x in t
    ensures Stopped(t, x) == Without(t, [x])
  {
    var i := IndexOf(t, x);
    NoDupAfter(t, i);
    WithoutAt(t, i);
  }

  /** Removing each handle of a duplicate-free list of registered handles, one
      `splice(indexOf(x), 1)` at a time, is the same as filtering them out. */
  lemma {:induction false} RemoveEachIsWithout<T>(s: seq<T>, xs: seq<T>)
    requires NoDup(s) && NoDup(xs)
    requires forall k :: 0 <= k < |xs| ==> xs[k] in s
    ensures RemoveEach(s, xs) == Without(s, xs)
  {
    if xs == [] {
      WithoutNothing(s, xs);
    } else {
      var n := |xs| - 1;
      var x, ys := xs[n], xs[..n];
      assert xs == ys + [x];
      NoDupPrefix(xs, n);
      assert x !in ys;
      assert x in s;
      calc {
        RemoveEach(s, xs);
        Stopped(RemoveEach(s, ys), x);
        { RemoveEachIsWithout(s, ys); }
        Stopped(Without(s, ys), x);
        { WithoutNoDup(s, ys);
          WithoutMember(s, ys, x);
          StoppedIsWithout(Without(s, ys), x); }
        Without(Without(s, ys), [x]);
        { WithoutTwice(s, ys, x); }
        Without(s, xs);
      }
    }
  }

  lemma {:induction false} WithoutTwice<T>(s: seq<T>, ys: seq<T>, x: T)
    ensures Without(Without(s, ys), [x]) == Without(s, ys + [x])
  {
    if s != [] {
      var n := |s| - 1;
      var last := if s[n] in ys then [] else [s[n]];
      WithoutTwice(s[..n], ys, x);
      WithoutConcat(Without(s[..n], ys), last, [x]);
      if last != [] {
        assert Without(last, [x]) == Without([], [x]) + (if s[n] in [x] then [] else [s[n]]);
      }
    }
  }

  /** On a registry without duplicates, filtering out the handles `tick`
      collected as finished leaves exactly the handles that reported pending. */
  lemma {:induction false} WithoutChosen<T>(cs: seq<T>, done: seq<bool>)
    requires |done| == |cs| && NoDup(cs)
    ensures Without(cs, Select(cs, done, true)) == Select(cs, done, false)
  {
    if cs != [] {
      var n := |cs| - 1;
      var c := cs[n];
      var chosen := Select(cs[..n], done[..n], true);
      NoDupPrefix(cs, n);
      WithoutChosen(cs[..n], done[..n]);
      assert c !in cs[..n];
      SelectMembers(cs[..n], done[..n], true);
      assert c !in chosen;
      assert Select(cs, done, true) == chosen + (if done[n] then [c] else []);
      WithoutSameMembers(cs[..n], Select(cs, done, true), chosen);
      assert (c in Select(cs, done, true)) == done[n];
    }
  }

  /** What `tick` does to a registry without duplicates: after removing every
      handle that reported done, the registry is the old one filtered to the
      handles that reported pending, survivors in their original order, and a
      handle is still registered exactly when it reported pending. */
  lemma RetireKeepsPending<T>(cs: seq<T>, done: seq<bool>)
    requires |done| == |cs| && NoDup(cs)
    ensures RemoveEach(cs, Select(cs, done, true)) == Select(cs, done, false)
    ensures forall i :: 0 <= i < |cs| ==> (cs[i] in RemoveEach(cs, Select(cs, done, true)) <==> !done[i])
    ensures NoDup(RemoveEach(cs, Select(cs, done, true)))
  {
    var chosen := Select(cs, done, true);
    SelectNoDup(cs, done, true);
    SelectNoDup(cs, done, false);
    SelectMembers(cs, done, true);
    assert forall k :: 0 <= k < |chosen| ==> chosen[k] in cs;
    RemoveEachIsWithout(cs, chosen);
    WithoutChosen(cs, done);
    SelectMembers(cs, done, false);
    forall i | 0 <= i < |cs|
      ensures cs[i] in RemoveEach(cs, chosen) <==> !done[i]
    {
      if done[i] {
        assert cs[i] in chosen;
        WithoutMember(cs, chosen, cs[i]);
      } else {
        assert cs[i] in Select(cs, done, false);
      }
    }
  }
}
