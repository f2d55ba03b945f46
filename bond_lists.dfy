/**
  * Bond lists as values. An atom's `bonds` is an ordered list of neighbour references, and a
  * bond graph maps each atom of a molecule to that list. The functions below are the value-level
  * counterparts of `Atom::addToBonds`, `removeFromBonds`, `link` and `unlink`, and of the
  * neighbour clean-up done by `Molecule::removeAtBegin`/`removeAtEnd`; the lemmas state the
  * symmetry invariant these operations keep.
  */
module BondLists {
  import opened Wrappers

  /** Number of occurrences of `x` in `s`. */
  function Occ<T(==)>(s: seq<T>, x: T): nat
  {
    if s == [] then 0 else (if s[0] == x then 1 else 0) + Occ(s[1..], x)
  }

  /** `s` with its first occurrence of `x` erased (unchanged when `x` is absent). */
  function RemoveFirst<T(==)>(s: seq<T>, x: T): (r: seq<T>)
    ensures |s| - 1 <= |r| <= |s|
  {
    if s == [] then []
    else if s[0] == x then s[1..]
    else [s[0]] + RemoveFirst(s[1..], x)
  }

  /** `s` with every occurrence of `x` erased. */
  function Without<T(==)>(s: seq<T>, x: T): (r: seq<T>)
    ensures x !in r
  {
    if s == [] then []
    else (if s[0] == x then [] else [s[0]]) + Without(s[1..], x)
  }

  lemma {:induction false} OccPositive<T>(s: seq<T>, x: T)
    ensures Occ(s, x) > 0 <==> x in s
  {
    if s != [] {
      OccPositive(s[1..], x);
      assert x in s <==> s[0] == x || x in s[1..];
    }
  }

  lemma {:induction false} OccAppend<T>(s: seq<T>, t: seq<T>, x: T)
    ensures Occ(s + t, x) == Occ(s, x) + Occ(t, x)
  {
    if s == [] {
      assert s + t == t;
    } else {
      assert (s + t)[1..] == s[1..] + t;
      OccAppend(s[1..], t, x);
    }
  }

  /** Erasing one `x` lowers the count of `x` by one when `x` was present and no other count. */
  lemma {:induction false} OccRemoveFirst<T>(s: seq<T>, x: T, y: T)
    ensures Occ(RemoveFirst(s, x), y) == Occ(s, y) - (if x == y && x in s then 1 else 0)
  {
    if s != [] {
      OccRemoveFirst(s[1..], x, y);
      assert x in s <==> s[0] == x || x in s[1..];
      if s[0] != x {
        assert ([s[0]] + RemoveFirst(s[1..], x))[1..] == RemoveFirst(s[1..], x);
      }
    }
  }

  /** Erasing every `x` leaves no `x` and every other count unchanged. */
  lemma {:induction false} OccWithout<T>(s: seq<T>, x: T, y: T)
    ensures Occ(Without(s, x), y) == if x == y then 0 else Occ(s, y)
  {
    if s != [] {
      OccWithout(s[1..], x, y);
      var head := if s[0] == x then [] else [s[0]];
      OccAppend(head, Without(s[1..], x), y);
    }
  }

  /**
    * The first-occurrence erase of `removeFromBonds`: when `x` is present, the result is `s`
    * with the entry at the first index holding `x` cut out and everything else in its order.
    */
  lemma {:induction false} RemoveFirstAt<T>(s: seq<T>, x: T, i: nat)
    requires i < |s| && s[i] == x && x !in s[..i]
    ensures RemoveFirst(s, x) == s[..i] + s[i + 1..]
  {
    if i > 0 {
      assert s[0] in s[..i];
      assert s[1..][..i - 1] == s[1..i];
      assert x !in s[1..][..i - 1];
      RemoveFirstAt(s[1..], x, i - 1);
      assert s[..i] == [s[0]] + s[1..i];
      assert s[i + 1..] == s[1..][i..];
    }
  }

  /** Erasing shortens the list by one exactly when the value is present. */
  lemma {:induction false} RemoveFirstLength<T>(s: seq<T>, x: T)
    ensures |RemoveFirst(s, x)| == if x in s then |s| - 1 else |s|
  {
    if s != [] {
      RemoveFirstLength(s[1..], x);
      assert x in s <==> s[0] == x || x in s[1..];
    }
  }

  /** Erasing an absent value changes nothing. */
  lemma {:induction false} RemoveFirstAbsent<T>(s: seq<T>, x: T)
    requires x !in s
    ensures RemoveFirst(s, x) == s
  {
    if s != [] {
      assert x !in s[1..];
      RemoveFirstAbsent(s[1..], x);
    }
  }

  /** Erasing one `x` and then every `x` is the same as erasing every `x`. */
  lemma {:induction false} WithoutRemoveFirst<T>(s: seq<T>, x: T)
    ensures Without(RemoveFirst(s, x), x) == Without(s, x)
  {
    if s != [] && s[0] != x {
      WithoutRemoveFirst(s[1..], x);
      assert ([s[0]] + RemoveFirst(s[1..], x))[1..] == RemoveFirst(s[1..], x);
    }
  }

  /** A list without `x` is unchanged by erasing every `x`. */
  lemma {:induction false} WithoutAbsent<T>(s: seq<T>, x: T)
    requires x !in s
    ensures Without(s, x) == s
  {
    if s != [] {
      assert x !in s[1..];
      WithoutAbsent(s[1..], x);
      assert [s[0]] + s[1..] == s;
    }
  }

  /** Appending `x` and erasing the first `x` restores the list when `x` was not in it. */
  lemma {:induction false} RemoveFirstAppended<T>(s: seq<T>, x: T)
    requires x !in s
    ensures RemoveFirst(s + [x], x) == s
  {
    if s == [] {
      assert s + [x] == [x];
    } else {
      assert (s + [x])[1..] == s[1..] + [x];
      assert x !in s[1..];
      RemoveFirstAppended(s[1..], x);
      assert [s[0]] + s[1..] == s;
    }
  }

  /** `n` is even, stated by counting down in steps of two. */
  function Even(n: nat): bool
  {
    if n < 2 then n == 0 else Even(n - 2)
  }

  /** The bonds of a molecule: each contained atom mapped to its `bonds` list. */
  type Graph<T> = map<T, seq<T>>

  /** No dangling references: every neighbour is itself an atom of the graph. */
  ghost predicate Closed<T>(g: Graph<T>)
  {
    forall a, b :: a in g && b in g[a] ==> b in g
  }

  /**
    * Bond symmetry: `a` appears in `b`'s list as often as `b` appears in `a`'s, and a self-bond,
    * which `link` records twice, is listed an even number of times.
    */
  ghost predicate Symmetric<T>(g: Graph<T>)
  {
    && (forall a, b :: a in g && b in g ==> Occ(g[a], b) == Occ(g[b], a))
    && (forall a :: a in g ==> Even(Occ(g[a], a)))
  }

  /** `a.link(b)`: `b` is appended to `a`'s list, then `a` to `b`'s (twice to one list when a == b). */
  function Link<T>(g: Graph<T>, a: T, b: T): (r: Graph<T>)
    requires a in g && b in g
    ensures r.Keys == g.Keys
    ensures forall x :: x in g && x != a && x != b ==> r[x] == g[x]
  {
    var g1 := g[a := g[a] + [b]];
    g1[b := g1[b] + [a]]
  }

  /**
    * `a.unlink(b)`: the first `b` is erased from `a`'s list, then the first `a` from `b`'s.
    * `None` when either erase finds nothing (the source's `unreachable()`).
    */
  function Unlink<T>(g: Graph<T>, a: T, b: T): (r: Option<Graph<T>>)
    requires a in g && b in g
    ensures b !in g[a] ==> r.None?
    ensures r.Some? ==> r.value.Keys == g.Keys
    ensures r.Some? ==> forall x :: x in g && x != a && x != b ==> r.value[x] == g[x]
  {
    if b !in g[a] then None
    else
      var g1 := g[a := RemoveFirst(g[a], b)];
      if a !in g1[b] then None
      else Some(g1[b := RemoveFirst(g1[b], a)])
  }

  /** The graph after atom `a` is removed: `a` is gone and no list mentions it any more. */
  function Detach<T>(g: Graph<T>, a: T): (r: Graph<T>)
    ensures r.Keys == g.Keys - {a}
    ensures forall x :: x in r ==> a !in r[x]
  {
    map x | x in g && x != a :: Without(g[x], a)
  }

  /** Linking keeps the bond graph closed and symmetric. */
  lemma LinkKeepsInvariant<T>(g: Graph<T>, a: T, b: T)
    requires a in g && b in g && Closed(g) && Symmetric(g)
    ensures Closed(Link(g, a, b)) && Symmetric(Link(g, a, b))
  {
    LinkKeepsSymmetric(g, a, b);
    LinkKeepsClosed(g, a, b);
  }

  lemma LinkKeepsSymmetric<T>(g: Graph<T>, a: T, b: T)
    requires a in g && b in g && Symmetric(g)
    ensures Symmetric(Link(g, a, b))
  {
    var r := Link(g, a, b);
    forall x, y | x in r && y in r
      ensures Occ(r[x], y) == Occ(r[y], x)
    {
      LinkOcc(g, a, b, x, y);
      LinkOcc(g, a, b, y, x);
    }
    forall x | x in r
      ensures Even(Occ(r[x], x))
    {
      LinkOcc(g, a, b, x, x);
    }
  }

  lemma LinkKeepsClosed<T>(g: Graph<T>, a: T, b: T)
    requires a in g && b in g && Closed(g)
    ensures Closed(Link(g, a, b))
  {
    var r := Link(g, a, b);
    forall x, y | x in r && y in r[x]
      ensures y in r
    {
      if x == a || x == b {
        OccPositive(r[x], y);
        LinkOcc(g, a, b, x, y);
        OccPositive(g[x], y);
      }
    }
  }

  /** How `Link` changes one count: one more `b` in `a`'s list and one more `a` in `b`'s. */
  lemma LinkOcc<T>(g: Graph<T>, a: T, b: T, x: T, y: T)
    requires a in g && b in g && x in g
    ensures Occ(Link(g, a, b)[x], y) == Occ(g[x], y)
                                        + (if x == a && y == b then 1 else 0)
                                        + (if x == b && y == a then 1 else 0)
  {
    var g1 := g[a := g[a] + [b]];
    OccAppend(g[a], [b], y);
    OccAppend(g1[b], [a], y);
    assert Occ([b], y) == if b == y then 1 else 0;
    assert Occ([a], y) == if a == y then 1 else 0;
  }

  /** How a successful `Unlink` changes one count: one `b` fewer in `a`'s list and one `a` fewer in `b`'s. */
  lemma UnlinkOcc<T>(g: Graph<T>, a: T, b: T, x: T, y: T)
    requires a in g && b in g && x in g && Unlink(g, a, b).Some?
    ensures Occ(Unlink(g, a, b).value[x], y) == Occ(g[x], y)
                                                - (if x == a && y == b then 1 else 0)
                                                - (if x == b && y == a then 1 else 0)
  {
    var g1 := g[a := RemoveFirst(g[a], b)];
    OccRemoveFirst(g[a], b, y);
    OccRemoveFirst(g1[b], a, y);
  }

  /** In a symmetric graph, `unlink` of an existing bond never reaches `unreachable()`. */
  lemma UnlinkBondedSucceeds<T>(g: Graph<T>, a: T, b: T)
    requires a in g && b in g && Symmetric(g) && b in g[a]
    ensures Unlink(g, a, b).Some?
  {
    OccPositive(g[a], b);
    var g1 := g[a := RemoveFirst(g[a], b)];
    OccRemoveFirst(g[a], b, a);
    if a == b {
      assert Occ(g[a], a) >= 2;
    } else {
      assert Occ(g[b], a) > 0;
    }
    OccPositive(g1[b], a);
  }

  /** A successful unlink keeps the bond graph closed and symmetric. */
  lemma UnlinkKeepsInvariant<T>(g: Graph<T>, a: T, b: T)
    requires a in g && b in g && Closed(g) && Symmetric(g) && Unlink(g, a, b).Some?
    ensures Closed(Unlink(g, a, b).value) && Symmetric(Unlink(g, a, b).value)
  {
    UnlinkKeepsSymmetric(g, a, b);
    UnlinkKeepsClosed(g, a, b);
  }

  lemma UnlinkKeepsSymmetric<T>(g: Graph<T>, a: T, b: T)
    requires a in g && b in g && Symmetric(g) && Unlink(g, a, b).Some?
    ensures Symmetric(Unlink(g, a, b).value)
  {
    var r := Unlink(g, a, b).value;
    forall x, y | x in r && y in r
      ensures Occ(r[x], y) == Occ(r[y], x)
    {
      UnlinkOcc(g, a, b, x, y);
      UnlinkOcc(g, a, b, y, x);
    }
    forall x | x in r
      ensures Even(Occ(r[x], x))
    {
      UnlinkOcc(g, a, b, x, x);
    }
  }

  lemma UnlinkKeepsClosed<T>(g: Graph<T>, a: T, b: T)
    requires a in g && b in g && Closed(g) && Unlink(g, a, b).Some?
    ensures Closed(Unlink(g, a, b).value)
  {
    var r := Unlink(g, a, b).value;
    forall x, y | x in r && y in r[x]
      ensures y in r
    {
      OccPositive(r[x], y);
      UnlinkOcc(g, a, b, x, y);
      OccPositive(g[x], y);
    }
  }

  /**
    * `unlink` undoes a fresh `link`: when `a` and `b` were not bonded, linking and then
    * unlinking them gives back the original graph, list order included.
    */
  lemma UnlinkUndoesLink<T>(g: Graph<T>, a: T, b: T)
    requires a in g && b in g && b !in g[a] && a !in g[b]
    ensures Unlink(Link(g, a, b), a, b) == Some(g)
  {
    var l := Link(g, a, b);
    if a == b {
      assert l[a] == g[a] + [a, a];
      RemoveFirstAppendedLater(g[a], [a, a], a);
      assert RemoveFirst([a, a], a) == [a];
      RemoveFirstAppended(g[a], a);
      var g1 := l[a := RemoveFirst(l[a], a)];
      assert g1[a] == g[a] + [a];
      assert Unlink(l, a, b) == Some(g1[a := RemoveFirst(g1[a], a)]);
      assert g1[a := RemoveFirst(g1[a], a)] == g;
    } else {
      assert l[a] == g[a] + [b] && l[b] == g[b] + [a];
      RemoveFirstAppended(g[a], b);
      RemoveFirstAppended(g[b], a);
      assert Unlink(l, a, b) == Some(l[a := g[a]][b := g[b]]);
      assert l[a := g[a]][b := g[b]] == g;
    }
  }

  /**
    * `unlink` right after `link` always succeeds, even for an already bonded pair, and gives every
    * list back its old entries, each as often as before; only their order may differ.
    */
  lemma UnlinkAfterLinkRestoresCounts<T>(g: Graph<T>, a: T, b: T)
    requires a in g && b in g
    ensures Unlink(Link(g, a, b), a, b).Some?
    ensures forall x, y :: x in g ==> Occ(Unlink(Link(g, a, b), a, b).value[x], y) == Occ(g[x], y)
  {
    var l := Link(g, a, b);
    LinkOcc(g, a, b, a, b);
    OccPositive(l[a], b);
    var g1 := l[a := RemoveFirst(l[a], b)];
    LinkOcc(g, a, b, b, a);
    OccRemoveFirst(l[a], b, a);
    OccPositive(g1[b], a);
    assert Unlink(l, a, b).Some?;
    forall x, y | x in g
      ensures Occ(Unlink(l, a, b).value[x], y) == Occ(g[x], y)
    {
      LinkOcc(g, a, b, x, y);
      UnlinkOcc(l, a, b, x, y);
    }
  }

  /** When `x` is not in `s`, erasing the first `x` from `s + t` erases it from `t`. */
  lemma {:induction false} RemoveFirstAppendedLater<T>(s: seq<T>, t: seq<T>, x: T)
    requires x !in s
    ensures RemoveFirst(s + t, x) == s + RemoveFirst(t, x)
  {
    if s == [] {
      assert s + t == t;
    } else {
      assert (s + t)[1..] == s[1..] + t;
      assert x !in s[1..];
      RemoveFirstAppendedLater(s[1..], t, x);
      assert [s[0]] + (s[1..] + RemoveFirst(t, x)) == s + RemoveFirst(t, x);
    }
  }

  /**
    * Removing an atom from a closed, symmetric graph leaves a closed, symmetric graph in which
    * no list mentions the removed atom: there are no dangling references after removal.
    */
  lemma DetachKeepsInvariant<T>(g: Graph<T>, a: T)
    requires Closed(g) && Symmetric(g)
    ensures Closed(Detach(g, a)) && Symmetric(Detach(g, a))
    ensures forall x :: x in Detach(g, a) ==> a !in Detach(g, a)[x]
  {
    var r := Detach(g, a);
    forall x, y | x in r && y in r
      ensures Occ(r[x], y) == Occ(r[y], x)
    {
      OccWithout(g[x], a, y);
      OccWithout(g[y], a, x);
    }
    forall x | x in r
      ensures Even(Occ(r[x], x))
    {
      OccWithout(g[x], a, x);
    }
    forall x, y | x in r && y in r[x]
      ensures y in r
    {
      OccPositive(r[x], y);
      OccWithout(g[x], a, y);
      OccPositive(g[x], y);
    }
    forall x | x in r
      ensures a !in r[x]
    {
      OccWithout(g[x], a, a);
      OccPositive(r[x], a);
    }
  }

  /** Adding an atom with an empty list that no list mentions keeps the graph closed and symmetric. */
  lemma AddIsolatedKeepsInvariant<T>(g: Graph<T>, n: T)
    requires Closed(g) && Symmetric(g) && n !in g
    requires forall x :: x in g ==> n !in g[x]
    ensures Closed(g[n := []]) && Symmetric(g[n := []])
  {
    var r := g[n := []];
    forall x, y | x in r && y in r
      ensures Occ(r[x], y) == Occ(r[y], x)
    {
      if x == n && y != n {
        OccPositive(g[y], n);
      } else if y == n && x != n {
        OccPositive(g[x], n);
      }
    }
  }
}
