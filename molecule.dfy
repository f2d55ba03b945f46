/**
  * Atoms and molecules as heap objects, after molecule.h. An `Atom` carries an element, a
  * position, the molecule that owns it and its ordered list of bonded neighbours; a `Molecule`
  * owns an ordered sequence of atoms. Neighbour queries are loops proved against the counting
  * and filtering functions below; mutating operations keep `Molecule.Valid()`, whose bond part
  * says that the molecule's bond graph is closed and symmetric (`BondLists`).
  */
module Molecules {
  import opened Wrappers
  import opened Elements
  import BondLists

  /** A position in space. Geometry is not modelled, so positions are only copied and compared. */
  datatype Vec3 = Vec3(x: real, y: real, z: real)

  /** Failures of the neighbour queries: `unreachable()` and the two exceptions of `filterBonds1`. */
  datatype BondError =
    | Unreachable
    | DuplicateBond(from: Element, to: Element)
    | NoBond(from: Element, to: Element)

  /** Number of atoms in `s` whose element is one of `es`. */
  function CountIn(s: seq<Atom>, es: set<Element>): nat
  {
    if s == [] then 0 else CountIn(s[..|s| - 1], es) + (if s[|s| - 1].elt in es then 1 else 0)
  }

  /** The atoms of `s` whose element is `e`, in their order in `s`. */
  function Filter(s: seq<Atom>, e: Element): seq<Atom>
  {
    if s == [] then [] else Filter(s[..|s| - 1], e) + (if s[|s| - 1].elt == e then [s[|s| - 1]] else [])
  }

  /** Extending a prefix by one atom adds one to the count exactly when that atom's element is in `es`. */
  lemma CountInStep(s: seq<Atom>, i: nat, es: set<Element>)
    requires i < |s|
    ensures CountIn(s[..i + 1], es) == CountIn(s[..i], es) + (if s[i].elt in es then 1 else 0)
  {
    assert s[..i + 1][..i] == s[..i];
  }

  /** Counting over a prefix never exceeds counting over the whole list. */
  lemma {:induction false} CountInPrefix(s: seq<Atom>, i: nat, es: set<Element>)
    requires i <= |s|
    ensures CountIn(s[..i], es) <= CountIn(s, es)
  {
    if i < |s| {
      assert s[..|s| - 1][..i] == s[..i];
      CountInPrefix(s[..|s| - 1], i, es);
    } else {
      assert s[..i] == s;
    }
  }

  /** Every atom is counted exactly when all of them have an element in `es`. */
  lemma {:induction false} CountInAll(s: seq<Atom>, es: set<Element>)
    ensures CountIn(s, es) <= |s|
    ensures CountIn(s, es) == |s| <==> forall a :: a in s ==> a.elt in es
  {
    if s != [] {
      var init := s[..|s| - 1];
      CountInAll(init, es);
      assert s == init + [s[|s| - 1]];
      assert forall a :: a in s <==> a in init || a == s[|s| - 1];
    }
  }

  /** One more atom in the counting loop of `isBonds`: it is counted under the first of `e1`, `e2`, `e3` it equals. */
  lemma FirstMatchStep(s: seq<Atom>, i: nat, e1: Element, e2: Element, e3: Element)
    requires i < |s|
    ensures CountIn(s[..i + 1], {e1}) == CountIn(s[..i], {e1}) + (if s[i].elt == e1 then 1 else 0)
    ensures CountIn(s[..i + 1], {e2} - {e1}) == CountIn(s[..i], {e2} - {e1}) + (if s[i].elt != e1 && s[i].elt == e2 then 1 else 0)
    ensures CountIn(s[..i + 1], {e3} - {e1, e2}) ==
              CountIn(s[..i], {e3} - {e1, e2}) + (if s[i].elt != e1 && s[i].elt != e2 && s[i].elt == e3 then 1 else 0)
    ensures CountIn(s[..i + 1], {e1, e2, e3}) ==
              CountIn(s[..i], {e1, e2, e3}) + (if s[i].elt in {e1, e2, e3} then 1 else 0)
  {
    CountInStep(s, i, {e1});
    CountInStep(s, i, {e2} - {e1});
    CountInStep(s, i, {e3} - {e1, e2});
    CountInStep(s, i, {e1, e2, e3});
  }

  /** Counts over disjoint element sets add up. */
  lemma {:induction false} CountInUnion(s: seq<Atom>, es1: set<Element>, es2: set<Element>)
    requires es1 !! es2
    ensures CountIn(s, es1 + es2) == CountIn(s, es1) + CountIn(s, es2)
  {
    if s != [] {
      CountInUnion(s[..|s| - 1], es1, es2);
    }
  }

  /**
    * Counting each atom for the first of `e1`, `e2`, `e3` that it equals counts every atom whose
    * element is one of the three exactly once.
    */
  lemma CountInFirstMatch(s: seq<Atom>, e1: Element, e2: Element, e3: Element)
    ensures CountIn(s, {e1}) + CountIn(s, {e2} - {e1}) + CountIn(s, {e3} - {e1, e2}) == CountIn(s, {e1, e2, e3})
  {
    CountInUnion(s, {e1}, {e2} - {e1});
    CountInUnion(s, {e1, e2}, {e3} - {e1, e2});
    assert {e1} + ({e2} - {e1}) == {e1, e2};
    assert {e1, e2} + ({e3} - {e1, e2}) == {e1, e2, e3};
  }

  /** `Filter` keeps exactly the atoms of element `e`, and as many as `CountIn` counts. */
  lemma {:induction false} FilterSpec(s: seq<Atom>, e: Element)
    ensures |Filter(s, e)| == CountIn(s, {e})
    ensures forall a :: a in Filter(s, e) <==> a in s && a.elt == e
  {
    if s != [] {
      var init := s[..|s| - 1];
      FilterSpec(init, e);
      assert s == init + [s[|s| - 1]];
      assert forall a :: a in s <==> a in init || a == s[|s| - 1];
    }
  }

  /** `Filter` keeps the order of the list: filtering a concatenation filters each part. */
  lemma {:induction false} FilterAppend(s: seq<Atom>, t: seq<Atom>, e: Element)
    ensures Filter(s + t, e) == Filter(s, e) + Filter(t, e)
  {
    if t == [] {
      assert s + t == s;
    } else {
      assert (s + t)[..|s + t| - 1] == s + t[..|t| - 1];
      FilterAppend(s, t[..|t| - 1], e);
    }
  }

  /** No object occurs twice. */
  predicate Distinct<T(==)>(s: seq<T>)
  {
    forall i, j :: 0 <= i < j < |s| ==> s[i] != s[j]
  }

  /** Erasing the entry at `i` from a list without repetitions drops exactly that value. */
  lemma DistinctErase<T>(s: seq<T>, i: nat)
    requires Distinct(s) && i < |s|
    ensures Distinct(s[..i] + s[i + 1..])
    ensures forall x :: x in s[..i] + s[i + 1..] <==> x in s && x != s[i]
  {
    var r := s[..i] + s[i + 1..];
    forall x | x in s && x != s[i]
      ensures x in r
    {
      var j :| 0 <= j < |s| && s[j] == x;
      if j < i {
        assert r[j] == x;
      } else {
        assert r[j - 1] == x;
      }
    }
    forall p, q | 0 <= p < q < |r|
      ensures r[p] != r[q]
    {
      var p' := if p < i then p else p + 1;
      var q' := if q < i then q else q + 1;
      assert r[p] == s[p'] && r[q] == s[q'];
    }
  }

  class Atom {
    /** The owning molecule; set only by the molecule, through `SetMolecule`. */
    var molecule: Molecule?
    const elt: Element
    var pos: Vec3
    /** Bonded neighbours, in the order the bonds were made. */
    var bonds: seq<Atom>

    constructor (newElt: Element, newPos: Vec3)
      ensures molecule == null && elt == newElt && pos == newPos && bonds == []
    {
      molecule := null;
      elt := newElt;
      pos := newPos;
      bonds := [];
    }

    /** The copy constructor: element and position are copied, bonds and owner are not. */
    constructor Copy(other: Atom)
      ensures molecule == null && elt == other.elt && pos == other.pos && bonds == []
    {
      molecule := null;
      elt := other.elt;
      pos := other.pos;
      bonds := [];
    }

    method SetMolecule(m: Molecule) returns (self: Atom)
      modifies this`molecule
      ensures molecule == m && self == this
    {
      molecule := m;
      self := this;
    }

    method AddToBonds(a: Atom)
      modifies this`bonds
      ensures bonds == old(bonds) + [a]
    {
      bonds := bonds + [a];
    }

    /** Records a bond on both sides: `othr` at the end of this list, this atom at the end of `othr`'s. */
    method Link(othr: Atom)
      modifies this`bonds, othr`bonds
      ensures othr != this ==> bonds == old(bonds) + [othr] && othr.bonds == old(othr.bonds) + [this]
      ensures othr == this ==> bonds == old(bonds) + [othr] + [this]
    {
      AddToBonds(othr);
      othr.AddToBonds(this);
    }

    /**
      * Erases the first occurrence of `a`, keeping every other entry in order. `found` is false
      * where the source reaches `unreachable()`; the list is then unchanged.
      */
    method RemoveFromBonds(a: Atom) returns (found: bool)
      modifies this`bonds
      ensures found == (a in old(bonds))
      ensures found ==> exists i :: 0 <= i < |old(bonds)| && old(bonds)[i] == a && a !in old(bonds)[..i]
                                    && bonds == old(bonds)[..i] + old(bonds)[i + 1..]
      ensures bonds == BondLists.RemoveFirst(old(bonds), a)
    {
      var i := 0;
      while i < |bonds|
        invariant 0 <= i <= |bonds| && bonds == old(bonds)
        invariant a !in bonds[..i]
      {
        if bonds[i] == a {
          BondLists.RemoveFirstAt(bonds, a, i);
          bonds := bonds[..i] + bonds[i + 1..];
          return true;
        }
        assert bonds[..i + 1] == bonds[..i] + [bonds[i]];
        i := i + 1;
      }
      assert bonds[..i] == bonds;
      BondLists.RemoveFirstAbsent(bonds, a);
      found := false;
    }

    /**
      * Removes the bond on both sides: the first `othr` from this list, then the first occurrence
      * of this atom from `othr`'s. `ok` is false where the source reaches `unreachable()`.
      */
    method Unlink(othr: Atom) returns (ok: bool)
      modifies this`bonds, othr`bonds
      ensures othr != this ==> ok == (othr in old(bonds) && this in old(othr.bonds))
      ensures othr != this ==> bonds == BondLists.RemoveFirst(old(bonds), othr)
      ensures othr != this ==> othr.bonds == if othr in old(bonds)
                                             then BondLists.RemoveFirst(old(othr.bonds), this)
                                             else old(othr.bonds)
      ensures othr == this ==> ok == (BondLists.Occ(old(bonds), this) >= 2)
      ensures othr == this ==> bonds == BondLists.RemoveFirst(BondLists.RemoveFirst(old(bonds), this), this)
    {
      ghost var before := bonds;
      BondLists.OccRemoveFirst(bonds, othr, this);
      BondLists.OccPositive(bonds, this);
      ok := RemoveFromBonds(othr);
      BondLists.OccPositive(bonds, this);
      if !ok {
        BondLists.RemoveFirstAbsent(before, othr);
        return;
      }
      ok := othr.RemoveFromBonds(this);
    }

    /** The only carbon neighbour; null both when there is none and when there are several. */
    method FindOnlyC() returns (res: Atom?)
      ensures res != null <==> CountIn(bonds, {C}) == 1
      ensures res != null ==> res in bonds && res.elt == C
    {
      res := null;
      for i := 0 to |bonds|
        invariant res == null <==> CountIn(bonds[..i], {C}) == 0
        invariant res != null ==> CountIn(bonds[..i], {C}) == 1 && res in bonds[..i] && res.elt == C
      {
        var n := bonds[i];
        assert bonds[..i + 1][..i] == bonds[..i];
        if n.elt == C {
          if res == null {
            res := n;
          } else {
            CountInPrefix(bonds, i + 1, {C});
            return null;
          }
        }
      }
      assert bonds[..|bonds|] == bonds;
    }

    /** The first neighbour with element `bondElt`; `unreachable()` when there is none. */
    method FindFirstBond(bondElt: Element) returns (r: Result<Atom, BondError>)
      ensures r.Err? <==> forall a :: a in bonds ==> a.elt != bondElt
      ensures r.Err? ==> r.error == Unreachable
      ensures r.Ok? ==> exists k :: 0 <= k < |bonds| && bonds[k] == r.value && r.value.elt == bondElt
                                    && forall j :: 0 <= j < k ==> bonds[j].elt != bondElt
    {
      for i := 0 to |bonds|
        invariant forall j :: 0 <= j < i ==> bonds[j].elt != bondElt
      {
        if bonds[i].elt == bondElt {
          return Ok(bonds[i]);
        }
      }
      return Err(Unreachable);
    }

    /** `isBonds(E, cnt)`: exactly `cnt` neighbours, all of element `e`. */
    method IsBonds1(e: Element, cnt: nat) returns (r: bool)
      ensures r <==> CountIn(bonds, {e}) == cnt && forall a :: a in bonds ==> a.elt == e
      ensures r ==> |bonds| == cnt
    {
      var cnt1, cntOther := 0, 0;
      for i := 0 to |bonds|
        invariant cnt1 == CountIn(bonds[..i], {e})
        invariant cntOther == i - CountIn(bonds[..i], {e})
      {
        assert bonds[..i + 1][..i] == bonds[..i];
        if bonds[i].elt == e {
          cnt1 := cnt1 + 1;
        } else {
          cntOther := cntOther + 1;
        }
      }
      assert bonds[..|bonds|] == bonds;
      CountInAll(bonds, {e});
      r := cnt1 == cnt && cntOther == 0;
    }

    /**
      * `isBonds(E1, cnt1, E2, cnt2)`: each neighbour is counted for the first listed element it
      * equals (so `e2` counts nothing when it repeats `e1`); the counts must match exactly and
      * no neighbour may have an unlisted element.
      */
    method IsBonds2(e1: Element, cnt1: nat, e2: Element, cnt2: nat) returns (r: bool)
      ensures r <==> && CountIn(bonds, {e1}) == cnt1
                     && CountIn(bonds, {e2} - {e1}) == cnt2
                     && forall a :: a in bonds ==> a.elt in {e1, e2}
      ensures r ==> |bonds| == cnt1 + cnt2
    {
      var n1, n2, nOther := Tally2(e1, e2);
      CountInAll(bonds, {e1, e2});
      CountInUnion(bonds, {e1}, {e2} - {e1});
      assert {e1} + ({e2} - {e1}) == {e1, e2};
      r := n1 == cnt1 && n2 == cnt2 && nOther == 0;
    }

    /** The counting loop of `isBonds(E1, cnt1, E2, cnt2)`. */
    method Tally2(e1: Element, e2: Element) returns (n1: nat, n2: nat, nOther: nat)
      ensures n1 == CountIn(bonds, {e1}) && n2 == CountIn(bonds, {e2} - {e1})
      ensures nOther + CountIn(bonds, {e1, e2}) == |bonds|
    {
      n1, n2, nOther := 0, 0, 0;
      for i := 0 to |bonds|
        invariant n1 == CountIn(bonds[..i], {e1})
        invariant n2 == CountIn(bonds[..i], {e2} - {e1})
        invariant nOther + CountIn(bonds[..i], {e1, e2}) == i
      {
        CountInStep(bonds, i, {e1});
        CountInStep(bonds, i, {e2} - {e1});
        CountInStep(bonds, i, {e1, e2});
        var a := bonds[i];
        if a.elt == e1 {
          n1 := n1 + 1;
        } else if a.elt == e2 {
          n2 := n2 + 1;
        } else {
          nOther := nOther + 1;
        }
      }
      assert bonds[..|bonds|] == bonds;
    }

    /** `isBonds(E1, cnt1, E2, cnt2, E3, cnt3)`: as `IsBonds2`, with a third element and count. */
    method IsBonds3(e1: Element, cnt1: nat, e2: Element, cnt2: nat, e3: Element, cnt3: nat) returns (r: bool)
      ensures r <==> && CountIn(bonds, {e1}) == cnt1
                     && CountIn(bonds, {e2} - {e1}) == cnt2
                     && CountIn(bonds, {e3} - {e1, e2}) == cnt3
                     && forall a :: a in bonds ==> a.elt in {e1, e2, e3}
      ensures r ==> |bonds| == cnt1 + cnt2 + cnt3
    {
      var n1, n2, n3, nOther := Tally3(e1, e2, e3);
      CountInAll(bonds, {e1, e2, e3});
      CountInFirstMatch(bonds, e1, e2, e3);
      r := n1 == cnt1 && n2 == cnt2 && n3 == cnt3 && nOther == 0;
    }

    /** The counting loop of `isBonds(E1, cnt1, E2, cnt2, E3, cnt3)`. */
    method Tally3(e1: Element, e2: Element, e3: Element) returns (n1: nat, n2: nat, n3: nat, nOther: nat)
      ensures n1 == CountIn(bonds, {e1}) && n2 == CountIn(bonds, {e2} - {e1})
      ensures n3 == CountIn(bonds, {e3} - {e1, e2})
      ensures nOther + CountIn(bonds, {e1, e2, e3}) == |bonds|
    {
      n1, n2, n3, nOther := 0, 0, 0, 0;
      for i := 0 to |bonds|
        invariant n1 == CountIn(bonds[..i], {e1})
        invariant n2 == CountIn(bonds[..i], {e2} - {e1})
        invariant n3 == CountIn(bonds[..i], {e3} - {e1, e2})
        invariant nOther + CountIn(bonds[..i], {e1, e2, e3}) == i
      {
        FirstMatchStep(bonds, i, e1, e2, e3);
        var a := bonds[i];
        if a.elt == e1 {
          n1 := n1 + 1;
        } else if a.elt == e2 {
          n2 := n2 + 1;
        } else if a.elt == e3 {
          n3 := n3 + 1;
        } else {
          nOther := nOther + 1;
        }
      }
      assert bonds[..|bonds|] == bonds;
    }

    /** All neighbours with element `bondElt`, in bond order. */
    method FilterBonds(bondElt: Element) returns (res: seq<Atom>)
      ensures res == Filter(bonds, bondElt)
      ensures |res| == CountIn(bonds, {bondElt})
      ensures forall a :: a in res <==> a in bonds && a.elt == bondElt
    {
      res := [];
      for i := 0 to |bonds|
        invariant res == Filter(bonds[..i], bondElt)
      {
        assert bonds[..i + 1][..i] == bonds[..i];
        if bonds[i].elt == bondElt {
          res := res + [bonds[i]];
        }
      }
      assert bonds[..|bonds|] == bonds;
      FilterSpec(bonds, bondElt);
    }

    /** The one neighbour with element `bondElt`; an error when there are several or none. */
    method FilterBonds1(bondElt: Element) returns (r: Result<Atom, BondError>)
      ensures r.Ok? <==> CountIn(bonds, {bondElt}) == 1
      ensures r.Ok? ==> r.value in bonds && r.value.elt == bondElt
      ensures r == Err(DuplicateBond(elt, bondElt)) <==> CountIn(bonds, {bondElt}) >= 2
      ensures r == Err(NoBond(elt, bondElt)) <==> CountIn(bonds, {bondElt}) == 0
    {
      var res: Atom? := null;
      for i := 0 to |bonds|
        invariant res == null <==> CountIn(bonds[..i], {bondElt}) == 0
        invariant res != null ==> CountIn(bonds[..i], {bondElt}) == 1 && res in bonds[..i] && res.elt == bondElt
      {
        assert bonds[..i + 1][..i] == bonds[..i];
        var a := bonds[i];
        if a.elt == bondElt {
          if res != null {
            CountInPrefix(bonds, i + 1, {bondElt});
            return Err(DuplicateBond(elt, bondElt));
          }
          res := a;
        }
      }
      assert bonds[..|bonds|] == bonds;
      if res == null {
        return Err(NoBond(elt, bondElt));
      }
      return Ok(res);
    }
  }

  class Molecule {
    var id: string
    var descr: string
    /** The owned atoms, in insertion order. */
    var atoms: seq<Atom>

    /** The bond graph: every contained atom mapped to its bond list. */
    ghost function Graph(): BondLists.Graph<Atom>
      reads this, atoms
    {
      map a | a in atoms :: a.bonds
    }

    /**
      * The molecule invariant: atoms are distinct objects, each owned by this molecule, and the
      * bond graph is closed (no dangling neighbour) and symmetric.
      */
    ghost predicate Valid()
      reads this, atoms
    {
      && Distinct(atoms)
      && (forall a :: a in atoms ==> a.molecule == this)
      && BondLists.Closed(Graph())
      && BondLists.Symmetric(Graph())
    }

    /** `n` is an owned copy of `a`: same element and position, no bonds, owned by this molecule. */
    ghost predicate OwnedCopy(n: Atom, a: Atom)
      reads n, a
    {
      n.elt == a.elt && n.pos == a.pos && n.bonds == [] && n.molecule == this
    }

    /** A molecule is created empty. */
    constructor (newDescr: string)
      ensures Valid() && atoms == [] && descr == newDescr
    {
      id := "";
      descr := newDescr;
      atoms := [];
    }

    /** Appends an owned copy of `a`: same element and position, no bonds. Bonds are not re-detected. */
    method Add(a: Atom)
      modifies this`atoms
      ensures |atoms| == |old(atoms)| + 1 && atoms[..|old(atoms)|] == old(atoms)
      ensures fresh(atoms[|atoms| - 1]) && OwnedCopy(atoms[|atoms| - 1], a)
      ensures Graph() == old(Graph())[atoms[|atoms| - 1] := []]
      ensures old(Valid()) ==> Valid()
    {
      ghost var g: BondLists.Graph<Atom> := Graph();
      var copy := new Atom.Copy(a);
      var owned := copy.SetMolecule(this);
      assert forall x :: x in old(atoms) ==> owned !in x.bonds;
      atoms := atoms + [owned];
      assert Graph() == g[owned := []];
      if old(Valid()) {
        BondLists.AddIsolatedKeepsInvariant(g, owned);
      }
    }

    /**
      * The copy loop of `add(const Molecule&)`: an owned copy of each atom of `m`, in order.
      * The bond re-detection that follows it in the source is not part of this model.
      */
    method AddCopies(m: Molecule)
      requires m != this
      modifies this`atoms
      ensures |atoms| == |old(atoms)| + |m.atoms| && atoms[..|old(atoms)|] == old(atoms)
      ensures fresh(atoms[|old(atoms)|..])
      ensures forall k :: 0 <= k < |m.atoms| ==> OwnedCopy(atoms[|old(atoms)| + k], m.atoms[k])
      ensures old(Valid()) ==> Valid()
    {
      var start := |atoms|;
      var k := 0;
      while k < |m.atoms|
        invariant k <= |m.atoms| && m.atoms == old(m.atoms)
        invariant |atoms| == start + k && atoms[..start] == old(atoms)
        invariant fresh(atoms[start..])
        invariant forall j :: 0 <= j < k ==> OwnedCopy(atoms[start + j], m.atoms[j])
        invariant old(Valid()) ==> Valid()
      {
        ghost var before := atoms;
        Add(m.atoms[k]);
        assert atoms[start..] == before[start..] + [atoms[|atoms| - 1]];
        assert forall j :: 0 <= j < |before| ==> atoms[j] == before[j];
        k := k + 1;
      }
    }

    /** `a.link(b)` on two atoms of this molecule: the graph gains the bond and stays valid. */
    method LinkAtoms(a: Atom, b: Atom)
      requires Valid() && a in atoms && b in atoms
      modifies a`bonds, b`bonds
      ensures Valid()
      ensures Graph() == BondLists.Link(old(Graph()), a, b)
    {
      ghost var g: BondLists.Graph<Atom> := Graph();
      BondLists.LinkKeepsInvariant(g, a, b);
      ghost var r := BondLists.Link(g, a, b);
      a.Link(b);
      forall x | x in atoms
        ensures Graph()[x] == r[x]
      {
        if x != a && x != b {
          assert x.bonds == old(x.bonds) == g[x];
        }
      }
      assert Graph() == r;
    }

    /** The first atom, in sequence order, with element `e`; null if there is none. */
    method FindFirst(e: Element) returns (r: Atom?)
      ensures r == null <==> forall a :: a in atoms ==> a.elt != e
      ensures r != null ==> exists k :: 0 <= k < |atoms| && atoms[k] == r && r.elt == e
                                        && forall j :: 0 <= j < k ==> atoms[j].elt != e
    {
      for i := 0 to |atoms|
        invariant forall j :: 0 <= j < i ==> atoms[j].elt != e
      {
        if atoms[i].elt == e {
          return atoms[i];
        }
      }
      return null;
    }

    /** The last atom, in sequence order, with element `e`; null if there is none. */
    method FindLast(e: Element) returns (r: Atom?)
      ensures r == null <==> forall a :: a in atoms ==> a.elt != e
      ensures r != null ==> exists k :: 0 <= k < |atoms| && atoms[k] == r && r.elt == e
                                        && forall j :: k < j < |atoms| ==> atoms[j].elt != e
    {
      var i := |atoms|;
      while i > 0
        invariant 0 <= i <= |atoms|
        invariant forall j :: i <= j < |atoms| ==> atoms[j].elt != e
      {
        if atoms[i - 1].elt == e {
          return atoms[i - 1];
        }
        i := i - 1;
      }
      return null;
    }

    /**
      * `while (!a->bonds.empty()) a->unlink(a->bonds[0])`: afterwards `a` has no bonds and every
      * other atom's list has lost all its occurrences of `a`, keeping the rest in order.
      */
    method Isolate(a: Atom)
      requires Valid() && a in atoms
      modifies atoms`bonds
      ensures Valid()
      ensures a.bonds == []
      ensures Graph() == BondLists.Detach(old(Graph()), a)[a := []]
    {
      ghost var g0: BondLists.Graph<Atom> := Graph();
      while a.bonds != []
        invariant Valid() && Graph().Keys == g0.Keys
        invariant forall x :: x in atoms && x != a ==> BondLists.Without(x.bonds, a) == BondLists.Without(g0[x], a)
        decreases |a.bonds|
      {
        UnlinkFirstBond(a);
      }
      forall x | x in atoms && x != a
        ensures x.bonds == BondLists.Without(g0[x], a)
      {
        assert BondLists.Occ(Graph()[x], a) == BondLists.Occ(Graph()[a], x);
        BondLists.OccPositive(x.bonds, a);
        BondLists.WithoutAbsent(x.bonds, a);
      }
      assert Graph() == BondLists.Detach(g0, a)[a := []];
    }

    /** One round of the loop of `Isolate`: `a.unlink(a.bonds[0])`, which cannot fail in a valid molecule. */
    method UnlinkFirstBond(a: Atom)
      requires Valid() && a in atoms && a.bonds != []
      modifies atoms`bonds
      ensures Valid()
      ensures BondLists.Unlink(old(Graph()), a, old(a.bonds[0])) == Some(Graph())
      ensures |a.bonds| < old(|a.bonds|)
      ensures forall x :: x in atoms && x != a ==>
                BondLists.Without(x.bonds, a) == BondLists.Without(old(x.bonds), a)
    {
      ghost var g: BondLists.Graph<Atom> := Graph();
      var b := a.bonds[0];
      assert b in g[a];
      BondLists.UnlinkBondedSucceeds(g, a, b);
      BondLists.UnlinkKeepsInvariant(g, a, b);
      ghost var r := BondLists.Unlink(g, a, b).value;
      ghost var bb := b.bonds;
      var ok := a.Unlink(b);
      forall x | x in atoms
        ensures Graph()[x] == r[x]
      {
        if x != a && x != b {
          assert x.bonds == old(x.bonds) == g[x];
        }
      }
      assert Graph() == r;
      BondLists.WithoutRemoveFirst(bb, a);
      BondLists.RemoveFirstLength(g[a], b);
      BondLists.RemoveFirstLength(BondLists.RemoveFirst(g[a], b), a);
    }

    /**
      * Removes atom `a`, found by scanning from the front: it is unlinked from every neighbour
      * and erased from the sequence. `found` is false where the source reaches `unreachable()`.
      */
    method RemoveAtBegin(a: Atom) returns (found: bool)
      requires Valid()
      modifies this`atoms, atoms`bonds
      ensures Valid()
      ensures found == (a in old(atoms))
      ensures !found ==> atoms == old(atoms) && Graph() == old(Graph())
      ensures found ==> exists i :: 0 <= i < |old(atoms)| && old(atoms)[i] == a
                                    && atoms == old(atoms)[..i] + old(atoms)[i + 1..]
      ensures found ==> Graph() == BondLists.Detach(old(Graph()), a)
      ensures forall x :: x in atoms ==> a !in x.bonds
    {
      var i := 0;
      while i < |atoms|
        invariant 0 <= i <= |atoms|
        invariant a !in atoms[..i]
      {
        if atoms[i] == a {
          Erase(a, i);
          return true;
        }
        assert atoms[..i + 1] == atoms[..i] + [atoms[i]];
        i := i + 1;
      }
      assert atoms[..i] == atoms;
      ClosedExcludesOutsider(a);
      return false;
    }

    /** As `RemoveAtBegin`, but the scan for `a` runs from the back. */
    method RemoveAtEnd(a: Atom) returns (found: bool)
      requires Valid()
      modifies this`atoms, atoms`bonds
      ensures Valid()
      ensures found == (a in old(atoms))
      ensures !found ==> atoms == old(atoms) && Graph() == old(Graph())
      ensures found ==> exists i :: 0 <= i < |old(atoms)| && old(atoms)[i] == a
                                    && atoms == old(atoms)[..i] + old(atoms)[i + 1..]
      ensures found ==> Graph() == BondLists.Detach(old(Graph()), a)
      ensures forall x :: x in atoms ==> a !in x.bonds
    {
      var idx := |atoms|;
      while idx > 0
        invariant 0 <= idx <= |atoms|
        invariant a !in atoms[idx..]
      {
        if atoms[idx - 1] == a {
          Erase(a, idx - 1);
          return true;
        }
        assert atoms[idx - 1..] == [atoms[idx - 1]] + atoms[idx..];
        idx := idx - 1;
      }
      assert atoms[idx..] == atoms;
      ClosedExcludesOutsider(a);
      return false;
    }

    /** The common tail of both removals: isolate the atom at index `i`, then erase it. */
    method Erase(a: Atom, i: nat)
      requires Valid() && i < |atoms| && atoms[i] == a
      modifies this`atoms, atoms`bonds
      ensures Valid()
      ensures atoms == old(atoms)[..i] + old(atoms)[i + 1..]
      ensures Graph() == BondLists.Detach(old(Graph()), a)
      ensures forall x :: x in atoms ==> a !in x.bonds
    {
      ghost var g0: BondLists.Graph<Atom> := Graph();
      Isolate(a);
      ghost var g1: BondLists.Graph<Atom> := Graph();
      EraseAt(i);
      assert g1 - {a} == BondLists.Detach(g0, a);
      BondLists.DetachKeepsInvariant(g0, a);
      forall x | x in atoms
        ensures a !in x.bonds
      {
        assert x in Graph() && Graph()[x] == x.bonds;
      }
    }

    /** `atoms.erase(atoms.begin() + i)`: the atom at `i` leaves the sequence and the graph. */
    method EraseAt(i: nat)
      requires i < |atoms| && Distinct(atoms)
      modifies this`atoms
      ensures atoms == old(atoms)[..i] + old(atoms)[i + 1..]
      ensures Distinct(atoms) && forall x :: x in atoms ==> x in old(atoms)
      ensures Graph() == old(Graph()) - {old(atoms)[i]}
    {
      DistinctErase(atoms, i);
      atoms := atoms[..i] + atoms[i + 1..];
    }

    /** In a valid molecule no atom lists a neighbour that is not one of the molecule's atoms. */
    lemma ClosedExcludesOutsider(a: Atom)
      requires Valid() && a !in atoms
      ensures forall x :: x in atoms ==> a !in x.bonds
    {
      assert a !in Graph();
      forall x | x in atoms
        ensures a !in x.bonds
      {
        assert x in Graph() && Graph()[x] == x.bonds;
      }
    }
  }
}
