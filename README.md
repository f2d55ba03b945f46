# ChemWiz atom/molecule bond bookkeeping in Dafny

This project models the bond graph bookkeeping of ChemWiz's `molecule.h`.

- An `Atom` carries an element tag, a position and an ordered list of bonded neighbours (`bonds`).
- A `Molecule` owns an ordered sequence of atoms.
- Bonds are recorded on both sides by `link`, removed on both sides by `unlink`, and queried by
  the neighbour-pattern helpers (`findOnlyC`, `isBonds`, `filterBonds`, ...).
- Atoms are appended as bond-less copies and removed with all their bonds (`removeAtBegin`,
  `removeAtEnd`).
- `atomBondAvgRadius` / `atomBondAvgDistance` are the covalent-radius table behind the bond
  heuristics.

Files:

- `wrappers.dfy`: `Option` and `Result`.
- `elements.dfy` (module `Elements`): the element enumeration and the radius table. Its values are
  exact `real` decimals.
- `bond_lists.dfy` (module `BondLists`): the value-level view of bond lists.
  - `Occ`, `RemoveFirst` (what `vector::erase` of the first match does) and `Without`.
  - The bond graph is a `map<Atom, seq<Atom>>` from each contained atom to its list.
  - `Link`, `Unlink` and `Detach` act on that graph.
  - The invariant has two parts. `Closed`: no dangling neighbour. `Symmetric`: `a` appears in
    `b`'s list as often as `b` in `a`'s, and a self-bond, which `link` pushes twice, appears an
    even number of times.
- `molecule.dfy` (module `Molecules`): `class Atom` and `class Molecule` with the source's
  mutable fields.
  - The neighbour and atom queries are loops proved against the counting function `CountIn` and
    the filter `Filter`.
  - A molecule's `Graph()` is the map above read off the heap.
  - `Valid()` says the atoms are distinct, owned by the molecule, and form a closed, symmetric
    graph.
  - The `Atom` mutators (`AddToBonds`, `Link`, `RemoveFromBonds`, `Unlink`, `SetMolecule`) state
    their effect on the atoms they touch. They know nothing of molecules.
  - The `Molecule` methods that change bonds are `LinkAtoms`, `UnlinkFirstBond`, `Isolate`,
    `Erase`, `RemoveAtBegin` and `RemoveAtEnd`. Each is proved to keep `Valid()` and to change
    `Graph()` exactly as `BondLists.Link`, `BondLists.Unlink` or `BondLists.Detach` says.
  - `Add` and `AddCopies` keep `Valid()` and append owned, bond-less copies. `Add` also states the
    new graph, which gains one empty entry.
  - All of these change only bond lists and the atom sequence. No position, owner, id or
    description changes.

`unreachable()` and the two exceptions are modelled as results:

- a `false` flag: `removeFromBonds`, `unlink`, `removeAtBegin`, `removeAtEnd`;
- `Result` errors: `findFirstBond`, `filterBonds1`, the radius table.

## Model

| member | source | states |
|---|---|---|
| Elements.AtomBondAvgRadius | molecule.h:70-79 | Defined exactly for H, C, N, O, S. Any other element yields `UnknownElement(e)`. Every radius lies in 0.37..1.04. |
| Elements.AtomBondAvgDistance | molecule.h:80-85 | Defined iff both elements are tabulated. The H-H special case 2 * 0.37 agrees with the general rule: every result is the sum of the two radii. On failure the left element is reported if it is unknown, otherwise the right one. |
| Elements.AvgDistanceSymmetric | molecule.h:80-85 | The expected bond length does not depend on the order of the two elements. |
| Molecules.Atom.constructor | molecule.h:53-56 | A new atom has the given element and position, no bonds and no molecule. |
| Molecules.Atom.Copy | molecule.h:57-60 | The copy constructor copies element and position only; bonds start empty and the owner is null. |
| Molecules.Atom.SetMolecule | molecule.h:68 | Sets the owner and returns the atom itself. |
| Molecules.Atom.AddToBonds | molecule.h:99-101 | Appends exactly one entry to `bonds`. |
| Molecules.Atom.Link | molecule.h:95-98 | Appends `othr` to this list and this atom to `othr`'s. A self-link appends this atom twice. |
| Molecules.Atom.RemoveFromBonds | molecule.h:102-109 | Succeeds iff `a` is listed. It erases exactly the first occurrence and keeps every other entry in order. On failure (`unreachable()`) the list is unchanged. |
| Molecules.Atom.Unlink | molecule.h:110-113 | Erases the first `othr` from this list and then the first occurrence of this atom from `othr`'s. It succeeds iff both are present; for a self-unlink, two copies are needed. |
| BondLists.RemoveFirst | molecule.h:102-109 | The first-match erase of `removeFromBonds` removes at most one entry. |
| BondLists.Link | molecule.h:95-98 | `link` as a graph update. Only the lists of `a` and `b` change, and the atom set stays the same. |
| BondLists.Unlink | molecule.h:110-113 | `unlink` as a graph update. It fails (`unreachable()`) when `b` is not in `a`'s list. On success, only the lists of `a` and `b` change and the atom set stays the same. |
| BondLists.Detach | molecule.h:242-264 | The graph after removing `a` loses exactly the key `a`, and no remaining list mentions `a`. |
| BondLists.UnlinkAfterLinkRestoresCounts | molecule.h:95-113 | `unlink` right after `link` always succeeds, also for a pair that was already bonded. It restores how often every atom appears in every list. |
| Molecules.Molecule.LinkAtoms | molecule.h:95-98 | `link` between two atoms of a valid molecule changes the bond graph exactly as `BondLists.Link` and keeps the molecule valid. |
| BondLists.LinkKeepsInvariant | molecule.h:95-101 | `link` keeps the bond graph closed and symmetric (per-pair occurrence counts equal). |
| BondLists.LinkOcc | molecule.h:95-101 | `link` adds one `b` to `a`'s list and one `a` to `b`'s and changes no other count. |
| BondLists.UnlinkOcc | molecule.h:110-113 | A successful `unlink` removes one `b` from `a`'s list and one `a` from `b`'s and changes no other count. |
| BondLists.UnlinkBondedSucceeds | molecule.h:102-113 | In a symmetric graph, unlinking a listed neighbour never reaches `unreachable()`. |
| BondLists.UnlinkKeepsInvariant | molecule.h:110-113 | A successful `unlink` keeps the graph closed and symmetric. |
| BondLists.UnlinkUndoesLink | molecule.h:95-113 | `unlink` right after `link` of two previously unbonded atoms restores the graph exactly. |
| BondLists.RemoveFirstAt | molecule.h:102-107 | Erasing the first match at index `i` yields `s[..i] + s[i+1..]`. |
| BondLists.RemoveFirstLength | molecule.h:102-107 | Erasing a listed element shortens the list by exactly one. |
| BondLists.RemoveFirstAbsent | molecule.h:102-108 | Erasing an element that is not listed leaves the list unchanged. |
| BondLists.OccRemoveFirst | molecule.h:102-107 | Erasing the first `x` lowers the count of `x` by one when `x` is listed, and leaves every other count unchanged. |
| BondLists.DetachKeepsInvariant | molecule.h:242-264 | Removing an atom keeps the graph closed and symmetric, and no remaining list mentions the removed atom. |
| BondLists.AddIsolatedKeepsInvariant | molecule.h:205-207 | Adding a bond-less atom that nobody lists keeps the graph closed and symmetric. |
| Molecules.Atom.FindOnlyC | molecule.h:117-127 | Non-null iff exactly one neighbour is carbon, and then it returns that neighbour. Null for zero and for two or more. |
| Molecules.Atom.FindFirstBond | molecule.h:128-133 | Returns the first neighbour of the element. `Unreachable` iff no neighbour has it. |
| Molecules.Atom.IsBonds1 | molecule.h:134-142 | True iff exactly `cnt` neighbours have element `e` and no neighbour has another element. |
| Molecules.Atom.IsBonds2 | molecule.h:143-153 | True iff `cnt1` neighbours are `e1`, `cnt2` are `e2` but not `e1` (the earlier argument wins), and none is outside `{e1, e2}`. A true result implies `cnt1 + cnt2` bonds. |
| Molecules.Atom.Tally2 | molecule.h:144-151 | The counters of the two-element loop equal the first-match counts, and `cntOther` counts the neighbours outside `{e1, e2}`. |
| Molecules.Atom.IsBonds3 | molecule.h:154-166 | As `IsBonds2` with a third element, which counts only neighbours that are neither `e1` nor `e2`. A true result implies `cnt1 + cnt2 + cnt3` bonds. |
| Molecules.Atom.Tally3 | molecule.h:155-164 | The counters of the three-element loop equal the first-match counts, and `cntOther` counts the neighbours outside `{e1, e2, e3}`. |
| Molecules.CountInAll | molecule.h:134-166 | A count never exceeds the number of bonds, and it equals that number iff every neighbour's element is in the set. |
| Molecules.CountInFirstMatch | molecule.h:154-166 | The first-match counts of three elements add up to the count of neighbours in their union. |
| Molecules.Atom.FilterBonds | molecule.h:167-173 | Returns exactly the neighbours of the element, in bond order, as many as `CountIn` counts. |
| Molecules.FilterSpec | molecule.h:167-173 | The filter keeps exactly the neighbours of the element, and its length is their count. |
| Molecules.FilterAppend | molecule.h:167-173 | Filtering preserves order: the filter of a concatenation is the concatenation of the filters. |
| Molecules.Atom.FilterBonds1 | molecule.h:174-185 | `Ok` iff exactly one neighbour has the element, and then it returns that neighbour. `DuplicateBond` iff there are two or more. `NoBond` iff there are none. |
| Molecules.Molecule.constructor | molecule.h:200 | A new molecule is empty, valid and carries the description. |
| Molecules.Molecule.Add | molecule.h:205-207 | Appends one fresh atom with the same element and position, no bonds, owned by this molecule. Existing atoms and all bonds are unchanged. Validity is kept. |
| Molecules.Molecule.AddCopies | molecule.h:208-210 | Appends one fresh owned copy per atom of `m`, in order, and keeps existing atoms. Validity is kept. |
| Molecules.Molecule.FindFirst | molecule.h:223-228 | Returns the lowest-index atom with the element, or null iff there is none. |
| Molecules.Molecule.FindLast | molecule.h:229-234 | Returns the highest-index atom with the element, or null iff there is none. |
| Molecules.Molecule.UnlinkFirstBond | molecule.h:245-246 | One `a->unlink(a->bonds[0])` in a valid molecule never fails. It changes the graph exactly as `BondLists.Unlink`, keeps validity and shortens `a`'s list. Only bond lists change. |
| Molecules.Molecule.Isolate | molecule.h:245-246 | After the unlink loop, `a` has no bonds and every other list has lost all its occurrences of `a`, keeping the rest in order. Validity is kept. Only bond lists change. |
| Molecules.Molecule.EraseAt | molecule.h:247 | `atoms.erase` removes exactly the atom at the index and its graph entry, and keeps the rest in order and distinct. |
| Molecules.Molecule.Erase | molecule.h:245-249 | Unlinking and then erasing removes exactly one atom and leaves the graph `Detach(old, a)`. No remaining atom lists `a`. Validity is kept. Only bond lists and the atom sequence change; positions, owners, id and description stay. |
| Molecules.Molecule.RemoveAtBegin | molecule.h:242-252 | Succeeds iff `a` is a member. It then removes exactly that atom, keeping the others' order, and no remaining atom lists `a`. A non-member changes nothing. Validity is kept. Only bond lists and the atom sequence change; positions, owners, id and description stay. |
| Molecules.Molecule.RemoveAtEnd | molecule.h:253-264 | As `RemoveAtBegin`, with the search running from the back (`idx - 1` is the found position), and with the same frame. |
| Molecules.Molecule.ClosedExcludesOutsider | molecule.h:250-251 | In a valid molecule no atom lists a non-member, so the failure path leaves no dangling bond. |

## Left out

- Geometry is not modelled. Positions are an opaque `Vec3` of reals that is only copied. This covers `isBond`, `transform`, `applyMatrix`, `centerAt` and `add(const Molecule&, shft, rot)`; they are floating-point arithmetic.
- `detectBonds` is not part of this model, since its body is not in `molecule.h`. `AddCopies` models `add(const Molecule&)` only up to its copy loop.
- Other members whose bodies are not shown are not part of this model. This covers `findAaNterm`, `findAaCterm`, `findAaLast`, `appendAsAminoAcidChain`, the XYZ/PDB readers and writers, `toString`, the Molecule copy constructor and destructor, and the printing operators.
- `warning` output is not modelled.
- The `dbgAllocated` registries and the `obj` user-data pointer are left out. They are debugging aids, not behaviour.
- `delete a` after erasing is not modelled. The removed atom simply leaves the molecule; deallocation has no counterpart in Dafny.
- `setId`, `numAtoms`, `getNumAtoms` and `nbonds` are plain field reads and writes and are not modelled separately.
- Molecules.Molecule.constructor: the body of `Molecule(const std::string&)` is not in `molecule.h`. The model takes it to create an empty molecule with an empty id.
- Molecules.Molecule.AddCopies requires `m != this`. The source's range-for over `m.atoms` while pushing into the same vector is undefined behaviour when `m` is this molecule.
- Molecules.Atom.IsBonds1: the counters are C++ `unsigned` (32-bit) and are modelled as `nat`. The wrap-around that would need 2^32 bonds is not modelled. The same holds for IsBonds2, IsBonds3, Tally2 and Tally3.
- Elements.AtomBondAvgDistance: C++ leaves unspecified which operand of `atomBondAvgRadius(elt1) + atomBondAvgRadius(elt2)` is evaluated first. The model looks the left one up first, so when both are unknown it reports the left element.
- Elements.AtomBondAvgRadius: the radii are exact decimals (`real`), not the nearest `double`.
- Molecules.Atom: `elt` is a constant, because no modelled operation changes an atom's element.
- Molecules.Molecule.RemoveAtBegin requires `Valid()`, the molecule invariant that the removal relies on. The same holds for RemoveAtEnd, Erase, Isolate and UnlinkFirstBond.
  - Symmetry guarantees that no `unlink` inside the loop reaches `unreachable()`.
  - Distinctness, ownership and closure are what let the proofs conclude that only this molecule's atoms change, and that no remaining atom lists the removed one.
  - The source does not need all of this to finish normally. For example, it also completes when a symmetric bond leads to an atom of another molecule.
  - Such molecules, which break the invariant, are outside this model.
