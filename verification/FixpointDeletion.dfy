// Deleting what is no longer used, until nothing changes: delete_functions_recursively one at a time,
// and the dead-instruction loops of the canonicalization passes a round at a time.
module FixpointDeletion {

  // Who refers to whom: refs[u] are the things that u refers to; pinned ones are also referred to from
  // elsewhere.
  datatype References = References(refs: map<nat, set<nat>>, pinned: set<nat>)

  ghost predicate Used(r: References, x: nat, present: set<nat>) {
    x in r.pinned || exists u :: u in present && u in r.refs && x in r.refs[u]
  }

  // Each member is used by something that is never removed, or by a member.
  ghost predicate Supported(r: References, kept: set<nat>, survivors: set<nat>) {
    forall x :: x in survivors ==> Used(r, x, kept + survivors)
  }

  // The largest supported subset of the candidates.
  ghost predicate LargestSupported(r: References, kept: set<nat>, candidates: set<nat>, survivors: set<nat>) {
    survivors <= candidates && Supported(r, kept, survivors) &&
    forall t :: t <= candidates && Supported(r, kept, t) ==> t <= survivors
  }

  ghost function Elements(q: seq<nat>): set<nat> {
    set i | 0 <= i < |q| :: q[i]
  }

  // Everything in q was unused when it was erased.
  ghost predicate UnusedInOrder(r: References, present: set<nat>, q: seq<nat>) {
    forall i :: 0 <= i < |q| ==> !Used(r, q[i], present - Elements(q[..i]))
  }

  // No supported set loses a member when something unused is erased.
  lemma SupportedStays(r: References, kept: set<nat>, candidates: set<nat>, left: set<nat>, x: nat, t: set<nat>)
    requires t <= left <= candidates && Supported(r, kept, t) && !Used(r, x, kept + left)
    ensures x !in t
  {
    MoreUsers(r, x, kept + t, kept + left);
  }

  lemma MoreUsers(r: References, x: nat, few: set<nat>, many: set<nat>)
    requires few <= many
    ensures Used(r, x, few) ==> Used(r, x, many)
  {
  }

  // A round takes nothing from a supported set, and the last round took nothing at all.
  lemma RoundStep(r: References, kept: set<nat>, candidates: set<nat>, left: set<nat>, removed: set<nat>)
    requires left <= candidates && removed <= left
    requires forall x :: x in left ==> (x in removed <==> !Used(r, x, kept + left))
    requires forall t :: t <= candidates && Supported(r, kept, t) ==> t <= left
    ensures forall t :: t <= candidates && Supported(r, kept, t) ==> t <= left - removed
    ensures |left| == |left - removed| + |removed|
    ensures |removed| == 0 ==> LargestSupported(r, kept, candidates, left - removed)
  {
    forall t | t <= candidates && Supported(r, kept, t)
      ensures t <= left - removed
    {
      forall x | x in t
        ensures x !in removed
      {
        if x in removed {
          SupportedStays(r, kept, candidates, left, x, t);
        }
      }
    }
    assert left == (left - removed) + removed;
    assert removed == {} ==> left - removed == left;
  }

  class Module {
    const r: References
    var present: set<nat>

    constructor (r: References, present: set<nat>)
      ensures this.r == r && this.present == present
    {
      this.r, this.present := r, present;
    }

    // getNumUses() == 0
    predicate Unused(x: nat)
      reads this
      ensures Unused(x) <==> !Used(r, x, present)
    {
      x !in r.pinned && forall u :: u in present && u in r.refs ==> x !in r.refs[u]
    }

    // Erases one unused function at a time, whichever the iteration meets first.
    method DeleteFunctionsRecursively(funToRemove0: set<nat>) returns (funToRemove: set<nat>, ghost order: seq<nat>)
      requires funToRemove0 <= present
      modifies this
      ensures funToRemove == {}
      ensures Elements(order) <= funToRemove0 && present == old(present) - Elements(order)
      ensures UnusedInOrder(r, old(present), order)
      ensures LargestSupported(r, old(present) - funToRemove0, funToRemove0, funToRemove0 - Elements(order))
    {
      funToRemove, order := funToRemove0, [];
      ghost var kept := present - funToRemove0;
      while true
        invariant funToRemove == funToRemove0 - Elements(order) && Elements(order) <= funToRemove0
        invariant present == kept + funToRemove == old(present) - Elements(order)
        invariant UnusedInOrder(r, old(present), order)
        invariant forall t :: t <= funToRemove0 && Supported(r, kept, t) ==> t <= funToRemove
        decreases funToRemove
      {
        if f: nat :| f in funToRemove && Unused(f) {
          forall t | t <= funToRemove0 && Supported(r, kept, t)
            ensures t <= funToRemove - {f}
          {
            SupportedStays(r, kept, funToRemove0, funToRemove, f, t);
          }
          ElementsSnoc(order, f);
          OrderSnoc(r, old(present), order, f);
          present := present - {f};
          funToRemove := funToRemove - {f};
          order := order + [f];
        } else {
          break;
        }
      }
      funToRemove := {};
    }

    // Erases in rounds everything that is unused at the start of the round.
    method RemoveDead(instToRemove: set<nat>) returns (removeSet: set<nat>)
      requires instToRemove <= present
      modifies this
      ensures removeSet <= instToRemove && present == old(present) - (instToRemove - removeSet)
      ensures LargestSupported(r, old(present) - instToRemove, instToRemove, removeSet)
    {
      removeSet := instToRemove;
      ghost var kept := present - instToRemove;
      var numDeletion := 1;
      while numDeletion > 0
        invariant removeSet <= instToRemove && present == kept + removeSet
        invariant forall t :: t <= instToRemove && Supported(r, kept, t) ==> t <= removeSet
        invariant numDeletion >= 0
        invariant numDeletion == 0 ==> LargestSupported(r, kept, instToRemove, removeSet)
        decreases |removeSet|, numDeletion
      {
        var removedSet := set x | x in removeSet && Unused(x);
        RoundStep(r, kept, instToRemove, removeSet, removedSet);
        present := present - removedSet;
        removeSet := removeSet - removedSet;
        numDeletion := |removedSet|;
      }
      assert old(present) == kept + instToRemove;
    }
  }

  lemma ElementsSnoc(q: seq<nat>, x: nat)
    ensures Elements(q + [x]) == Elements(q) + {x}
  {
    forall y | y in Elements(q) + {x}
      ensures y in Elements(q + [x])
    {
      if y in Elements(q) {
        var i :| 0 <= i < |q| && q[i] == y;
        assert (q + [x])[i] == y;
      } else {
        assert (q + [x])[|q|] == y;
      }
    }
  }

  lemma OrderSnoc(r: References, present: set<nat>, q: seq<nat>, x: nat)
    requires UnusedInOrder(r, present, q) && !Used(r, x, present - Elements(q))
    ensures UnusedInOrder(r, present, q + [x])
  {
    var q' := q + [x];
    forall i | 0 <= i < |q'|
      ensures !Used(r, q'[i], present - Elements(q'[..i]))
    {
      if i < |q| {
        assert q'[..i] == q[..i];
      } else {
        assert q'[..i] == q;
      }
    }
  }
}
