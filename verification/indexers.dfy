/**
 * Handle registries of lib/main.cpp and of the solver models.
 *
 * A registry issues handles 0, 1, 2, ... and never reuses one. The
 * deletion-aware registry (`MonotoneVector` / `ChunkedBitVector` /
 * `MonotoneIndexer` in the source) is modelled by its abstract state: one live
 * flag per issued handle. The position of a live handle is the number of live
 * handles below it, which is where the backend solver finds that entity after
 * compacting its arrays; a dead or never-issued handle has position -1.
 */
module Indexers {
  import opened Forms

  type Handle = nat

  /** The number of live handles among the first `h` handles. */
  function LiveBelow(live: seq<bool>, h: nat): (n: nat)
    requires h <= |live|
    ensures n <= h
  {
    if h == 0 then 0 else LiveBelow(live, h - 1) + (if live[h - 1] then 1 else 0)
  }

  /** The number of live handles. */
  function LiveCount(live: seq<bool>): nat {
    LiveBelow(live, |live|)
  }

  /** What `get_index` reports for handle `h`: its compacted position, or -1. */
  function Position(live: seq<bool>, h: Handle): int {
    if h < |live| && live[h] then LiveBelow(live, h) else -1
  }

  /** The set of positions that live handles occupy. */
  function LivePositions(live: seq<bool>): set<int> {
    set h | 0 <= h < |live| && live[h] :: Position(live, h)
  }

  /** Prefix counts grow by at least one across a live handle. */
  lemma {:induction false} LiveBelowGrows(live: seq<bool>, h: nat, k: nat)
    requires h < k <= |live|
    ensures live[h] ==> LiveBelow(live, h) < LiveBelow(live, k)
    ensures LiveBelow(live, h) <= LiveBelow(live, k)
  {
    if k > h + 1 {
      LiveBelowGrows(live, h, k - 1);
    }
  }

  /** Every count below the prefix count at `n` is the position of a live handle below `n`. */
  lemma {:induction false} LiveBelowOnto(live: seq<bool>, n: nat, p: nat)
    requires n <= |live|
    requires p < LiveBelow(live, n)
    ensures exists h :: 0 <= h < n && live[h] && LiveBelow(live, h) == p
  {
    if p < LiveBelow(live, n - 1) {
      LiveBelowOnto(live, n - 1, p);
    } else {
      assert live[n - 1] && LiveBelow(live, n - 1) == p;
    }
  }

  /**
   * Invariant R1: the live handles occupy exactly the positions
   * 0 .. LiveCount - 1, and a smaller live handle has a smaller position, so
   * no two live handles share one.
   */
  lemma LivePositionsContiguous(live: seq<bool>)
    ensures forall p :: p in LivePositions(live) <==> 0 <= p < LiveCount(live)
    ensures forall h, k :: 0 <= h < k < |live| && live[h] && live[k] ==> Position(live, h) < Position(live, k)
  {
    forall h, k | 0 <= h < k < |live| && live[h] && live[k]
      ensures Position(live, h) < Position(live, k)
    {
      LiveBelowGrows(live, h, k);
    }
    forall h | 0 <= h < |live| && live[h]
      ensures 0 <= Position(live, h) < LiveCount(live)
    {
      LiveBelowGrows(live, h, |live|);
    }
    forall p | 0 <= p < LiveCount(live)
      ensures p in LivePositions(live)
    {
      LiveBelowOnto(live, |live|, p);
    }
  }

  /** Clearing the flag of a live handle `d` removes one from every prefix count past `d`. */
  lemma {:induction false} LiveBelowAfterDelete(live: seq<bool>, d: nat, h: nat)
    requires d < |live| && live[d]
    requires h <= |live|
    ensures LiveBelow(live[d := false], h) == LiveBelow(live, h) - (if d < h then 1 else 0)
  {
    if h > 0 {
      LiveBelowAfterDelete(live, d, h - 1);
    }
  }

  /**
   * Invariant R2: deleting the live handle `d` makes it report -1 and moves
   * every live handle positioned after it down by one; all other handles keep
   * their positions.
   */
  lemma DeleteShiftsLater(live: seq<bool>, d: Handle, h: Handle)
    requires d < |live| && live[d]
    ensures Position(live[d := false], d) == -1
    ensures h != d ==>
      Position(live[d := false], h) ==
        (if Position(live, h) > Position(live, d) then Position(live, h) - 1 else Position(live, h))
  {
    if h != d && h < |live| {
      LiveBelowAfterDelete(live, d, h);
      if d < h {
        LiveBelowGrows(live, d, h);
      } else {
        LiveBelowGrows(live, h, d);
      }
    }
  }

  /** Handles that were never deleted report themselves: the registry of `add_index` calls alone is the identity. */
  lemma {:induction false} NoDeletionIsIdentity(n: nat, h: Handle)
    ensures Position(seq(n, _ => true), h) == if h < n then h else -1
  {
    if h < n {
      AllLiveBelow(seq(n, _ => true), h);
    }
  }

  /** Prefix counts only look at the prefix: appending handles does not change them. */
  lemma {:induction false} LiveBelowOfPrefix(a: seq<bool>, b: seq<bool>, h: nat)
    requires h <= |a|
    ensures LiveBelow(a + b, h) == LiveBelow(a, h)
  {
    if h > 0 {
      LiveBelowOfPrefix(a, b, h - 1);
      assert (a + b)[h - 1] == a[h - 1];
    }
  }

  /** In a prefix of live handles the count is the prefix length. */
  lemma {:induction false} AllLiveBelow(live: seq<bool>, h: nat)
    requires h <= |live|
    requires forall i :: 0 <= i < h ==> live[i]
    ensures LiveBelow(live, h) == h
  {
    if h > 0 {
      AllLiveBelow(live, h - 1);
    }
  }

  /** The registry of `MonotoneVector` / `ChunkedBitVector`, by its live flags. */
  class MonotoneIndexer {
    /** One flag per issued handle; a handle is issued once and never reused. */
    var live: seq<bool>

    constructor ()
      ensures live == []
    {
      live := [];
    }

    /** Issues the next handle, live at position `LiveCount`. */
    method AddIndex() returns (h: Handle)
      modifies this
      ensures h == |old(live)|
      ensures live == old(live) + [true]
      ensures Position(live, h) == LiveCount(old(live))
      ensures LiveCount(live) == LiveCount(old(live)) + 1
    {
      h := |live|;
      live := live + [true];
      LiveBelowOfPrefix(old(live), [true], h);
    }

    /** Issues `n` consecutive live handles after the last one and returns the first. */
    method AddIndices(n: nat) returns (first: Handle)
      modifies this
      ensures first == |old(live)|
      ensures live == old(live) + seq(n, _ => true)
    {
      first := |live|;
      live := live + seq(n, _ => true);
    }

    /** Marks `h` dead; deleting a dead or never-issued handle changes nothing. */
    method DeleteIndex(h: Handle)
      modifies this
      ensures live == if h < |old(live)| then old(live)[h := false] else old(live)
      ensures LiveCount(live) == LiveCount(old(live)) - (if Position(old(live), h) >= 0 then 1 else 0)
    {
      if h < |live| {
        if live[h] {
          LiveBelowAfterDelete(live, h, |live|);
        } else {
          assert live[h := false] == live;
        }
        live := live[h := false];
      }
    }

    /** The compacted position of `h`, or -1 when `h` is dead or was never issued. */
    method GetIndex(h: Handle) returns (p: int)
      ensures p == Position(live, h)
      ensures p == -1 || (0 <= p < LiveCount(live))
    {
      if h >= |live| || !live[h] {
        return -1;
      }
      var count, i := 0, 0;
      while i < h
        invariant 0 <= i <= h
        invariant count == LiveBelow(live, i)
      {
        if live[i] {
          count := count + 1;
        }
        i := i + 1;
      }
      p := count;
      LiveBelowGrows(live, h, |live|);
    }
  }

  /** `MapIndexer`: a hash map from every issued handle to itself. */
  class MapIndexer {
    var entries: map<Handle, int>

    /** The keys are the handles below the size, each mapped to itself. */
    ghost predicate Valid()
      reads this
    {
      forall h: Handle :: (h in entries <==> h < |entries|) && (h in entries ==> entries[h] == h)
    }

    constructor ()
      ensures Valid() && entries == map[]
    {
      entries := map[];
    }

    /** Issues `map.size()` and maps it to itself. */
    method AddIndex() returns (h: Handle)
      requires Valid()
      modifies this
      ensures Valid()
      ensures h == |old(entries)| && entries == old(entries)[h := h]
    {
      h := |entries|;
      entries := entries[h := h];
    }

    /** The handle itself when it was issued, -1 otherwise. */
    method GetIndex(x: Handle) returns (r: int)
      requires Valid()
      ensures r == if x < |entries| then x else -1
    {
      if x !in entries {
        return -1;
      }
      r := entries[x];
    }
  }

  /** `VecIndexer`: a vector whose slot `i` holds `i`. */
  class VecIndexer {
    var vec: seq<int>

    ghost predicate Valid()
      reads this
    {
      forall i :: 0 <= i < |vec| ==> vec[i] == i
    }

    constructor ()
      ensures Valid() && vec == []
    {
      vec := [];
    }

    /** Appends the previous length and returns it. */
    method AddIndex() returns (h: Handle)
      requires Valid()
      modifies this
      ensures Valid()
      ensures h == |old(vec)| && vec == old(vec) + [h]
    {
      h := |vec|;
      vec := vec + [h];
    }

    /** The handle itself when it is below the length, -1 exactly when it is not. */
    method GetIndex(x: Handle) returns (r: int)
      requires Valid()
      ensures r == if x < |vec| then x else -1
    {
      if x >= |vec| {
        return -1;
      }
      r := vec[x];
    }
  }

  /**
   * The registries a solver model keeps, one per namespace: variables, linear
   * constraints, quadratic constraints, and SOS constraints (SOS1 and SOS2
   * share one registry).
   */
  class ModelIndexers {
    const variables: MonotoneIndexer
    const linear: MonotoneIndexer
    const quadratic: MonotoneIndexer
    const sos: MonotoneIndexer

    ghost predicate Valid()
      reads this
    {
      && variables != linear && variables != quadratic && variables != sos
      && linear != quadratic && linear != sos && quadratic != sos
    }

    constructor ()
      ensures Valid()
      ensures fresh(variables) && fresh(linear) && fresh(quadratic) && fresh(sos)
      ensures variables.live == linear.live == quadratic.live == sos.live == []
    {
      variables := new MonotoneIndexer();
      linear := new MonotoneIndexer();
      quadratic := new MonotoneIndexer();
      sos := new MonotoneIndexer();
    }

    /** The registry of a constraint namespace. */
    function Registry(kind: ConstraintType): (r: MonotoneIndexer)
      reads this
      ensures r != variables || !Valid()
    {
      match kind
      case Linear => linear
      case Quadratic => quadratic
      case SOS1 => sos
      case SOS2 => sos
    }

    method AddVariable() returns (v: VariableIndex)
      requires Valid()
      modifies variables
      ensures v.index == |old(variables.live)|
      ensures variables.live == old(variables.live) + [true]
    {
      var h := variables.AddIndex();
      v := VariableIndex(h);
    }

    /** Issues a constraint handle in the namespace of `kind`; the other namespaces are untouched. */
    method AddConstraint(kind: ConstraintType) returns (c: ConstraintIndex)
      requires Valid()
      modifies Registry(kind)
      ensures c == ConstraintIndex(kind, |old(Registry(kind).live)|)
      ensures Registry(kind).live == old(Registry(kind).live) + [true]
    {
      var r := Registry(kind);
      var h := r.AddIndex();
      c := ConstraintIndex(kind, h);
    }

    method DeleteConstraint(c: ConstraintIndex)
      requires Valid()
      modifies Registry(c.kind)
      ensures var old_live := old(Registry(c.kind).live);
        Registry(c.kind).live == if c.index < |old_live| then old_live[c.index := false] else old_live
    {
      var r := Registry(c.kind);
      r.DeleteIndex(c.index);
    }

    /** The row of constraint `c` in the backend's array of its namespace, or -1. */
    method ConstraintPosition(c: ConstraintIndex) returns (p: int)
      requires Valid()
      ensures p == Position(Registry(c.kind).live, c.index)
    {
      var r := Registry(c.kind);
      p := r.GetIndex(c.index);
    }
  }
}
