/** Ownership between document objects: every chain of owners ends, within the depth limit. */
module ObjectGraphs {
  import opened Tags
  import opened Forests
  import opened Cycles
  import opened DocumentJoins

  const OWNER_ROOT: Byte := 1
  const OWNER_MAP: Byte := 2
  const OWNER_ARRAY: Byte := 3
  const KIND_MAP: Byte := 1
  const KIND_ARRAY: Byte := 2

  datatype GraphError = IncompleteState | TypeMismatch | InvalidState | ResourceLimit

  type Objects = map<Tag, Object>

  predicate Dangling(objects: Objects, x: Tag)
    requires x in objects
  {
    objects[x].owner.kind != OWNER_ROOT && objects[x].owner.parent !in objects
  }

  /** The owner of every object that has a known one. */
  function Up(objects: Objects): map<Tag, Tag> {
    map x | x in objects && objects[x].owner.kind != OWNER_ROOT && objects[x].owner.parent in objects ::
      objects[x].owner.parent
  }

  /** The owner is a container of the kind the ownership record names. */
  predicate OwnerTyped(objects: Objects, x: Tag)
    requires x in objects
  {
    var owner := objects[x].owner;
    x in Up(objects) ==>
      (owner.kind == OWNER_MAP ==> objects[owner.parent].kind == KIND_MAP)
        && (owner.kind == OWNER_ARRAY ==> objects[owner.parent].kind == KIND_ARRAY)
  }

  /** Following owners from x comes to an end after at most n steps. */
  ghost predicate EndsWithin(up: map<Tag, Tag>, x: Tag, n: int)
    decreases n
  {
    n >= 0 && (x in up ==> EndsWithin(up, up[x], n - 1))
  }

  lemma {:induction false} TrapNeverEnds(up: map<Tag, Tag>, S: set<Tag>, x: Tag, n: int)
    requires Trap(up, S) && x in S
    ensures !EndsWithin(up, x, n)
    decreases n
  {
    if n >= 0 {
      TrapNeverEnds(up, S, up[x], n - 1);
    }
  }

  /** Bounded chains make the ownership graph a forest. */
  lemma {:induction false} BoundedIsAcyclic(up: map<Tag, Tag>, n: int)
    requires forall x :: x in up ==> EndsWithin(up, x, n)
    ensures Acyclic(up)
  {
    forall S: set<Tag> ensures !Trap(up, S) {
      if Trap(up, S) {
        var x :| x in S;
        TrapNeverEnds(up, S, x, n);
      }
    }
  }

  /** A chain that comes back to itself never ends. */
  lemma {:induction false} LoopNeverEnds(up: map<Tag, Tag>, p: seq<Tag>, n: int)
    requires Path(up, p) && exists i :: 0 <= i < |p| - 1 && p[i] == p[|p| - 1]
    ensures !EndsWithin(up, p[|p| - 1], n)
  {
    var i :| 0 <= i < |p| - 1 && p[i] == p[|p| - 1];
    var S := set k | i <= k < |p| - 1 :: p[k];
    assert p[i] in S;
    forall x | x in S ensures x in up && up[x] in S {
      var k :| i <= k < |p| - 1 && p[k] == x;
      assert up[x] == p[k + 1];
    }
    TrapNeverEnds(up, S, p[|p| - 1], n);
  }

  /** Walk up from one object with a set of what was seen. */
  method CheckChain(objects: Objects, id: Tag, maxDepth: int, allowPending: bool) returns (error: Option<GraphError>)
    requires id in objects && maxDepth >= 0 && forall k :: k in objects ==> objects[k].id == k && k.Valid()
    ensures error.None? ==> EndsWithin(Up(objects), id, maxDepth)
    ensures error.Some? ==> error.value == IncompleteState || !EndsWithin(Up(objects), id, maxDepth)
    ensures error == Some(IncompleteState) ==> !allowPending && exists k :: k in objects && Dangling(objects, k)
  {
    hide Tag.Valid;
    var up := Up(objects);
    var depth := 0;
    var seen: set<Tag> := {};
    var current := id;
    ghost var trail := [id];
    while current.Valid()
      invariant current in objects && 0 <= depth <= maxDepth && Path(up, trail) && trail[0] == id
      invariant trail[|trail| - 1] == current
      invariant |trail| == depth + 1 && forall x :: x in seen <==> x in trail[..depth]
      invariant EndsWithin(up, id, maxDepth) <==> EndsWithin(up, current, maxDepth - depth)
      decreases maxDepth - depth
    {
      if current in seen {
        LoopNeverEnds(up, trail, maxDepth - depth);
        return Some(InvalidState);
      }
      seen := seen + {current};
      var item := objects[current];
      if item.owner.kind == OWNER_ROOT {
        return None;
      }
      if item.owner.parent !in objects {
        if allowPending {
          return None;
        }
        assert Dangling(objects, current);
        return Some(IncompleteState);
      }
      var parent := objects[item.owner.parent];
      if depth + 1 > maxDepth {
        return Some(ResourceLimit);
      }
      assert trail[..depth + 1] == trail[..depth] + [current];
      trail := trail + [parent.id];
      assert trail[..depth + 1] == trail[..depth] + [current];
      depth := depth + 1;
      current := parent.id;
    }
    return None;
  }

  ghost predicate OwnersOk(objects: Objects, done: set<Tag>, allowPending: bool) {
    forall x :: x in done ==> x in objects && OwnerTyped(objects, x) && (allowPending || !Dangling(objects, x))
  }

  /** Every owner against its kind, in any order. */
  method CheckOwners(objects: Objects, allowPending: bool) returns (error: Option<GraphError>)
    ensures error.None? <==> OwnersOk(objects, objects.Keys, allowPending)
    ensures error.Some? ==> error.value == IncompleteState || error.value == TypeMismatch
  {
    var rest := objects.Keys;
    while rest != {}
      invariant rest <= objects.Keys && OwnersOk(objects, objects.Keys - rest, allowPending)
      decreases |rest|
    {
      var x :| x in rest;
      rest := rest - {x};
      var item := objects[x];
      if item.owner.kind == OWNER_ROOT {
        continue;
      }
      if item.owner.parent !in objects {
        if allowPending {
          continue;
        }
        assert Dangling(objects, x);
        return Some(IncompleteState);
      }
      var parent := objects[item.owner.parent];
      if (item.owner.kind == OWNER_MAP && parent.kind != KIND_MAP)
        || (item.owner.kind == OWNER_ARRAY && parent.kind != KIND_ARRAY) {
        assert !OwnerTyped(objects, x);
        return Some(TypeMismatch);
      }
    }
    return None;
  }

  /** Accepted exactly when owners have the right kind and every chain of owners ends within the depth limit. */
  method ValidateObjectGraph(objects: Objects, maxDepth: int, allowPending: bool) returns (error: Option<GraphError>)
    requires maxDepth >= 0 && forall k :: k in objects ==> objects[k].id == k && k.Valid()
    ensures error.None? <==>
      OwnersOk(objects, objects.Keys, allowPending) && forall x :: x in objects ==> EndsWithin(Up(objects), x, maxDepth)
    ensures error.None? ==> Acyclic(Up(objects))
  {
    hide Tag.Valid;
    error := CheckOwners(objects, allowPending);
    if error.Some? {
      return;
    }
    var rest := objects.Keys;
    while rest != {}
      invariant rest <= objects.Keys && forall x :: x in objects && x !in rest ==> EndsWithin(Up(objects), x, maxDepth)
      decreases |rest|
    {
      var x :| x in rest;
      rest := rest - {x};
      error := CheckChain(objects, x, maxDepth, allowPending);
      if error.Some? {
        assert error != Some(IncompleteState);
        return;
      }
    }
    BoundedIsAcyclic(Up(objects), maxDepth);
    return None;
  }
}
