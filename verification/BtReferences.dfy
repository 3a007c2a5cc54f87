/** The depth-first search that refuses cyclic subtree references. */
module BtReferences {
  import opened Common

  type Id = string
  type Graph = map<Id, seq<Id>>

  function Targets(refs: Graph, id: Id): seq<Id> {
    if id in refs then refs[id] else []
  }

  /** Each step of the path follows a reference. */
  predicate IsPath(refs: Graph, p: seq<Id>) {
    forall i | 0 <= i < |p| - 1 :: p[i + 1] in Targets(refs, p[i])
  }

  ghost predicate IsCycle(refs: Graph, p: seq<Id>) {
    |p| >= 2 && IsPath(refs, p) && p[0] == p[|p| - 1]
  }

  ghost predicate Cyclic(refs: Graph) {
    exists p :: IsCycle(refs, p)
  }

  // ---------------------------------------------------------------- finishing order

  /** Every reference leads to an earlier entry of the order. */
  ghost predicate Topological(refs: Graph, order: seq<Id>) {
    forall i, t | 0 <= i < |order| && t in Targets(refs, order[i]) :: t in order[..i]
  }

  lemma TopologicalSnoc(refs: Graph, order: seq<Id>, id: Id)
    requires Topological(refs, order) && forall t <- Targets(refs, id) :: t in order
    ensures Topological(refs, order + [id])
  {
    var longer := order + [id];
    forall i, t | 0 <= i < |longer| && t in Targets(refs, longer[i])
      ensures t in longer[..i]
    {
      assert longer[..i] == if i < |order| then order[..i] else order;
    }
  }

  /** From a finished node every path leads strictly down the order, so no path returns. */
  lemma {:induction false} PathDescends(refs: Graph, order: seq<Id>, p: seq<Id>, i: nat) returns (j: nat)
    requires Topological(refs, order) && IsPath(refs, p) && |p| >= 1 && i < |order| && order[i] == p[0]
    ensures j <= i && order[j] == p[|p| - 1] && (|p| >= 2 ==> j < i)
    decreases |p|
  {
    if |p| == 1 {
      j := i;
    } else {
      assert p[1] in order[..i];
      var k :| 0 <= k < i && order[..i][k] == p[1];
      PathTail(refs, p);
      j := PathDescends(refs, order, p[1..], k);
    }
  }

  lemma PathTail(refs: Graph, p: seq<Id>)
    requires IsPath(refs, p) && |p| >= 1
    ensures IsPath(refs, p[1..])
  {
    forall i | 0 <= i < |p[1..]| - 1
      ensures p[1..][i + 1] in Targets(refs, p[1..][i])
    {
      assert p[i + 1 + 1] in Targets(refs, p[i + 1]);
    }
  }

  /** The first place of an id in the order. */
  lemma {:induction false} FirstPlace(order: seq<Id>, id: Id) returns (i: nat)
    requires id in order
    ensures i < |order| && order[i] == id && forall j | 0 <= j < i :: order[j] != id
  {
    if order[0] == id {
      i := 0;
    } else {
      i := FirstPlace(order[1..], id);
      i := i + 1;
      assert forall j | 0 < j < i :: order[j] == order[1..][j - 1];
    }
  }

  lemma NoCycleThroughFinished(refs: Graph, order: seq<Id>, p: seq<Id>)
    requires Topological(refs, order) && IsCycle(refs, p)
    ensures p[0] !in order
  {
    if p[0] in order {
      var i := FirstPlace(order, p[0]);
      var j := PathDescends(refs, order, p, i);
    }
  }

  // ---------------------------------------------------------------- the search

  class Visitor {
    const refs: Graph
    var seen: set<Id>
    var stack: seq<Id>
    /** The seen ids in the order they were finished. */
    ghost var order: seq<Id>

    ghost predicate Valid()
      reads this
    {
      && seen == Elements(order) && Topological(refs, order)
      && IsPath(refs, stack) && (forall id <- stack :: id in refs && id !in seen)
    }

    constructor (refs: Graph)
      ensures Valid() && this.refs == refs && stack == [] && seen == {}
    {
      this.refs := refs;
      seen, stack, order := {}, [], [];
    }

    /** Visit one id from the top of the stack. A refusal comes with a cycle. */
    method Visit(id: Id) returns (ok: bool, ghost cycle: seq<Id>)
      requires Valid() && (stack == [] || id in Targets(refs, stack[|stack| - 1]))
      modifies this
      ensures ok ==> Valid() && stack == old(stack) && id in seen && old(seen) <= seen
      ensures !ok ==> IsCycle(refs, cycle)
      decreases refs.Keys - Elements(stack), 1
    {
      cycle := [];
      if id in stack {
        ghost var i: nat :| i < |stack| && stack[i] == id;
        cycle := stack[i..] + [id];
        CycleOnStack(stack, i, id);
        return false, cycle;
      }
      if id in seen {
        return true, cycle;
      }
      if id !in refs {
        // An id without references is finished at once.
        TopologicalSnoc(refs, order, id);
        order := order + [id];
        seen := seen + {id};
        return true, cycle;
      }
      ok, cycle := Descend(id);
    }

    lemma CycleOnStack(path: seq<Id>, i: nat, id: Id)
      requires IsPath(refs, path) && i < |path| && path[i] == id && id in Targets(refs, path[|path| - 1])
      ensures IsCycle(refs, path[i..] + [id])
    {
      var p := path[i..] + [id];
      forall k | 0 <= k < |p| - 1
        ensures p[k + 1] in Targets(refs, p[k])
      {
        assert p[k] == path[i + k];
        assert k + 1 < |p| - 1 ==> p[k + 1] == path[i + k + 1];
      }
    }

    lemma FewerLeft(refs: Graph, below: seq<Id>, id: Id)
      requires id in refs && id !in below
      ensures refs.Keys - Elements(below + [id]) < refs.Keys - Elements(below)
    {
      assert id in refs.Keys - Elements(below) && id in Elements(below + [id]);
      assert Elements(below) <= Elements(below + [id]);
    }

    method Descend(id: Id) returns (ok: bool, ghost cycle: seq<Id>)
      requires Valid() && (stack == [] || id in Targets(refs, stack[|stack| - 1]))
      requires id in refs && id !in stack && id !in seen
      modifies this
      ensures ok ==> Valid() && stack == old(stack) && id in seen && old(seen) <= seen
      ensures !ok ==> IsCycle(refs, cycle)
      decreases refs.Keys - Elements(stack), 0
    {
      hide Topological, IsPath, IsCycle, Elements;
      cycle := [];
      ghost var below := stack;
      PathSnoc(stack, id);
      stack := stack + [id];
      FewerLeft(refs, below, id);
      var targets := refs[id];
      var k := 0;
      while k < |targets|
        invariant 0 <= k <= |targets|
        invariant Valid() && stack == below + [id] && old(seen) <= seen
        invariant forall j | 0 <= j < k :: targets[j] in seen
      {
        ok, cycle := Visit(targets[k]);
        if !ok {
          return false, cycle;
        }
        k := k + 1;
      }
      stack := stack[..|stack| - 1];
      assert stack == below;
      FinishOne(id);
      ElementsSnoc(order, id);
      order := order + [id];
      seen := seen + {id};
      ok := true;
    }

    lemma ElementsSnoc(s: seq<Id>, id: Id)
      ensures Elements(s + [id]) == Elements(s) + {id}
    {
    }

    lemma FinishOne(id: Id)
      requires Topological(refs, order) && seen == Elements(order) && id in refs
      requires forall j | 0 <= j < |refs[id]| :: refs[id][j] in seen
      ensures Topological(refs, order + [id])
    {
      TopologicalSnoc(refs, order, id);
    }

    lemma PathSnoc(path: seq<Id>, id: Id)
      requires IsPath(refs, path) && (path == [] || id in Targets(refs, path[|path| - 1]))
      ensures IsPath(refs, path + [id])
    {
    }
  }

  /** Visit every declared tree; a document is accepted exactly when its references have no cycle. */
  method Check(refs: Graph, identifiers: seq<Id>) returns (ok: bool)
    requires forall id <- refs :: id in identifiers
    ensures ok <==> !Cyclic(refs)
  {
    var visitor := new Visitor(refs);
    var k := 0;
    while k < |identifiers|
      invariant 0 <= k <= |identifiers|
      invariant visitor.Valid() && visitor.stack == [] && visitor.refs == refs && fresh(visitor)
      invariant forall j | 0 <= j < k :: identifiers[j] in visitor.seen
    {
      ghost var cycle;
      ok, cycle := visitor.Visit(identifiers[k]);
      if !ok {
        return;
      }
      k := k + 1;
    }
    AllFinished(refs, visitor.order, identifiers);
    ok := true;
  }

  lemma AllFinished(refs: Graph, order: seq<Id>, identifiers: seq<Id>)
    requires Topological(refs, order) && (forall id <- refs :: id in identifiers)
    requires forall j | 0 <= j < |identifiers| :: identifiers[j] in Elements(order)
    ensures !Cyclic(refs)
  {
    forall p | IsCycle(refs, p)
      ensures false
    {
      assert p[1] in Targets(refs, p[0]);
      NoCycleThroughFinished(refs, order, p);
    }
  }
}
