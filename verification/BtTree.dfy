/** The flattening of declared trees into rows, and the walk that does it. */
module BtTree {
  import opened Common
  import opened BtNodes

  const MAX_NODES := 4096
  const MAX_DEPTH := 64
  const MAX_ROWS := 65536

  // ---------------------------------------------------------------- a tree in document order

  function Size(e: Element): (n: nat)
    ensures n >= 1
    decreases e
  {
    1 + SizeAll(e.children)
  }

  function SizeAll(es: seq<Element>): nat
    decreases es
  {
    if es == [] then 0 else Size(es[0]) + SizeAll(es[1..])
  }

  function Height(e: Element): (n: nat)
    ensures n >= 1
    decreases e
  {
    1 + HeightAll(e.children)
  }

  function HeightAll(es: seq<Element>): nat
    decreases es
  {
    if es == [] then 0
    else
      var first, others := Height(es[0]), HeightAll(es[1..]);
      if first >= others then first else others
  }

  /** Every element of the tree, in document order. */
  function Nodes(e: Element): (s: seq<Element>)
    ensures |s| == Size(e) && s[0] == e
    decreases e
  {
    [e] + NodesAll(e.children)
  }

  function NodesAll(es: seq<Element>): (s: seq<Element>)
    ensures |s| == SizeAll(es)
    decreases es
  {
    if es == [] then [] else Nodes(es[0]) + NodesAll(es[1..])
  }

  ghost predicate AllDeclarable(es: seq<Element>, models: Models, alpha: char -> bool) {
    forall e <- es :: Declarable(e, models, alpha)
  }

  /** What a tree must be to be declared: every node in order, not too deep, and not too far into the document. */
  ghost predicate Accepted(e: Element, depth: nat, uid: nat, models: Models, alpha: char -> bool) {
    && AllDeclarable(Nodes(e), models, alpha)
    && depth + Height(e) - 1 <= MAX_DEPTH
    && uid + Size(e) - 1 <= MAX_NODES
  }

  ghost predicate AllAccepted(es: seq<Element>, depth: nat, uid: nat, models: Models, alpha: char -> bool) {
    && AllDeclarable(NodesAll(es), models, alpha)
    && (es != [] ==> depth + HeightAll(es) - 1 <= MAX_DEPTH)
    && (es != [] ==> uid + SizeAll(es) - 1 <= MAX_NODES)
  }

  lemma AcceptedNode(e: Element, depth: nat, uid: nat, models: Models, alpha: char -> bool)
    ensures Accepted(e, depth, uid, models, alpha)
       <==> Declarable(e, models, alpha) && depth <= MAX_DEPTH && uid <= MAX_NODES
            && AllAccepted(e.children, depth + 1, uid + 1, models, alpha)
  {
    hide Declarable;
    assert Nodes(e) == [e] + NodesAll(e.children);
    assert Nodes(e)[0] == e;
    if AllDeclarable(Nodes(e), models, alpha) {
      assert forall n <- NodesAll(e.children) :: n in Nodes(e);
    }
    SizesOnce(e.children);
    if Declarable(e, models, alpha) && AllDeclarable(NodesAll(e.children), models, alpha) {
      forall n <- Nodes(e)
        ensures Declarable(n, models, alpha)
      {
        assert n == e || n in NodesAll(e.children);
      }
    }
  }

  lemma AcceptedFirst(es: seq<Element>, depth: nat, uid: nat, models: Models, alpha: char -> bool)
    requires es != []
    ensures AllAccepted(es, depth, uid, models, alpha)
       <==> Accepted(es[0], depth, uid, models, alpha)
            && AllAccepted(es[1..], depth, uid + Size(es[0]), models, alpha)
  {
    hide Declarable;
    assert NodesAll(es) == Nodes(es[0]) + NodesAll(es[1..]);
    if AllDeclarable(NodesAll(es), models, alpha) {
      assert forall n <- Nodes(es[0]) :: n in NodesAll(es);
      assert forall n <- NodesAll(es[1..]) :: n in NodesAll(es);
    }
    SizesOnce(es[1..]);
  }

  lemma SizesOnce(es: seq<Element>)
    ensures es != [] ==> SizeAll(es) >= 1 && HeightAll(es) >= 1
    ensures es == [] ==> SizeAll(es) == HeightAll(es) == 0
  {
  }

  // ---------------------------------------------------------------- flattening

  function IdOf(e: Element): Option<string> {
    Get(e.attributes, "ID")
  }

  /** An attribute's value; nothing when it is not there. */
  function Text(e: Element, name: string): string {
    var value := Get(e.attributes, name);
    if value.Some? then value.value else ""
  }

  function RowOf(e: Element, treeId: string, parent: nat, ordinal: nat, uid: nat, models: Models): Row
    requires Categorize(e.tag, IdOf(e), models).Some?
  {
    var placed := Categorize(e.tag, IdOf(e), models).value;
    NodeRow(uid, treeId, parent, ordinal, |e.children|, e.tag, placed.0, placed.1, IdOf(e),
            Get(e.attributes, "name"), if placed.0 == SUBTREE then IdOf(e) else None)
  }

  /** The row of one element and its attribute rows; nothing for an element that is refused. */
  function Head(e: Element, treeId: string, parent: nat, ordinal: nat, uid: nat, models: Models,
                alpha: char -> bool): seq<Row> {
    if Declarable(e, models, alpha) then
      [RowOf(e, treeId, parent, ordinal, uid, models)]
      + AttributeRows(uid, e.attributes, PortsOf(models, e.tag, IdOf(e)), alpha)
    else []
  }

  function Flat(e: Element, treeId: string, parent: nat, ordinal: nat, uid: nat, models: Models,
                alpha: char -> bool): seq<Row>
    decreases e
  {
    Head(e, treeId, parent, ordinal, uid, models, alpha) + FlatAll(e.children, treeId, uid, 0, uid + 1, models, alpha)
  }

  function FlatAll(es: seq<Element>, treeId: string, parent: nat, ordinal: nat, uid: nat, models: Models,
                   alpha: char -> bool): seq<Row>
    decreases es
  {
    if es == [] then []
    else Flat(es[0], treeId, parent, ordinal, uid, models, alpha)
         + FlatAll(es[1..], treeId, parent, ordinal + 1, uid + Size(es[0]), models, alpha)
  }

  function RefsOf(e: Element): seq<string> {
    if e.tag == "SubTree" && IdOf(e).Some? then [IdOf(e).value] else []
  }

  /** The subtree references of a tree, in document order. */
  function Refs(es: seq<Element>): seq<string> {
    if es == [] then [] else RefsOf(es[0]) + Refs(es[1..])
  }

  lemma {:induction false} RefsJoin(a: seq<Element>, b: seq<Element>)
    ensures Refs(a + b) == Refs(a) + Refs(b)
  {
    if a == [] {
      assert a + b == b;
    } else {
      assert (a + b)[1..] == a[1..] + b;
      RefsJoin(a[1..], b);
    }
  }

  type References = map<string, seq<string>>

  function Added(references: References, treeId: string, refs: seq<string>): References {
    if refs == [] then references
    else references[treeId := (if treeId in references then references[treeId] else []) + refs]
  }

  lemma AddedTwice(references: References, treeId: string, a: seq<string>, b: seq<string>)
    ensures Added(Added(references, treeId, a), treeId, b) == Added(references, treeId, a + b)
  {
    if a == [] {
      assert a + b == b;
    } else if b == [] {
      assert a + b == a;
    } else {
      var held := if treeId in references then references[treeId] else [];
      assert held + a + b == held + (a + b);
    }
  }

  // ---------------------------------------------------------------- the walk

  class Walker {
    const models: Models
    const alpha: char -> bool
    var rows: seq<Row>
    var references: References

    constructor (models: Models, alpha: char -> bool)
      ensures this.models == models && this.alpha == alpha && rows == [] && references == map[]
    {
      this.models, this.alpha := models, alpha;
      rows, references := [], map[];
    }

    /** Every emitted row counts against the bound. */
    method Append(row: Row) returns (ok: bool)
      modifies `rows
      ensures ok <==> |old(rows)| + 1 <= MAX_ROWS
      ensures rows == if ok then old(rows) + [row] else old(rows)
    {
      if |rows| >= MAX_ROWS {
        return false;
      }
      rows := rows + [row];
      ok := true;
    }

    method AppendAttributes(e: Element, uid: nat) returns (ok: bool)
      requires |rows| <= MAX_ROWS
      modifies `rows
      ensures ok <==> (forall a <- e.attributes :: AttributeAllowed(a, alpha))
                      && |old(rows)|
                         + |AttributeRows(uid, e.attributes, PortsOf(models, e.tag, IdOf(e)), alpha)| <= MAX_ROWS
      ensures ok ==> rows == old(rows) + AttributeRows(uid, e.attributes, PortsOf(models, e.tag, IdOf(e)), alpha)
    {
      hide AttributeAllowed, AttributeRow, AttributeRows, PortsOf, IdOf;
      var ports := PortsOf(models, e.tag, IdOf(e));
      var k := 0;
      while k < |e.attributes|
        invariant 0 <= k <= |e.attributes| && |rows| <= MAX_ROWS
        invariant forall j | 0 <= j < k :: AttributeAllowed(e.attributes[j], alpha)
        invariant rows + AttributeRows(uid, e.attributes[k..], ports, alpha)
               == old(rows) + AttributeRows(uid, e.attributes, ports, alpha)
      {
        var a := e.attributes[k];
        AttributesFrom(uid, e.attributes, k, ports, alpha);
        if !AttributeAllowed(a, alpha) {
          return false;
        }
        if a.name != "ID" && a.name != "name" {
          ok := Append(AttributeRow(uid, a, ports, alpha));
          if !ok {
            return;
          }
        }
        k := k + 1;
      }
      NoAttributes(uid, e.attributes[k..], ports, alpha);
      ok := true;
    }

    lemma AttributesFrom(uid: nat, attributes: seq<Attribute>, k: nat, ports: map<string, Direction>,
                         alpha: char -> bool)
      requires k < |attributes|
      ensures AttributeRows(uid, attributes[k..], ports, alpha)
           == RowsOf(uid, attributes[k], ports, alpha) + AttributeRows(uid, attributes[k + 1..], ports, alpha)
    {
      hide AttributeAllowed, AttributeRow;
      assert attributes[k..][1..] == attributes[k + 1..];
    }

    lemma NoAttributes(uid: nat, attributes: seq<Attribute>, ports: map<string, Direction>, alpha: char -> bool)
      ensures attributes == [] ==> AttributeRows(uid, attributes, ports, alpha) == []
    {
    }

    /** One element and everything below it, in document order. */
    method Walk(e: Element, treeId: string, parent: nat, ordinal: nat, depth: nat, uid: nat) returns (ok: bool)
      requires |rows| <= MAX_ROWS && depth >= 1
      modifies this
      ensures ok <==> Accepted(e, depth, uid, models, alpha)
                      && |old(rows)| + |Flat(e, treeId, parent, ordinal, uid, models, alpha)| <= MAX_ROWS
      ensures ok ==> rows == old(rows) + Flat(e, treeId, parent, ordinal, uid, models, alpha)
      ensures ok ==> references == Added(old(references), treeId, Refs(Nodes(e)))
      decreases e
    {
      hide Accepted, AllAccepted, Declarable, Flat, Refs, Added, AttributeRows, Categorize, ChildrenAllowed, Nodes,
           NodesAll;
      AcceptedNode(e, depth, uid, models, alpha);
      if depth > MAX_DEPTH {
        return false;
      }
      if uid > MAX_NODES {
        return false;
      }
      ok := WalkHead(e, treeId, parent, ordinal, uid);
      if !ok {
        HeadRefused(e, treeId, parent, ordinal, uid, models, alpha);
        return;
      }
      HeadFirst(e, treeId, parent, ordinal, uid, models, alpha);
      var children := e.children;
      ok := WalkAll(children, treeId, uid, depth + 1, uid + 1);
      AddedTwice(old(references), treeId, RefsOf(e), Refs(NodesAll(e.children)));
      NodesRefs(e);
    }

    /** The element's own row, its reference if it has one, and its attribute rows. */
    method WalkHead(e: Element, treeId: string, parent: nat, ordinal: nat, uid: nat) returns (ok: bool)
      requires |rows| <= MAX_ROWS
      modifies this
      ensures ok <==> Declarable(e, models, alpha)
                      && |old(rows)| + |Head(e, treeId, parent, ordinal, uid, models, alpha)| <= MAX_ROWS
      ensures ok ==> rows == old(rows) + Head(e, treeId, parent, ordinal, uid, models, alpha)
      ensures ok ==> references == Added(old(references), treeId, RefsOf(e))
    {
      hide AttributeRows, AttributeAllowed, ChildrenAllowed, PortsOf, Categorize;
      var id := Get(e.attributes, "ID");
      var placed := Categorize(e.tag, id, models);
      if placed.None? || !ChildrenAllowed(placed.value.0, |e.children|) {
        return false;
      }
      SubtreeTagged(e, models);
      if placed.value.0 == SUBTREE {
        var held := if treeId in references then references[treeId] else [];
        references := references[treeId := held + [id.value]];
      }
      ok := Append(RowOf(e, treeId, parent, ordinal, uid, models));
      if ok {
        ok := AppendAttributes(e, uid);
      }
    }

    method WalkAll(children: seq<Element>, treeId: string, uid: nat, depth: nat, start: nat) returns (ok: bool)
      requires |rows| <= MAX_ROWS && depth >= 1
      modifies this
      ensures ok <==> AllAccepted(children, depth, start, models, alpha)
                      && |old(rows)| + |FlatAll(children, treeId, uid, 0, start, models, alpha)| <= MAX_ROWS
      ensures ok ==> rows == old(rows) + FlatAll(children, treeId, uid, 0, start, models, alpha)
      ensures ok ==> references == Added(old(references), treeId, Refs(NodesAll(children)))
      decreases children
    {
      hide Accepted, Flat, Refs, Added, AllDeclarable, HeightAll;
      var k := 0;
      var next: nat := start;
      assert children[0..] == children;
      NoRefs();
      AddedNothing(references, treeId);
      while k < |children|
        invariant 0 <= k <= |children| && |rows| <= MAX_ROWS
        invariant AllAccepted(children, depth, start, models, alpha)
             <==> AllAccepted(children[k..], depth, next, models, alpha)
        invariant rows + FlatAll(children[k..], treeId, uid, k, next, models, alpha)
               == old(rows) + FlatAll(children, treeId, uid, 0, start, models, alpha)
        invariant Added(references, treeId, Refs(NodesAll(children[k..])))
               == Added(old(references), treeId, Refs(NodesAll(children)))
      {
        var child := children[k];
        var left := children[k..];
        assert left[0] == child && left[1..] == children[k + 1..];
        AcceptedFirst(left, depth, next, models, alpha);
        ghost var before := references;
        ok := Walk(child, treeId, uid, k, depth, next);
        if !ok {
          return;
        }
        RefsJoin(Nodes(child), NodesAll(left[1..]));
        AddedTwice(before, treeId, Refs(Nodes(child)), Refs(NodesAll(left[1..])));
        next := next + Size(child);
        k := k + 1;
      }
      NothingLeft(depth, next, models, alpha);
      assert children[k..] == [];
      AddedNothing(references, treeId);
      ok := true;
    }
  }

  lemma NoRefs()
    ensures Refs(NodesAll([])) == []
  {
  }

  lemma AddedNothing(references: References, treeId: string)
    ensures Added(references, treeId, []) == references && Refs(NodesAll([])) == []
  {
  }

  lemma NothingLeft(depth: nat, uid: nat, models: Models, alpha: char -> bool)
    ensures AllAccepted([], depth, uid, models, alpha)
  {
  }

  lemma NodesRefs(e: Element)
    ensures Refs(Nodes(e)) == RefsOf(e) + Refs(NodesAll(e.children))
  {
    assert Nodes(e)[1..] == NodesAll(e.children);
  }

  lemma SubtreeTagged(e: Element, models: Models)
    ensures Categorize(e.tag, IdOf(e), models).Some? ==>
              && (Categorize(e.tag, IdOf(e), models).value.0 == SUBTREE <==> e.tag == "SubTree")
              && (e.tag == "SubTree" ==> IdOf(e).Some?)
  {
  }

  lemma HeadFirst(e: Element, treeId: string, parent: nat, ordinal: nat, uid: nat, models: Models, alpha: char -> bool)
    ensures Flat(e, treeId, parent, ordinal, uid, models, alpha)
         == Head(e, treeId, parent, ordinal, uid, models, alpha)
            + FlatAll(e.children, treeId, uid, 0, uid + 1, models, alpha)
  {
  }

  lemma HeadRefused(e: Element, treeId: string, parent: nat, ordinal: nat, uid: nat, models: Models,
                    alpha: char -> bool)
    ensures |Flat(e, treeId, parent, ordinal, uid, models, alpha)|
         >= |Head(e, treeId, parent, ordinal, uid, models, alpha)|
  {
  }
}
