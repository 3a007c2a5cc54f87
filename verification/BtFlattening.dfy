/** The rows of an accepted tree rebuild the tree: reading them back undoes the walk. */
module BtFlattening {
  import opened Common
  import opened BtNodes
  import opened BtTree

  /** What a declaration says of a node: everything but where `ID` and `name` stand among its attributes. */
  datatype Shape = Shape(tag: string, id: Option<string>, name: Option<string>, attributes: seq<Attribute>,
                         children: seq<Shape>)

  function Others(attributes: seq<Attribute>): seq<Attribute> {
    if attributes == [] then []
    else (if attributes[0].name == "ID" || attributes[0].name == "name" then [] else [attributes[0]])
         + Others(attributes[1..])
  }

  function ShapeOf(e: Element): Shape
    decreases e
  {
    Shape(e.tag, IdOf(e), Get(e.attributes, "name"), Others(e.attributes), ShapesOf(e.children))
  }

  function ShapesOf(es: seq<Element>): (s: seq<Shape>)
    ensures |s| == |es|
    decreases es
  {
    if es == [] then [] else [ShapeOf(es[0])] + ShapesOf(es[1..])
  }

  // ---------------------------------------------------------------- reading rows back

  /** The attributes named by the rows up to the next row of another kind. */
  function LeadingAttributes(rows: seq<Row>): (s: seq<Attribute>)
    ensures |s| <= |rows|
  {
    if rows == [] || !rows[0].IsAttribute() then [] else [rows[0].attribute] + LeadingAttributes(rows[1..])
  }

  /** Read one node, its attributes and as many children as its row counts; return the rows left over. */
  function ReadTree(rows: seq<Row>): (r: Option<(Shape, seq<Row>)>)
    ensures r.Some? ==> |r.value.1| < |rows|
    decreases |rows|, 0, 0
  {
    if rows == [] || !rows[0].NodeRow? then None
    else
      var attributes := LeadingAttributes(rows[1..]);
      match ReadTrees(rows[1 + |attributes|..], rows[0].childCount)
      case None => None
      case Some((children, left)) =>
        Some((Shape(rows[0].tag, rows[0].id, rows[0].name, attributes, children), left))
  }

  function ReadTrees(rows: seq<Row>, count: nat): (r: Option<(seq<Shape>, seq<Row>)>)
    ensures r.Some? ==> |r.value.1| <= |rows|
    decreases |rows|, 1, count
  {
    if count == 0 then Some(([], rows))
    else
      match ReadTree(rows)
      case None => None
      case Some((first, left)) =>
        match ReadTrees(left, count - 1)
        case None => None
        case Some((others, rest)) => Some(([first] + others, rest))
  }

  predicate Bounded(tail: seq<Row>) {
    tail == [] || !tail[0].IsAttribute()
  }

  lemma LeadNone(tail: seq<Row>)
    requires Bounded(tail)
    ensures LeadingAttributes(tail) == []
  {
  }

  lemma LeadMore(row: Row, rest: seq<Row>)
    requires row.IsAttribute()
    ensures LeadingAttributes([row] + rest) == [row.attribute] + LeadingAttributes(rest)
  {
    assert ([row] + rest)[1..] == rest;
  }

  lemma {:induction false} AttributesRead(uid: nat, attributes: seq<Attribute>, ports: map<string, Direction>,
                                          alpha: char -> bool, tail: seq<Row>)
    requires Bounded(tail) && forall a <- attributes :: AttributeAllowed(a, alpha)
    ensures LeadingAttributes(AttributeRows(uid, attributes, ports, alpha) + tail) == Others(attributes)
    ensures |AttributeRows(uid, attributes, ports, alpha)| == |Others(attributes)|
  {
    hide AttributeRow, AttributeAllowed, LeadingAttributes;
    if attributes == [] {
      LeadNone(tail);
      assert AttributeRows(uid, attributes, ports, alpha) + tail == tail;
    } else {
      var left := AttributeRows(uid, attributes[1..], ports, alpha);
      AttributesRead(uid, attributes[1..], ports, alpha, tail);
      var first := RowsOf(uid, attributes[0], ports, alpha);
      assert AttributeRows(uid, attributes, ports, alpha) + tail == first + (left + tail);
      assert attributes[0] in attributes;
      if first != [] {
        assert first[0] in first && first == [first[0]];
        LeadMore(first[0], left + tail);
      } else {
        assert first + (left + tail) == left + tail;
      }
    }
  }

  /** The rows of a tree begin with its node row, so they end whatever attribute rows came before. */
  lemma FlatBounded(es: seq<Element>, treeId: string, parent: nat, ordinal: nat, uid: nat, models: Models,
                    alpha: char -> bool, tail: seq<Row>)
    requires AllDeclarable(NodesAll(es), models, alpha) && Bounded(tail)
    ensures Bounded(FlatAll(es, treeId, parent, ordinal, uid, models, alpha) + tail)
  {
    hide Declarable;
    if es == [] {
      assert FlatAll(es, treeId, parent, ordinal, uid, models, alpha) + tail == tail;
    } else {
      assert Nodes(es[0])[0] == es[0];
      assert NodesAll(es)[0] == es[0];
    }
  }

  lemma DeclarableBelow(e: Element, models: Models, alpha: char -> bool)
    requires AllDeclarable(Nodes(e), models, alpha)
    ensures Declarable(e, models, alpha) && AllDeclarable(NodesAll(e.children), models, alpha)
  {
    hide Declarable;
    assert Nodes(e)[0] == e;
    assert forall n <- NodesAll(e.children) :: n in Nodes(e);
  }

  lemma DeclarableFirst(es: seq<Element>, models: Models, alpha: char -> bool)
    requires es != [] && AllDeclarable(NodesAll(es), models, alpha)
    ensures AllDeclarable(Nodes(es[0]), models, alpha) && AllDeclarable(NodesAll(es[1..]), models, alpha)
  {
    hide Declarable;
    assert forall n <- Nodes(es[0]) :: n in NodesAll(es);
    assert forall n <- NodesAll(es[1..]) :: n in NodesAll(es);
  }

  lemma ReadNode(row: Row, own: seq<Row>, rest: seq<Row>, attributes: seq<Attribute>, shapes: seq<Shape>,
                 left: seq<Row>)
    requires row.NodeRow? && LeadingAttributes(own + rest) == attributes && |own| == |attributes|
    requires ReadTrees(rest, row.childCount) == Some((shapes, left))
    ensures ReadTree([row] + (own + rest)) == Some((Shape(row.tag, row.id, row.name, attributes, shapes), left))
  {
    hide ReadTrees, LeadingAttributes;
    var rows := [row] + (own + rest);
    assert rows[1..] == own + rest;
    assert rows[1 + |own|..] == rest;
  }

  lemma ReadMore(first: seq<Row>, shape: Shape, left: seq<Row>, count: nat, shapes: seq<Shape>, rest: seq<Row>)
    requires ReadTree(first) == Some((shape, left)) && ReadTrees(left, count) == Some((shapes, rest))
    ensures ReadTrees(first, count + 1) == Some(([shape] + shapes, rest))
  {
    hide ReadTree;
  }

  /** The parts of an accepted tree's rows, and of its shape. */
  lemma TreeParts(e: Element, treeId: string, parent: nat, ordinal: nat, uid: nat, models: Models, alpha: char -> bool)
    requires Declarable(e, models, alpha)
    ensures Categorize(e.tag, IdOf(e), models).Some?
    ensures var row := RowOf(e, treeId, parent, ordinal, uid, models);
            var own := AttributeRows(uid, e.attributes, PortsOf(models, e.tag, IdOf(e)), alpha);
            && Flat(e, treeId, parent, ordinal, uid, models, alpha)
               == [row] + own + FlatAll(e.children, treeId, uid, 0, uid + 1, models, alpha)
            && row.NodeRow? && row.childCount == |e.children|
            && ShapeOf(e) == Shape(row.tag, row.id, row.name, Others(e.attributes), ShapesOf(e.children))
            && forall a <- e.attributes :: AttributeAllowed(a, alpha)
  {
    hide Categorize, ChildrenAllowed, AttributeAllowed, AttributeRows, PortsOf, FlatAll, Others, ShapesOf, Get;
  }

  lemma TreesParts(es: seq<Element>, treeId: string, parent: nat, ordinal: nat, uid: nat, models: Models,
                   alpha: char -> bool)
    ensures es == [] ==> FlatAll(es, treeId, parent, ordinal, uid, models, alpha) == [] && ShapesOf(es) == []
    ensures es != [] ==>
              && FlatAll(es, treeId, parent, ordinal, uid, models, alpha)
                 == Flat(es[0], treeId, parent, ordinal, uid, models, alpha)
                    + FlatAll(es[1..], treeId, parent, ordinal + 1, uid + Size(es[0]), models, alpha)
              && ShapesOf(es) == [ShapeOf(es[0])] + ShapesOf(es[1..])
  {
    hide Flat, ShapeOf, Size;
  }

  lemma ReadNone(rows: seq<Row>)
    ensures ReadTrees(rows, 0) == Some(([], rows))
  {
  }

  /** Reading the rows of an accepted tree gives back its shape and leaves what follows untouched. */
  lemma {:induction false} TreeRebuilt(e: Element, treeId: string, parent: nat, ordinal: nat, uid: nat, models: Models,
                                       alpha: char -> bool, tail: seq<Row>)
    requires AllDeclarable(Nodes(e), models, alpha) && Bounded(tail)
    ensures ReadTree(Flat(e, treeId, parent, ordinal, uid, models, alpha) + tail) == Some((ShapeOf(e), tail))
    decreases e
  {
    hide *;
    DeclarableBelow(e, models, alpha);
    TreeParts(e, treeId, parent, ordinal, uid, models, alpha);
    var below := FlatAll(e.children, treeId, uid, 0, uid + 1, models, alpha);
    var own := AttributeRows(uid, e.attributes, PortsOf(models, e.tag, IdOf(e)), alpha);
    FlatBounded(e.children, treeId, uid, 0, uid + 1, models, alpha, tail);
    AttributesRead(uid, e.attributes, PortsOf(models, e.tag, IdOf(e)), alpha, below + tail);
    TreesRebuilt(e.children, treeId, uid, 0, uid + 1, models, alpha, tail);
    var row := RowOf(e, treeId, parent, ordinal, uid, models);
    ReadNode(row, own, below + tail, Others(e.attributes), ShapesOf(e.children), tail);
    assert Flat(e, treeId, parent, ordinal, uid, models, alpha) + tail == [row] + (own + (below + tail));
  }

  lemma {:induction false} TreesRebuilt(es: seq<Element>, treeId: string, parent: nat, ordinal: nat, uid: nat,
                                        models: Models, alpha: char -> bool, tail: seq<Row>)
    requires AllDeclarable(NodesAll(es), models, alpha) && Bounded(tail)
    ensures ReadTrees(FlatAll(es, treeId, parent, ordinal, uid, models, alpha) + tail, |es|)
            == Some((ShapesOf(es), tail))
    decreases es
  {
    hide *;
    TreesParts(es, treeId, parent, ordinal, uid, models, alpha);
    if es == [] {
      ReadNone(tail);
      assert FlatAll(es, treeId, parent, ordinal, uid, models, alpha) + tail == tail;
    } else {
      DeclarableFirst(es, models, alpha);
      var others := FlatAll(es[1..], treeId, parent, ordinal + 1, uid + Size(es[0]), models, alpha);
      FlatBounded(es[1..], treeId, parent, ordinal + 1, uid + Size(es[0]), models, alpha, tail);
      TreeRebuilt(es[0], treeId, parent, ordinal, uid, models, alpha, others + tail);
      TreesRebuilt(es[1..], treeId, parent, ordinal + 1, uid + Size(es[0]), models, alpha, tail);
      var first := Flat(es[0], treeId, parent, ordinal, uid, models, alpha);
      ReadMore(first + (others + tail), ShapeOf(es[0]), others + tail, |es| - 1, ShapesOf(es[1..]), tail);
      assert FlatAll(es, treeId, parent, ordinal, uid, models, alpha) + tail == first + (others + tail);
    }
  }

  // ---------------------------------------------------------------- indices and children

  /** The node rows among the rows, in order. */
  function NodeRows(rows: seq<Row>): (s: seq<Row>)
    ensures forall r <- s :: r.NodeRow?
  {
    if rows == [] then [] else (if rows[0].NodeRow? then [rows[0]] else []) + NodeRows(rows[1..])
  }

  lemma {:induction false} NodeRowsJoin(a: seq<Row>, b: seq<Row>)
    ensures NodeRows(a + b) == NodeRows(a) + NodeRows(b)
  {
    if a == [] {
      assert a + b == b;
    } else {
      assert (a + b)[1..] == a[1..] + b;
      NodeRowsJoin(a[1..], b);
    }
  }

  lemma {:induction false} NoNodeRows(rows: seq<Row>)
    requires forall r <- rows :: r.IsAttribute()
    ensures NodeRows(rows) == []
  {
    if rows != [] {
      assert rows[0] in rows;
      NoNodeRows(rows[1..]);
    }
  }

  /** Each node row stands for the node of the same place, and carries its number. */
  ghost predicate Stand(rows: seq<Row>, nodes: seq<Element>, uid: nat) {
    && |rows| == |nodes|
    && forall k: nat | k < |nodes| ::
         && rows[k].NodeRow? && rows[k].uid == uid + k
         && rows[k].tag == nodes[k].tag && rows[k].childCount == |nodes[k].children|
         && ChildrenAllowed(rows[k].category, rows[k].childCount)
  }

  lemma StandJoin(a: seq<Row>, n: seq<Element>, b: seq<Row>, m: seq<Element>, uid: nat)
    requires Stand(a, n, uid) && Stand(b, m, uid + |n|)
    ensures Stand(a + b, n + m, uid)
  {
    hide ChildrenAllowed;
    forall k: nat | k < |n + m|
      ensures var r := (a + b)[k];
              && r.NodeRow? && r.uid == uid + k && r.tag == (n + m)[k].tag
              && r.childCount == |(n + m)[k].children| && ChildrenAllowed(r.category, r.childCount)
    {
      if k >= |n| {
        assert (a + b)[k] == b[k - |n|] && (n + m)[k] == m[k - |n|];
      }
    }
  }

  lemma HeadStands(e: Element, treeId: string, parent: nat, ordinal: nat, uid: nat, models: Models, alpha: char -> bool)
    requires Declarable(e, models, alpha)
    ensures Stand(NodeRows(Head(e, treeId, parent, ordinal, uid, models, alpha)), [e], uid)
  {
    var own := AttributeRows(uid, e.attributes, PortsOf(models, e.tag, IdOf(e)), alpha);
    NoNodeRows(own);
    NodeRowsJoin([RowOf(e, treeId, parent, ordinal, uid, models)], own);
  }

  /**
    * The node rows of an accepted tree are its nodes in document order, numbered one after another, each with a
    * child count its category allows.
    */
  lemma {:induction false} NodesNumbered(e: Element, treeId: string, parent: nat, ordinal: nat, uid: nat,
                                         models: Models, alpha: char -> bool)
    requires AllDeclarable(Nodes(e), models, alpha)
    ensures Stand(NodeRows(Flat(e, treeId, parent, ordinal, uid, models, alpha)), Nodes(e), uid)
    decreases e
  {
    hide Stand, Head, NodeRows, FlatAll, Declarable, NodesAll;
    DeclarableBelow(e, models, alpha);
    HeadStands(e, treeId, parent, ordinal, uid, models, alpha);
    NodesNumberedAll(e.children, treeId, uid, 0, uid + 1, models, alpha);
    NodeRowsJoin(Head(e, treeId, parent, ordinal, uid, models, alpha),
                 FlatAll(e.children, treeId, uid, 0, uid + 1, models, alpha));
    StandJoin(NodeRows(Head(e, treeId, parent, ordinal, uid, models, alpha)), [e],
              NodeRows(FlatAll(e.children, treeId, uid, 0, uid + 1, models, alpha)), NodesAll(e.children), uid);
  }

  lemma {:induction false} NodesNumberedAll(es: seq<Element>, treeId: string, parent: nat, ordinal: nat, uid: nat,
                                            models: Models, alpha: char -> bool)
    requires AllDeclarable(NodesAll(es), models, alpha)
    ensures Stand(NodeRows(FlatAll(es, treeId, parent, ordinal, uid, models, alpha)), NodesAll(es), uid)
    decreases es
  {
    hide Flat, Declarable, Nodes;
    if es != [] {
      hide Stand, NodeRows, AllDeclarable;
      DeclarableFirst(es, models, alpha);
      NodesNumbered(es[0], treeId, parent, ordinal, uid, models, alpha);
      var others := FlatAll(es[1..], treeId, parent, ordinal + 1, uid + Size(es[0]), models, alpha);
      NodesNumberedAll(es[1..], treeId, parent, ordinal + 1, uid + Size(es[0]), models, alpha);
      NodeRowsJoin(Flat(es[0], treeId, parent, ordinal, uid, models, alpha), others);
      StandJoin(NodeRows(Flat(es[0], treeId, parent, ordinal, uid, models, alpha)), Nodes(es[0]),
                NodeRows(others), NodesAll(es[1..]), uid);
    }
  }

  /** How many node rows name this parent. */
  function Children(rows: seq<Row>, parent: nat): nat {
    if rows == [] then 0
    else (if rows[0].NodeRow? && rows[0].parent == parent then 1 else 0) + Children(rows[1..], parent)
  }

  lemma {:induction false} ChildrenJoin(a: seq<Row>, b: seq<Row>, parent: nat)
    ensures Children(a + b, parent) == Children(a, parent) + Children(b, parent)
  {
    if a == [] {
      assert a + b == b;
    } else {
      assert (a + b)[1..] == a[1..] + b;
      ChildrenJoin(a[1..], b, parent);
    }
  }

  lemma {:induction false} NoChildren(rows: seq<Row>, parent: nat)
    requires forall r <- rows :: r.IsAttribute()
    ensures Children(rows, parent) == 0
  {
    if rows != [] {
      assert rows[0] in rows;
      NoChildren(rows[1..], parent);
    }
  }

  lemma HeadChildren(e: Element, treeId: string, parent: nat, ordinal: nat, uid: nat, models: Models,
                     alpha: char -> bool, p: nat)
    requires Declarable(e, models, alpha)
    ensures Children(Head(e, treeId, parent, ordinal, uid, models, alpha), p) == if parent == p then 1 else 0
  {
    var own := AttributeRows(uid, e.attributes, PortsOf(models, e.tag, IdOf(e)), alpha);
    NoChildren(own, p);
    ChildrenJoin([RowOf(e, treeId, parent, ordinal, uid, models)], own, p);
  }

  /** Every node is named as parent by exactly its own children, and no node outside the tree is, but the root's. */
  lemma {:induction false} ParentsCounted(e: Element, treeId: string, parent: nat, ordinal: nat, uid: nat,
                                          models: Models, alpha: char -> bool, p: nat)
    requires AllDeclarable(Nodes(e), models, alpha) && parent < uid
    ensures Children(Flat(e, treeId, parent, ordinal, uid, models, alpha), p)
         == (if p == parent then 1 else if uid <= p < uid + Size(e) then |Nodes(e)[p - uid].children| else 0)
    decreases e
  {
    hide Head, Children, FlatAll, Declarable, NodesAll;
    DeclarableBelow(e, models, alpha);
    HeadChildren(e, treeId, parent, ordinal, uid, models, alpha, p);
    ParentsCountedAll(e.children, treeId, uid, 0, uid + 1, models, alpha, p);
    ChildrenJoin(Head(e, treeId, parent, ordinal, uid, models, alpha),
                 FlatAll(e.children, treeId, uid, 0, uid + 1, models, alpha), p);
    if uid < p < uid + Size(e) {
      assert Nodes(e)[p - uid] == NodesAll(e.children)[p - (uid + 1)];
    }
  }

  lemma {:induction false} ParentsCountedAll(es: seq<Element>, treeId: string, parent: nat, ordinal: nat, uid: nat,
                                             models: Models, alpha: char -> bool, p: nat)
    requires AllDeclarable(NodesAll(es), models, alpha) && parent < uid
    ensures Children(FlatAll(es, treeId, parent, ordinal, uid, models, alpha), p)
         == (if p == parent then |es| else if uid <= p < uid + SizeAll(es) then |NodesAll(es)[p - uid].children| else 0)
    decreases es
  {
    hide Flat, Declarable, Nodes, Size;
    if es != [] {
      hide Children, AllDeclarable;
      DeclarableFirst(es, models, alpha);
      var next := uid + Size(es[0]);
      var others := FlatAll(es[1..], treeId, parent, ordinal + 1, next, models, alpha);
      ParentsCounted(es[0], treeId, parent, ordinal, uid, models, alpha, p);
      ParentsCountedAll(es[1..], treeId, parent, ordinal + 1, next, models, alpha, p);
      ChildrenJoin(Flat(es[0], treeId, parent, ordinal, uid, models, alpha), others, p);
      assert NodesAll(es) == Nodes(es[0]) + NodesAll(es[1..]);
      if next <= p < uid + SizeAll(es) {
        assert NodesAll(es)[p - uid] == NodesAll(es[1..])[p - next];
      }
    }
  }
}
