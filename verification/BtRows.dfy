/**
  * What every row of a flattened document stands for. Each number in a row is the place of an element in document
  * order, and leads back to the element that the row was made of.
  */
module BtRows {
  import opened Common
  import opened BtNodes
  import opened BtTree
  import opened BtModels
  import opened BtDocument
  import BtReferences

  /** The element numbered `uid` is this child of the element numbered `parent`. */
  ghost predicate IsChild(all: seq<Element>, parent: nat, ordinal: nat, uid: nat) {
    && 1 <= parent < uid <= |all| && ordinal < |all[parent - 1].children|
    && all[uid - 1] == all[parent - 1].children[ordinal]
    && uid == parent + 1 + Before(all[parent - 1].children, ordinal)
  }

  /** What a node row or an attribute row of a tree says of its element. */
  ghost predicate StandsFor(all: seq<Element>, r: Row, treeId: string, models: Models, alpha: char -> bool) {
    && !r.TreeRow? && !r.ModelPortRow? && 1 <= r.uid <= |all|
    && var e := all[r.uid - 1];
       if r.NodeRow? then
         && r.treeId == treeId && r.tag == e.tag && r.childCount == |e.children|
         && r.id == Get(e.attributes, "ID") && r.name == Get(e.attributes, "name")
         && Categorize(e.tag, r.id, models) == Some((r.category, r.basis))
         && r.subtreeRef == (if e.tag == "SubTree" then r.id else None)
         && IsChild(all, r.parent, r.ordinal, r.uid)
       else
         && r.attribute in e.attributes && Says(r, r.uid, r.attribute, PortsOf(models, e.tag, IdOf(e)), alpha)
         && (r.PortRow? ==> forall d :: r.direction == Some(d) <==> Gives(models, e, r.attribute.name, d))
  }

  /** The model that an element's `ID` names, or else its tag, declares this direction for the port. */
  ghost predicate Gives(models: Models, e: Element, port: string, direction: Direction) {
    var id := Get(e.attributes, "ID");
    var model := if id == None || id == Some("") then e.tag else id.value;
    model in models && port in models[model].ports && models[model].ports[port] == direction
  }

  lemma GivenByPorts(models: Models, e: Element, port: string, direction: Direction)
    ensures Gives(models, e, port, direction)
       <==> port in PortsOf(models, e.tag, IdOf(e)) && PortsOf(models, e.tag, IdOf(e))[port] == direction
  {
  }

  ghost predicate AllStand(all: seq<Element>, rows: seq<Row>, treeId: string, models: Models, alpha: char -> bool) {
    forall r <- rows :: StandsFor(all, r, treeId, models, alpha)
  }

  lemma HeadStand(all: seq<Element>, e: Element, treeId: string, parent: nat, ordinal: nat, uid: nat, models: Models,
                  alpha: char -> bool)
    requires IsChild(all, parent, ordinal, uid) && all[uid - 1] == e && Declarable(e, models, alpha)
    ensures AllStand(all, Head(e, treeId, parent, ordinal, uid, models, alpha), treeId, models, alpha)
  {
    hide Says, Categorize, AttributeAllowed, PortsOf, AttributeRows, IsChild;
    assert 1 <= uid <= |all| by { ChildWithin(all, parent, ordinal, uid); }
    AttributeRowsSay(uid, e.attributes, PortsOf(models, e.tag, IdOf(e)), alpha);
    CategoryTagged(e, models);
    forall r <- AttributeRows(uid, e.attributes, PortsOf(models, e.tag, IdOf(e)), alpha) | r.PortRow?
      ensures forall d :: r.direction == Some(d) <==> Gives(models, e, r.attribute.name, d)
    {
      DirectionSaid(r, uid, e, models, alpha);
    }
  }

  lemma DirectionSaid(r: Row, uid: nat, e: Element, models: Models, alpha: char -> bool)
    requires r.PortRow? && Says(r, uid, r.attribute, PortsOf(models, e.tag, IdOf(e)), alpha)
    ensures forall d :: r.direction == Some(d) <==> Gives(models, e, r.attribute.name, d)
  {
    hide Gives, PortsOf, PointsAt;
    forall d
      ensures r.direction == Some(d) <==> Gives(models, e, r.attribute.name, d)
    {
      GivenByPorts(models, e, r.attribute.name, d);
    }
  }

  lemma ChildWithin(all: seq<Element>, parent: nat, ordinal: nat, uid: nat)
    requires IsChild(all, parent, ordinal, uid)
    ensures 1 <= uid <= |all|
  {
  }

  lemma CategoryTagged(e: Element, models: Models)
    requires Categorize(e.tag, IdOf(e), models).Some?
    ensures Categorize(e.tag, IdOf(e), models).value.0 == SUBTREE <==> e.tag == "SubTree"
  {
    CategoryEstablished(e.tag, IdOf(e), models);
  }

  /** Every row of an accepted tree's root child stands for its element. */
  lemma {:induction false} FlatStand(all: seq<Element>, e: Element, treeId: string, parent: nat, ordinal: nat, uid: nat,
                                     models: Models, alpha: char -> bool)
    requires IsChild(all, parent, ordinal, uid) && AllDeclarable(Nodes(e), models, alpha)
    requires uid - 1 + Size(e) <= |all| && all[uid - 1..uid - 1 + Size(e)] == Nodes(e)
    ensures AllStand(all, Flat(e, treeId, parent, ordinal, uid, models, alpha), treeId, models, alpha)
    decreases e
  {
    hide StandsFor, Head, FlatAll, Declarable, IsChild, NodesAll, SizeAll;
    BtFlattening.DeclarableBelow(e, models, alpha);
    ChildWithin(all, parent, ordinal, uid);
    assert all[uid - 1] == all[uid - 1..uid - 1 + Size(e)][0] == e;
    HeadStand(all, e, treeId, parent, ordinal, uid, models, alpha);
    assert all[uid..uid + SizeAll(e.children)] == all[uid - 1..uid - 1 + Size(e)][1..];
    assert Nodes(e)[1..] == NodesAll(e.children);
    FlatAllStand(all, e.children, treeId, uid, 0, uid + 1, models, alpha);
  }

  lemma {:induction false} FlatAllStand(all: seq<Element>, es: seq<Element>, treeId: string, parent: nat, ordinal: nat,
                                        uid: nat, models: Models, alpha: char -> bool)
    requires 1 <= parent < uid && uid - 1 + SizeAll(es) <= |all| && AllDeclarable(NodesAll(es), models, alpha)
    requires ordinal <= |all[parent - 1].children| && es == all[parent - 1].children[ordinal..]
    requires uid == parent + 1 + Before(all[parent - 1].children, ordinal)
    requires all[uid - 1..uid - 1 + SizeAll(es)] == NodesAll(es)
    ensures AllStand(all, FlatAll(es, treeId, parent, ordinal, uid, models, alpha), treeId, models, alpha)
    decreases es
  {
    hide StandsFor, Flat, Declarable, Size, Nodes;
    if es != [] {
      BtFlattening.DeclarableFirst(es, models, alpha);
      var n := Size(es[0]);
      assert all[uid - 1..uid - 1 + n] == NodesAll(es)[..n] == Nodes(es[0]);
      assert all[uid - 1 + n..uid - 1 + SizeAll(es)] == NodesAll(es)[n..] == NodesAll(es[1..]);
      assert Nodes(es[0])[0] == es[0];
      assert all[uid - 1] == all[uid - 1..uid - 1 + n][0];
      assert IsChild(all, parent, ordinal, uid);
      FlatStand(all, es[0], treeId, parent, ordinal, uid, models, alpha);
      FlatAllStand(all, es[1..], treeId, parent, ordinal + 1, uid + n, models, alpha);
    }
  }

  // ---------------------------------------------------------------- the whole document

  /** What a row says within the tree numbered `at`: it heads the tree, or stands for an element inside it. */
  ghost predicate WithinTree(all: seq<Element>, r: Row, at: nat, main: Option<string>, models: Models,
                             alpha: char -> bool) {
    && 1 <= at <= |all| && IsTree(all[at - 1])
    && var tree := all[at - 1];
       if r.TreeRow? then r.uid == at && r.treeId == TreeId(tree) && (r.main <==> main == Some(TreeId(tree)))
       else at < r.uid < at + Size(tree) && StandsFor(all, r, TreeId(tree), models, alpha)
  }

  lemma {:induction false} FlatNumbers(e: Element, treeId: string, parent: nat, ordinal: nat, uid: nat, models: Models,
                                       alpha: char -> bool)
    ensures forall r <- Flat(e, treeId, parent, ordinal, uid, models, alpha) :: uid <= r.uid < uid + Size(e)
    decreases e
  {
    hide FlatAll, AttributeRows, Declarable, SizeAll;
    FlatAllNumbers(e.children, treeId, uid, 0, uid + 1, models, alpha);
  }

  lemma {:induction false} FlatAllNumbers(es: seq<Element>, treeId: string, parent: nat, ordinal: nat, uid: nat,
                                          models: Models, alpha: char -> bool)
    ensures forall r <- FlatAll(es, treeId, parent, ordinal, uid, models, alpha) :: uid <= r.uid < uid + SizeAll(es)
    decreases es
  {
    hide Flat, Size;
    if es != [] {
      FlatNumbers(es[0], treeId, parent, ordinal, uid, models, alpha);
      FlatAllNumbers(es[1..], treeId, parent, ordinal + 1, uid + Size(es[0]), models, alpha);
    }
  }

  lemma TreeStands(all: seq<Element>, tree: Element, at: nat, main: Option<string>, models: Models,
                   alpha: char -> bool)
    requires IsTree(tree) && TreeAccepted(tree, at, models, alpha)
    requires 1 <= at && at - 1 + Size(tree) <= |all| && all[at - 1..at - 1 + Size(tree)] == Nodes(tree)
    ensures forall r <- RowsOfTree(tree, at, main, models, alpha) :: WithinTree(all, r, at, main, models, alpha)
  {
    hide StandsFor, Flat, Declarable, Nodes, Size;
    var child := tree.children[0];
    OnlyChild(tree);
    assert all[at - 1] == all[at - 1..at - 1 + Size(tree)][0] == tree;
    assert all[at] == all[at - 1..at - 1 + Size(tree)][1] == child;
    assert all[at..at + Size(child)] == all[at - 1..at - 1 + Size(tree)][1..] == Nodes(child);
    assert IsChild(all, at, 0, at + 1);
    FlatStand(all, child, TreeId(tree), at, 0, at + 1, models, alpha);
    FlatNumbers(child, TreeId(tree), at, 0, at + 1, models, alpha);
    forall r <- Flat(child, TreeId(tree), at, 0, at + 1, models, alpha)
      ensures WithinTree(all, r, at, main, models, alpha)
    {
      NotHeading(all, r, TreeId(tree), models, alpha);
    }
  }

  lemma NotHeading(all: seq<Element>, r: Row, treeId: string, models: Models, alpha: char -> bool)
    requires StandsFor(all, r, treeId, models, alpha)
    ensures !r.TreeRow?
  {
  }

  lemma OnlyChild(tree: Element)
    requires |tree.children| == 1
    ensures Size(tree) == 1 + Size(tree.children[0]) && Nodes(tree) == [tree] + Nodes(tree.children[0])
    ensures |Nodes(tree.children[0])| >= 1 && Nodes(tree)[1] == tree.children[0] && Before(tree.children, 0) == 0
  {
    var child := tree.children[0];
    assert tree.children == [child] && tree.children[1..] == [];
    assert SizeAll(tree.children) == Size(child) + SizeAll([]);
    assert NodesAll(tree.children) == Nodes(child) + NodesAll([]);
    assert Nodes(child)[0] == child;
  }

  lemma {:induction false} TreesStand(all: seq<Element>, roots: seq<Element>, uid: nat, main: Option<string>,
                                      models: Models, alpha: char -> bool)
    requires TreesAccepted(roots, uid, models, alpha)
    requires 1 <= uid && uid - 1 + SizeAll(roots) == |all| && all[uid - 1..] == NodesAll(roots)
    ensures forall r <- TreeRows(roots, uid, main, models, alpha) ::
              exists at: nat :: WithinTree(all, r, at, main, models, alpha)
    decreases |roots|
  {
    hide WithinTree, RowsOfTree, TreeAccepted, Size, Nodes;
    if roots != [] {
      var n := Size(roots[0]);
      assert all[uid - 1..uid - 1 + n] == all[uid - 1..][..n] == Nodes(roots[0]);
      assert all[uid - 1 + n..] == all[uid - 1..][n..] == NodesAll(roots[1..]);
      if IsTree(roots[0]) {
        TreeStands(all, roots[0], uid, main, models, alpha);
      }
      TreesStand(all, roots[1..], uid + n, main, models, alpha);
    }
  }

  /** Every row of an accepted document stands for a tree, an element of a tree, or a declared port. */
  lemma EveryRowStands(roots: seq<Element>, main: Option<string>, alpha: char -> bool, r: Row)
    requires Modelled(roots) && TreesAccepted(roots, 1, ModelsIn(roots), alpha)
    requires r in DocumentRows(roots, main, alpha)
    ensures || (exists at: nat :: WithinTree(NodesAll(roots), r, at, main, ModelsIn(roots), alpha))
            || (exists model: Element, port <- model.children :: Declares(roots, r, model, port))
  {
    hide WithinTree, TreesAccepted, TreeRows, Declares, Modelled, ModelsIn, PortRows, EntriesOf;
    TreesStand(NodesAll(roots), roots, 1, main, ModelsIn(roots), alpha);
    PortRowsExactly(roots, r);
  }

  // ---------------------------------------------------------------- the references between trees

  /** The element refers to the tree `t`. */
  predicate RefersTo(e: Element, t: string) {
    e.tag == "SubTree" && IdOf(e) == Some(t)
  }

  lemma {:induction false} RefsExactly(es: seq<Element>, t: string)
    ensures t in Refs(es) <==> exists e <- es :: RefersTo(e, t)
  {
    hide RefersTo;
    if es != [] {
      var first, others := es[0], es[1..];
      RefsExactly(others, t);
      assert t in RefsOf(first) <==> RefersTo(first, t) by { OneReference(first, t); }
      assert forall e :: e in es <==> e == first || e in others;
    }
  }

  lemma OneReference(e: Element, t: string)
    ensures t in RefsOf(e) <==> RefersTo(e, t)
  {
  }

  /** A tree holds a reference to `t` below its heading. */
  ghost predicate TreeRefers(tree: Element, t: string) {
    tree.children != [] && exists e <- Nodes(tree.children[0]) :: RefersTo(e, t)
  }

  /** The references gathered of a document are exactly its trees' own, tree by tree. */
  lemma {:induction false} ReferencesExactly(references: References, trees: seq<Element>, id: string, t: string)
    ensures t in BtReferences.Targets(Declared(references, trees), id)
       <==> || t in BtReferences.Targets(references, id)
            || exists tree <- trees :: TreeId(tree) == id && TreeRefers(tree, t)
    decreases |trees|
  {
    hide TreeRefers, Refs, Nodes;
    if trees != [] {
      var first, others := trees[0], trees[1..];
      var refs := if first.children == [] then [] else Refs(Nodes(first.children[0]));
      TreeRefsExactly(first, t);
      assert trees == [first] + others && first in trees;
      ReferencesExactly(Added(references, TreeId(first), refs), others, id, t);
    }
  }

  lemma TreeRefsExactly(tree: Element, t: string)
    ensures tree.children != [] && t in Refs(Nodes(tree.children[0])) <==> TreeRefers(tree, t)
  {
    if tree.children != [] {
      RefsExactly(Nodes(tree.children[0]), t);
    }
  }
}
