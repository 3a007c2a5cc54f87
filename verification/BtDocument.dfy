/**
  * A whole saved document, alone or as a member of a bundle: its node models read, every declared tree flattened
  * in turn, its subtree references checked, and its declared ports listed.
  */
module BtDocument {
  import opened Common
  import opened BtNodes
  import opened BtTree
  import opened BtModels
  import BtFlattening
  import BtReferences

  const MAX_TREES := 64

  predicate IsTree(e: Element) {
    e.tag == "BehaviorTree"
  }

  function Trees(roots: seq<Element>): (trees: seq<Element>)
    ensures forall t <- trees :: IsTree(t)
  {
    if roots == [] then [] else (if IsTree(roots[0]) then [roots[0]] else []) + Trees(roots[1..])
  }

  function TreeId(e: Element): string {
    Text(e, "ID")
  }

  function Ids(trees: seq<Element>): (ids: seq<string>)
    ensures |ids| == |trees| && forall i | 0 <= i < |ids| :: ids[i] == TreeId(trees[i])
  {
    seq(|trees|, i requires 0 <= i < |trees| => TreeId(trees[i]))
  }

  /** Names that are not empty and all different. */
  ghost predicate Naming(ids: seq<string>) {
    && (forall i | 0 <= i < |ids| :: ids[i] != "")
    && (forall i, j | 0 <= i < j < |ids| :: ids[i] != ids[j])
  }

  /** Only a document of a bundle may hold includes. */
  predicate Supported(roots: seq<Element>, bundle: Option<set<string>>) {
    forall i | 0 <= i < |roots|
      :: IsTree(roots[i]) || IsSection(roots[i]) || (bundle.Some? && roots[i].tag == "include")
  }

  /** The trees that a reference may name: those of the whole bundle, or else those of this document. */
  function ValidIds(roots: seq<Element>, bundle: Option<set<string>>): set<string> {
    match bundle
    case Some(ids) => ids
    case None => Elements(Ids(Trees(roots)))
  }

  /**
    * At most sixty-four named trees, no two of one name, and at least one when the document stands alone; a main
    * tree that is known; and nothing unknown beside them.
    */
  ghost predicate Headed(roots: seq<Element>, main: Option<string>, bundle: Option<set<string>>) {
    var ids := Ids(Trees(roots));
    && |ids| <= MAX_TREES && (bundle.None? ==> 1 <= |ids|) && Naming(ids)
    && (main.Some? ==> main.value in ValidIds(roots, bundle)) && Supported(roots, bundle)
  }

  /** The rows of the declared trees, each element numbered by its place in the document. */
  function TreeRows(roots: seq<Element>, uid: nat, main: Option<string>, models: Models,
                    alpha: char -> bool): seq<Row> {
    if roots == [] then []
    else
      (if IsTree(roots[0]) then RowsOfTree(roots[0], uid, main, models, alpha) else [])
      + TreeRows(roots[1..], uid + Size(roots[0]), main, models, alpha)
  }

  function RowsOfTree(tree: Element, uid: nat, main: Option<string>, models: Models, alpha: char -> bool): seq<Row> {
    [TreeRow(uid, TreeId(tree), main == Some(TreeId(tree)))]
    + if tree.children == [] then [] else Flat(tree.children[0], TreeId(tree), uid, 0, uid + 1, models, alpha)
  }

  ghost predicate TreesAccepted(roots: seq<Element>, uid: nat, models: Models, alpha: char -> bool) {
    roots == [] ||
    ((IsTree(roots[0]) ==> TreeAccepted(roots[0], uid, models, alpha))
     && TreesAccepted(roots[1..], uid + Size(roots[0]), models, alpha))
  }

  /** A declared tree has exactly one root node, and that node's tree is accepted. */
  ghost predicate TreeAccepted(tree: Element, uid: nat, models: Models, alpha: char -> bool) {
    |tree.children| == 1 && Accepted(tree.children[0], 1, uid + 1, models, alpha)
  }

  /** The references each tree declares, in document order. */
  function Declared(references: References, trees: seq<Element>): References
    decreases |trees|
  {
    if trees == [] then references
    else Declared(Added(references, TreeId(trees[0]),
                        if trees[0].children == [] then [] else Refs(Nodes(trees[0].children[0]))), trees[1..])
  }

  /** Every reference names a known tree. */
  ghost predicate Resolved(references: References, ids: set<string>) {
    forall id <- references, t <- references[id] :: t in ids
  }

  lemma {:induction false} DeclaredKeys(references: References, trees: seq<Element>, all: seq<string>)
    requires forall id <- references :: id in all
    requires forall t <- trees :: TreeId(t) in all
    ensures forall id <- Declared(references, trees) :: id in all
    decreases |trees|
  {
    if trees != [] {
      assert trees[0] in trees;
      DeclaredKeys(Added(references, TreeId(trees[0]),
                         if trees[0].children == [] then [] else Refs(Nodes(trees[0].children[0]))), trees[1..], all);
    }
  }

  /** The models that the document's own section declares. */
  function ModelsIn(roots: seq<Element>): Models
    requires Modelled(roots)
  {
    ModelsOf(EntriesOf(roots))
  }

  function DocumentRows(roots: seq<Element>, main: Option<string>, alpha: char -> bool): seq<Row>
    requires Modelled(roots)
  {
    TreeRows(roots, 1, main, ModelsIn(roots), alpha) + PortRows(EntriesOf(roots))
  }

  /** Everything the conversion of one document demands. */
  ghost predicate DocumentAccepted(roots: seq<Element>, main: Option<string>, bundle: Option<set<string>>,
                                   alpha: char -> bool) {
    && Modelled(roots) && Headed(roots, main, bundle) && TreesAccepted(roots, 1, ModelsIn(roots), alpha)
    && |DocumentRows(roots, main, alpha)| <= MAX_ROWS
    && Resolved(Declared(map[], Trees(roots)), ValidIds(roots, bundle))
    && !BtReferences.Cyclic(Declared(map[], Trees(roots)))
  }

  /**
    * Flatten a document. It is accepted exactly when its models, its heading, every tree, the row bound, the
    * resolution of every subtree reference and their freedom from cycles allow it; its rows are then those of its
    * trees in order, followed by those of its declared ports.
    */
  method Flatten(roots: seq<Element>, main: Option<string>, bundle: Option<set<string>>, alpha: char -> bool)
    returns (ok: bool, rows: seq<Row>, references: References)
    ensures ok <==> DocumentAccepted(roots, main, bundle, alpha)
    ensures ok ==> rows == DocumentRows(roots, main, alpha) && references == Declared(map[], Trees(roots))
  {
    hide Accepted, TreeAccepted, TreesAccepted, TreeRows, Declared, Resolved, Headed, Modelled, EntriesOf, ModelsOf,
         PortRows, ValidIds;
    rows, references := [], map[];
    var entries, models;
    ok, entries, models := ReadModels(roots);
    if !ok {
      return;
    }
    ok := CheckHeading(roots, main, bundle);
    if !ok {
      return;
    }
    var walker := new Walker(models, alpha);
    ok := WalkTrees(walker, roots, main);
    if !ok {
      return;
    }
    references := walker.references;
    ok := CheckResolved(references, ValidIds(roots, bundle));
    if !ok {
      return;
    }
    var ids := Ids(Trees(roots));
    forall t <- Trees(roots)
      ensures TreeId(t) in ids
    {
      var i :| 0 <= i < |Trees(roots)| && Trees(roots)[i] == t;
      assert ids[i] == TreeId(t);
    }
    DeclaredKeys(map[], Trees(roots), ids);
    ok := BtReferences.Check(references, ids);
    if !ok {
      return;
    }
    ok := EmitPorts(walker, entries);
    rows := walker.rows;
  }

  method CheckHeading(roots: seq<Element>, main: Option<string>, bundle: Option<set<string>>) returns (ok: bool)
    ensures ok <==> Headed(roots, main, bundle)
  {
    hide Naming, Trees, ValidIds, Supported;
    var ids := Ids(Trees(roots));
    if (bundle.None? && ids == []) || |ids| > MAX_TREES {
      return false;
    }
    ok := CheckNames(ids);
    ok := ok && (main.Some? ==> main.value in ValidIds(roots, bundle)) && Supported(roots, bundle);
  }

  method CheckNames(ids: seq<string>) returns (ok: bool)
    ensures ok <==> Naming(ids)
  {
    var k := 0;
    while k < |ids|
      invariant 0 <= k <= |ids| && Naming(ids[..k])
    {
      if ids[k] == "" || ids[k] in ids[..k] {
        return false;
      }
      k := k + 1;
    }
    ok := true;
  }

  method CheckResolved(references: References, ids: set<string>) returns (ok: bool)
    ensures ok <==> Resolved(references, ids)
  {
    ok := forall id <- references :: forall t <- references[id] :: t in ids;
  }

  method WalkTrees(walker: Walker, roots: seq<Element>, main: Option<string>) returns (ok: bool)
    requires walker.rows == [] && walker.references == map[]
    modifies walker
    ensures ok <==> TreesAccepted(roots, 1, walker.models, walker.alpha)
                    && |TreeRows(roots, 1, main, walker.models, walker.alpha)| <= MAX_ROWS
    ensures ok ==> walker.rows == TreeRows(roots, 1, main, walker.models, walker.alpha)
                   && walker.references == Declared(map[], Trees(roots))
  {
    hide TreeAccepted, TreesAccepted, TreeRows, RowsOfTree, Declared, Trees, Size, Added, Refs, Nodes, TreeId, IsTree;
    var models, alpha := walker.models, walker.alpha;
    var k, next: nat := 0, 1;
    assert roots[0..] == roots;
    while k < |roots|
      invariant 0 <= k <= |roots| && |walker.rows| <= MAX_ROWS
      invariant TreesAccepted(roots, 1, models, alpha) <==> TreesAccepted(roots[k..], next, models, alpha)
      invariant walker.rows + TreeRows(roots[k..], next, main, models, alpha) == TreeRows(roots, 1, main, models, alpha)
      invariant Declared(walker.references, Trees(roots[k..])) == Declared(map[], Trees(roots))
    {
      var left := roots[k..];
      assert left[0] == roots[k] && left[1..] == roots[k + 1..];
      TreesStep(left, next, main, models, alpha, walker.references);
      if IsTree(roots[k]) {
        ok := WalkTree(walker, roots[k], next, main);
        if !ok {
          return;
        }
      }
      next := next + Size(roots[k]);
      k := k + 1;
    }
    NoTrees(next, main, models, alpha, walker.references);
    assert roots[k..] == [];
    ok := true;
  }

  lemma NoTrees(uid: nat, main: Option<string>, models: Models, alpha: char -> bool, references: References)
    ensures TreesAccepted([], uid, models, alpha) && TreeRows([], uid, main, models, alpha) == []
    ensures Declared(references, Trees([])) == references
  {
  }

  /** What the next root child adds to each of the three totals. */
  lemma TreesStep(left: seq<Element>, uid: nat, main: Option<string>, models: Models, alpha: char -> bool,
                  references: References)
    requires left != []
    ensures TreesAccepted(left, uid, models, alpha)
       <==> (IsTree(left[0]) ==> TreeAccepted(left[0], uid, models, alpha))
            && TreesAccepted(left[1..], uid + Size(left[0]), models, alpha)
    ensures TreeRows(left, uid, main, models, alpha)
         == (if IsTree(left[0]) then RowsOfTree(left[0], uid, main, models, alpha) else [])
            + TreeRows(left[1..], uid + Size(left[0]), main, models, alpha)
    ensures !IsTree(left[0]) ==> Trees(left) == Trees(left[1..])
    ensures IsTree(left[0]) && left[0].children != [] ==>
              Declared(references, Trees(left))
              == Declared(Added(references, TreeId(left[0]), Refs(Nodes(left[0].children[0]))), Trees(left[1..]))
  {
    hide TreeAccepted, RowsOfTree, Added, Refs, Nodes;
    if IsTree(left[0]) {
      TreesFirst(left);
    }
  }

  lemma TreesFirst(left: seq<Element>)
    requires left != [] && IsTree(left[0])
    ensures Trees(left) != [] && Trees(left)[0] == left[0] && Trees(left)[1..] == Trees(left[1..])
  {
  }

  method WalkTree(walker: Walker, tree: Element, uid: nat, main: Option<string>) returns (ok: bool)
    requires |walker.rows| <= MAX_ROWS
    modifies walker
    ensures ok <==> TreeAccepted(tree, uid, walker.models, walker.alpha)
                    && |old(walker.rows)| + |RowsOfTree(tree, uid, main, walker.models, walker.alpha)| <= MAX_ROWS
    ensures ok ==> walker.rows == old(walker.rows) + RowsOfTree(tree, uid, main, walker.models, walker.alpha)
    ensures ok ==> tree.children != []
                   && walker.references == Added(old(walker.references), TreeId(tree), Refs(Nodes(tree.children[0])))
  {
    hide Accepted, Flat, Added, Refs;
    if |tree.children| != 1 {
      return false;
    }
    ok := walker.Append(TreeRow(uid, TreeId(tree), main == Some(TreeId(tree))));
    if ok {
      ok := walker.Walk(tree.children[0], TreeId(tree), uid, 0, 1, uid + 1);
    }
  }

  // ---------------------------------------------------------------- reading a document back

  /** A declared tree as its rows tell it. */
  datatype Declaration = Declaration(id: string, main: bool, root: BtFlattening.Shape)

  function DeclarationsOf(trees: seq<Element>, main: Option<string>): seq<Declaration>
    requires forall t <- trees :: t.children != []
  {
    if trees == [] then []
    else [Declaration(TreeId(trees[0]), main == Some(TreeId(trees[0])), BtFlattening.ShapeOf(trees[0].children[0]))]
         + DeclarationsOf(trees[1..], main)
  }

  /** Read the declared trees up to the rows of the declared ports. */
  function ReadDocument(rows: seq<Row>): Option<(seq<Declaration>, seq<Row>)>
    decreases |rows|
  {
    if rows == [] || rows[0].ModelPortRow? then Some(([], rows))
    else if !rows[0].TreeRow? then None
    else
      match BtFlattening.ReadTree(rows[1..])
      case None => None
      case Some((shape, left)) =>
        match ReadDocument(left)
        case None => None
        case Some((others, ports)) => Some(([Declaration(rows[0].treeId, rows[0].main, shape)] + others, ports))
  }

  lemma {:induction false} AcceptedTrees(roots: seq<Element>, uid: nat, models: Models, alpha: char -> bool)
    requires TreesAccepted(roots, uid, models, alpha)
    ensures forall t <- Trees(roots) :: |t.children| == 1
  {
    hide Accepted;
    if roots != [] {
      AcceptedTrees(roots[1..], uid + Size(roots[0]), models, alpha);
    }
  }

  lemma {:induction false} RowsBounded(roots: seq<Element>, uid: nat, main: Option<string>, models: Models,
                                       alpha: char -> bool, ports: seq<Row>)
    requires BtFlattening.Bounded(ports)
    ensures BtFlattening.Bounded(TreeRows(roots, uid, main, models, alpha) + ports)
  {
    if roots != [] {
      RowsBounded(roots[1..], uid + Size(roots[0]), main, models, alpha, ports);
    }
  }

  lemma {:induction false} TreesRebuilt(roots: seq<Element>, uid: nat, main: Option<string>, models: Models,
                                        alpha: char -> bool, ports: seq<Row>)
    requires TreesAccepted(roots, uid, models, alpha) && (ports == [] || ports[0].ModelPortRow?)
    ensures forall t <- Trees(roots) :: t.children != []
    ensures ReadDocument(TreeRows(roots, uid, main, models, alpha) + ports)
         == Some((DeclarationsOf(Trees(roots), main), ports))
  {
    hide *;
    AcceptedTrees(roots, uid, models, alpha);
    NothingRead(ports);
    if roots == [] {
      NoTrees(uid, main, models, alpha, map[]);
      NothingDeclared(roots, main);
      assert TreeRows(roots, uid, main, models, alpha) + ports == ports;
    } else {
      var next := uid + Size(roots[0]);
      var others := TreeRows(roots[1..], next, main, models, alpha) + ports;
      TreesStep(roots, uid, main, models, alpha, map[]);
      AcceptedTrees(roots[1..], next, models, alpha);
      TreesRebuilt(roots[1..], next, main, models, alpha, ports);
      if IsTree(roots[0]) {
        RowsBounded(roots[1..], next, main, models, alpha, ports);
        FirstTreeRebuilt(roots, uid, main, models, alpha, others, ports);
        assert TreeRows(roots, uid, main, models, alpha) + ports
            == RowsOfTree(roots[0], uid, main, models, alpha) + others;
      } else {
        assert TreeRows(roots, uid, main, models, alpha) == TreeRows(roots[1..], next, main, models, alpha);
      }
    }
  }

  lemma NothingDeclared(roots: seq<Element>, main: Option<string>)
    requires roots == []
    ensures Trees(roots) == [] && DeclarationsOf([], main) == []
  {
  }

  lemma DeclaredFirst(roots: seq<Element>, main: Option<string>)
    requires roots != [] && IsTree(roots[0]) && forall t <- Trees(roots) :: t.children != []
    ensures Trees(roots) == [roots[0]] + Trees(roots[1..])
    ensures DeclarationsOf(Trees(roots), main)
         == [Declaration(TreeId(roots[0]), main == Some(TreeId(roots[0])), BtFlattening.ShapeOf(roots[0].children[0]))]
            + DeclarationsOf(Trees(roots[1..]), main)
  {
    hide BtFlattening.ShapeOf, TreeId;
    assert Trees(roots) == [roots[0]] + Trees(roots[1..]);
    assert Trees(roots)[1..] == Trees(roots[1..]);
  }

  lemma NothingRead(ports: seq<Row>)
    requires ports == [] || ports[0].ModelPortRow?
    ensures ReadDocument(ports) == Some(([], ports)) && BtFlattening.Bounded(ports)
  {
  }

  lemma ReadFirst(rows: seq<Row>, shape: BtFlattening.Shape, left: seq<Row>, others: seq<Declaration>, ports: seq<Row>)
    requires rows != [] && rows[0].TreeRow? && BtFlattening.ReadTree(rows[1..]) == Some((shape, left))
    requires ReadDocument(left) == Some((others, ports))
    ensures ReadDocument(rows) == Some(([Declaration(rows[0].treeId, rows[0].main, shape)] + others, ports))
  {
  }

  lemma FirstTreeRebuilt(roots: seq<Element>, uid: nat, main: Option<string>, models: Models, alpha: char -> bool,
                         others: seq<Row>, ports: seq<Row>)
    requires roots != [] && IsTree(roots[0]) && TreeAccepted(roots[0], uid, models, alpha)
    requires BtFlattening.Bounded(others) && forall t <- Trees(roots) :: t.children != []
    requires forall t <- Trees(roots[1..]) :: t.children != []
    requires ReadDocument(others) == Some((DeclarationsOf(Trees(roots[1..]), main), ports))
    ensures ReadDocument(RowsOfTree(roots[0], uid, main, models, alpha) + others)
         == Some((DeclarationsOf(Trees(roots), main), ports))
  {
    hide TreeAccepted, RowsOfTree, ReadDocument, Trees, DeclarationsOf, BtFlattening.ShapeOf, BtFlattening.ReadTree;
    OneTreeRebuilt(roots[0], uid, main, models, alpha, others);
    DeclaredFirst(roots, main);
    ReadFirst(RowsOfTree(roots[0], uid, main, models, alpha) + others, BtFlattening.ShapeOf(roots[0].children[0]),
              others, DeclarationsOf(Trees(roots[1..]), main), ports);
  }

  lemma OneTreeRebuilt(tree: Element, uid: nat, main: Option<string>, models: Models, alpha: char -> bool,
                       others: seq<Row>)
    requires TreeAccepted(tree, uid, models, alpha) && BtFlattening.Bounded(others)
    ensures var rows := RowsOfTree(tree, uid, main, models, alpha) + others;
            && rows != [] && rows[0] == TreeRow(uid, TreeId(tree), main == Some(TreeId(tree)))
            && BtFlattening.ReadTree(rows[1..]) == Some((BtFlattening.ShapeOf(tree.children[0]), others))
  {
    BtFlattening.TreeRebuilt(tree.children[0], TreeId(tree), uid, 0, uid + 1, models, alpha, others);
    assert (RowsOfTree(tree, uid, main, models, alpha) + others)[1..]
        == Flat(tree.children[0], TreeId(tree), uid, 0, uid + 1, models, alpha) + others;
  }

  /** From the rows of an accepted document alone, every declared tree can be rebuilt, and the port rows remain. */
  lemma DocumentRebuilt(roots: seq<Element>, main: Option<string>, alpha: char -> bool)
    requires Modelled(roots) && TreesAccepted(roots, 1, ModelsIn(roots), alpha)
    ensures forall t <- Trees(roots) :: t.children != []
    ensures ReadDocument(DocumentRows(roots, main, alpha))
         == Some((DeclarationsOf(Trees(roots), main), PortRows(EntriesOf(roots))))
  {
    hide Modelled, EntriesOf, ModelsOf, PortRows;
    var ports := PortRows(EntriesOf(roots));
    if ports != [] {
      PortRowsHold(EntriesOf(roots), ports[0]);
    }
    TreesRebuilt(roots, 1, main, ModelsIn(roots), alpha, ports);
  }
}
