/**
  * The trees of a whole bundle: the checks across its documents, and what they leave for each document's own
  * conversion. A tree may refer to a tree of any document; the bundle's search settles that once and for all.
  */
module BtBundleTrees {
  import opened Common
  import opened BtNodes
  import opened BtTree
  import opened BtModels
  import opened BtDocument
  import BtReferences

  /** The ids that the subtree nodes among these name; a node that names none stands for the empty id. */
  function SubtreeIds(es: seq<Element>): seq<string> {
    if es == [] then [] else (if es[0].tag == "SubTree" then [Text(es[0], "ID")] else []) + SubtreeIds(es[1..])
  }

  /** The references of each tree, over everything below its element. */
  function GraphOf(trees: seq<Element>): References {
    if trees == [] then map[]
    else
      var last := trees[|trees| - 1];
      GraphOf(trees[..|trees| - 1])[TreeId(last) := SubtreeIds(Nodes(last))]
  }

  function TreesOf(docs: seq<seq<Element>>): seq<Element> {
    if docs == [] then [] else TreesOf(docs[..|docs| - 1]) + Trees(docs[|docs| - 1])
  }

  function EntryIds(entries: seq<Entry>): seq<string> {
    seq(|entries|, i requires 0 <= i < |entries| => entries[i].id)
  }

  function ModelIdsOf(docs: seq<seq<Element>>): seq<string>
    requires forall i | 0 <= i < |docs| :: Modelled(docs[i])
  {
    if docs == [] then []
    else ModelIdsOf(docs[..|docs| - 1]) + EntryIds(EntriesOf(docs[|docs| - 1]))
  }

  /** Tree ids that are there, all different, and not the names of registered nodes. */
  ghost predicate TreesNamed(trees: seq<Element>) {
    Naming(Ids(trees)) && forall i | 0 <= i < |trees| :: BuiltinCategory(TreeId(trees[i])).None?
  }

  /** What the bundle demands of its documents together. */
  ghost predicate Together(docs: seq<seq<Element>>) {
    && (forall i | 0 <= i < |docs| :: Modelled(docs[i]))
    && Distinct(ModelIdsOf(docs)) && TreesNamed(TreesOf(docs)) && 1 <= |TreesOf(docs)| <= MAX_TREES
    && Elements(Ids(TreesOf(docs))) !! Elements(ModelIdsOf(docs))
    && Resolved(GraphOf(TreesOf(docs)), Elements(Ids(TreesOf(docs)))) && !BtReferences.Cyclic(GraphOf(TreesOf(docs)))
  }

  // ---------------------------------------------------------------- the checks

  lemma DistinctSnoc(s: seq<string>, x: string)
    ensures Distinct(s + [x]) <==> Distinct(s) && x !in s
    ensures Elements(s + [x]) == Elements(s) + {x}
  {
    var longer := s + [x];
    if Distinct(longer) {
      assert forall i, j | 0 <= i < j < |s| :: s[i] == longer[i] && s[j] == longer[j];
      assert forall i | 0 <= i < |s| :: longer[i] != longer[|s|];
    }
  }

  lemma DistinctPrefix(s: seq<string>, t: seq<string>)
    requires s <= t && Distinct(t)
    ensures Distinct(s)
  {
  }

  /** The models of one more document. */
  method TakeModels(known: seq<string>, entries: seq<Entry>) returns (ok: bool, after: seq<string>)
    requires Distinct(known)
    ensures ok <==> Distinct(known + EntryIds(entries))
    ensures ok ==> after == known + EntryIds(entries)
  {
    hide Distinct, Elements;
    after := known;
    var k := 0;
    while k < |entries|
      invariant 0 <= k <= |entries| && after == known + EntryIds(entries)[..k] && Distinct(after)
    {
      DistinctSnoc(after, entries[k].id);
      if entries[k].id in after {
        if Distinct(known + EntryIds(entries)) {
          DistinctPrefix(after + [entries[k].id], known + EntryIds(entries));
        }
        return false, after;
      }
      after := after + [entries[k].id];
      k := k + 1;
    }
    assert EntryIds(entries)[..k] == EntryIds(entries);
    ok := true;
  }

  lemma {:induction false} GraphKeys(trees: seq<Element>)
    ensures GraphOf(trees).Keys == Elements(Ids(trees))
  {
    hide SubtreeIds, TreeId;
    if trees == [] {
      assert Ids(trees) == [] && GraphOf(trees) == map[];
      assert Elements<string>([]) == {};
    } else {
      var before, last := trees[..|trees| - 1], trees[|trees| - 1];
      GraphKeys(before);
      assert Ids(trees) == Ids(before) + [TreeId(last)];
      DistinctSnoc(Ids(before), TreeId(last));
      assert GraphOf(trees).Keys == GraphOf(before).Keys + {TreeId(last)};
    }
  }

  lemma NamedSnoc(trees: seq<Element>, tree: Element)
    requires TreesNamed(trees)
    ensures TreesNamed(trees + [tree])
       <==> TreeId(tree) != "" && TreeId(tree) !in Ids(trees) && BuiltinCategory(TreeId(tree)).None?
  {
    hide TreeId, BuiltinCategory;
    var longer := trees + [tree];
    assert Ids(longer) == Ids(trees) + [TreeId(tree)];
    assert longer[|trees|] == tree && Ids(longer)[|trees|] == TreeId(tree);
    assert forall i | 0 <= i < |trees| :: longer[i] == trees[i] && Ids(longer)[i] == Ids(trees)[i];
    if TreesNamed(longer) {
      assert forall i | 0 <= i < |trees| :: Ids(longer)[i] != Ids(longer)[|trees|];
    }
  }

  lemma NamedPrefix(trees: seq<Element>, more: seq<Element>)
    requires trees <= more && TreesNamed(more)
    ensures TreesNamed(trees)
  {
    hide TreeId, BuiltinCategory;
    assert forall i | 0 <= i < |trees| :: Ids(trees)[i] == Ids(more)[i];
  }

  lemma GraphSnoc(trees: seq<Element>, tree: Element)
    ensures GraphOf(trees + [tree]) == GraphOf(trees)[TreeId(tree) := SubtreeIds(Nodes(tree))]
  {
    assert (trees + [tree])[..|trees|] == trees;
  }

  /** The trees of one more document. */
  method TakeTrees(graph: References, trees: seq<Element>, ghost known: seq<Element>)
    returns (ok: bool, after: References)
    requires TreesNamed(known) && graph == GraphOf(known)
    ensures ok <==> TreesNamed(known + trees)
    ensures ok ==> after == GraphOf(known + trees)
  {
    hide TreesNamed, GraphOf, SubtreeIds, BuiltinCategory, Elements;
    after := graph;
    var k := 0;
    assert known + trees[..0] == known;
    while k < |trees|
      invariant 0 <= k <= |trees| && TreesNamed(known + trees[..k]) && after == GraphOf(known + trees[..k])
    {
      ghost var sofar := known + trees[..k];
      assert known + trees[..k + 1] == sofar + [trees[k]];
      NamedSnoc(sofar, trees[k]);
      GraphSnoc(sofar, trees[k]);
      GraphKeys(sofar);
      InElements(Ids(sofar), TreeId(trees[k]));
      var id := TreeId(trees[k]);
      if id == "" || id in after || BuiltinCategory(id).Some? {
        if TreesNamed(known + trees) {
          NamedPrefix(sofar + [trees[k]], known + trees);
        }
        return false, after;
      }
      after := after[id := SubtreeIds(Nodes(trees[k]))];
      k := k + 1;
    }
    assert trees[..k] == trees;
    ok := true;
  }

  lemma InElements(s: seq<string>, x: string)
    ensures x in Elements(s) <==> x in s
  {
  }

  lemma DocsSnoc(docs: seq<seq<Element>>, k: nat)
    requires k < |docs|
    ensures TreesOf(docs[..k + 1]) == TreesOf(docs[..k]) + Trees(docs[k])
    ensures (forall i | 0 <= i <= k :: Modelled(docs[i])) ==>
              ModelIdsOf(docs[..k + 1]) == ModelIdsOf(docs[..k]) + EntryIds(EntriesOf(docs[k]))
  {
    hide Modelled, EntriesOf, Trees;
    assert docs[..k + 1][..k] == docs[..k];
  }

  lemma {:induction false} DocsGrow(docs: seq<seq<Element>>, k: nat)
    requires k <= |docs|
    ensures TreesOf(docs[..k]) <= TreesOf(docs)
    ensures (forall i | 0 <= i < |docs| :: Modelled(docs[i])) ==> ModelIdsOf(docs[..k]) <= ModelIdsOf(docs)
    decreases |docs| - k
  {
    hide Modelled, Trees;
    if k == |docs| {
      assert docs[..k] == docs;
    } else {
      DocsSnoc(docs, k);
      DocsGrow(docs, k + 1);
    }
  }

  /** The checks across the documents, and the ids that each document's own conversion is then given. */
  method CheckTogether(docs: seq<seq<Element>>) returns (ok: bool, ids: set<string>)
    ensures ok <==> Together(docs)
    ensures ok ==> ids == Elements(Ids(TreesOf(docs)))
  {
    hide Modelled, TreesNamed, Distinct, GraphOf, Elements, Resolved, Trees, EntriesOf;
    var models: seq<string> := [];
    var graph: References := map[];
    var count := 0;
    ids := {};
    Nothing(docs);
    var k := 0;
    while k < |docs|
      invariant 0 <= k <= |docs| && forall i | 0 <= i < k :: Modelled(docs[i])
      invariant models == ModelIdsOf(docs[..k]) && Distinct(models) && count == |TreesOf(docs[..k])|
      invariant TreesNamed(TreesOf(docs[..k])) && graph == GraphOf(TreesOf(docs[..k]))
    {
      var entries, read;
      ok, entries, read := ReadModels(docs[k]);
      if !ok {
        return false, ids;
      }
      DocsSnoc(docs, k);
      DocsGrow(docs, k + 1);
      ok, models := TakeModels(models, entries);
      if !ok {
        if Together(docs) {
          DistinctPrefix(ModelIdsOf(docs[..k + 1]), ModelIdsOf(docs));
        }
        return false, ids;
      }
      ok, graph := TakeTrees(graph, Trees(docs[k]), TreesOf(docs[..k]));
      if !ok {
        if Together(docs) {
          NamedPrefix(TreesOf(docs[..k + 1]), TreesOf(docs));
        }
        return false, ids;
      }
      count := count + |Trees(docs[k])|;
      k := k + 1;
    }
    assert docs[..k] == docs;
    GraphKeys(TreesOf(docs));
    ids := graph.Keys;
    if count == 0 || count > MAX_TREES || !(ids !! Elements(models)) {
      return false, ids;
    }
    ok := CheckResolved(graph, ids);
    if ok {
      ok := SearchAll(graph, Ids(TreesOf(docs)));
    }
  }

  lemma Nothing(docs: seq<seq<Element>>)
    ensures TreesOf(docs[..0]) == [] && ModelIdsOf(docs[..0]) == [] && Distinct<string>([])
    ensures TreesNamed([]) && GraphOf([]) == map[]
  {
  }

  method SearchAll(graph: References, ids: seq<string>) returns (ok: bool)
    requires graph.Keys == Elements(ids)
    ensures ok <==> !BtReferences.Cyclic(graph)
  {
    ok := BtReferences.Check(graph, ids);
  }

  // ---------------------------------------------------------------- what is left for one document

  /** Every reference of the one graph is a reference of the other. */
  ghost predicate Within(g: References, h: References) {
    forall id, t | t in BtReferences.Targets(g, id) :: t in BtReferences.Targets(h, id)
  }

  lemma CycleWithin(g: References, h: References, p: seq<string>)
    requires Within(g, h) && BtReferences.IsCycle(g, p)
    ensures BtReferences.IsCycle(h, p)
  {
    forall i | 0 <= i < |p| - 1
      ensures p[i + 1] in BtReferences.Targets(h, p[i])
    {
      assert p[i + 1] in BtReferences.Targets(g, p[i]);
    }
  }

  lemma CyclesWithin(g: References, h: References)
    requires Within(g, h)
    ensures BtReferences.Cyclic(g) ==> BtReferences.Cyclic(h)
  {
    if BtReferences.Cyclic(g) {
      var p :| BtReferences.IsCycle(g, p);
      CycleWithin(g, h, p);
    }
  }

  lemma {:induction false} RefFrom(es: seq<Element>, t: string) returns (e: Element)
    requires t in Refs(es)
    ensures e in es && e.tag == "SubTree" && Text(e, "ID") == t
  {
    if t in RefsOf(es[0]) {
      e := es[0];
    } else {
      e := RefFrom(es[1..], t);
    }
  }

  lemma {:induction false} SubtreeNamed(es: seq<Element>, e: Element)
    requires e in es && e.tag == "SubTree"
    ensures Text(e, "ID") in SubtreeIds(es)
  {
    hide Text;
    if es[0] != e {
      SubtreeNamed(es[1..], e);
    }
  }

  /** What a document's walk collects below a tree's root node, the bundle's search collects below the tree. */
  /** The ids gathered of a bundle's trees are exactly those that their SubTree elements give. */
  lemma {:induction false} SubtreeIdsExactly(es: seq<Element>, t: string)
    ensures t in SubtreeIds(es) <==> exists e <- es :: e.tag == "SubTree" && Text(e, "ID") == t
  {
    hide Text;
    if es != [] {
      var first, others := es[0], es[1..];
      SubtreeIdsExactly(others, t);
      assert forall e :: e in es <==> e == first || e in others;
    }
  }

  lemma TreeRefs(tree: Element, t: string)
    requires tree.children != [] && t in Refs(Nodes(tree.children[0]))
    ensures t in SubtreeIds(Nodes(tree))
  {
    hide Refs, SubtreeIds;
    var e := RefFrom(Nodes(tree.children[0]), t);
    assert NodesAll(tree.children) == Nodes(tree.children[0]) + NodesAll(tree.children[1..]);
    assert Nodes(tree) == [tree] + NodesAll(tree.children);
    SubtreeNamed(Nodes(tree), e);
  }

  lemma {:induction false} GraphAt(trees: seq<Element>, i: nat)
    requires i < |trees| && TreesNamed(trees)
    ensures BtReferences.Targets(GraphOf(trees), TreeId(trees[i])) == SubtreeIds(Nodes(trees[i]))
  {
    hide TreeId, SubtreeIds, BuiltinCategory;
    var before := trees[..|trees| - 1];
    if i < |before| {
      NamedPrefix(before, trees);
      GraphAt(before, i);
      assert Ids(trees)[i] != Ids(trees)[|trees| - 1];
    }
  }

  /** Where a reference that a document declares comes from. */
  lemma {:induction false} DeclaredFrom(references: References, trees: seq<Element>, id: string, t: string)
    requires t in BtReferences.Targets(Declared(references, trees), id)
    ensures t in BtReferences.Targets(references, id)
            || exists i | 0 <= i < |trees| :: TreeId(trees[i]) == id && trees[i].children != []
                                             && t in Refs(Nodes(trees[i].children[0]))
    decreases |trees|
  {
    hide TreeId, Refs, Nodes;
    if trees != [] {
      var first := trees[0];
      var refs := if first.children == [] then [] else Refs(Nodes(first.children[0]));
      DeclaredFrom(Added(references, TreeId(first), refs), trees[1..], id, t);
      if t !in BtReferences.Targets(Added(references, TreeId(first), refs), id) {
        var i :| 0 <= i < |trees[1..]| && TreeId(trees[1..][i]) == id && trees[1..][i].children != []
                 && t in Refs(Nodes(trees[1..][i].children[0]));
        assert trees[i + 1] == trees[1..][i];
      }
    }
  }

  /** A reference that a document declares is one of the bundle's. */
  lemma ReferenceWithin(own: seq<Element>, all: seq<Element>, from: nat, id: string, t: string)
    requires TreesNamed(all) && from + |own| <= |all| && all[from..from + |own|] == own
    requires t in BtReferences.Targets(Declared(map[], own), id)
    ensures t in BtReferences.Targets(GraphOf(all), id)
  {
    hide TreesNamed, GraphOf, TreeId, Refs, Nodes, SubtreeIds, Declared;
    DeclaredFrom(map[], own, id, t);
    var i :| 0 <= i < |own| && TreeId(own[i]) == id && own[i].children != [] && t in Refs(Nodes(own[i].children[0]));
    assert all[from + i] == all[from..from + |own|][i];
    TreeRefs(own[i], t);
    GraphAt(all, from + i);
  }

  /** A document's own graph lies within the bundle's. */
  lemma DocumentWithin(docs: seq<seq<Element>>, k: nat)
    requires k < |docs| && TreesNamed(TreesOf(docs))
    ensures Within(Declared(map[], Trees(docs[k])), GraphOf(TreesOf(docs)))
  {
    hide *;
    var own, all, from := Trees(docs[k]), TreesOf(docs), |TreesOf(docs[..k])|;
    TreesPlaced(docs, k);
    forall id, t | t in BtReferences.Targets(Declared(map[], own), id)
      ensures t in BtReferences.Targets(GraphOf(all), id)
    {
      ReferenceWithin(own, all, from, id, t);
    }
    WithinIs(Declared(map[], own), GraphOf(all));
  }

  lemma WithinIs(g: References, h: References)
    requires forall id, t | t in BtReferences.Targets(g, id) :: t in BtReferences.Targets(h, id)
    ensures Within(g, h)
  {
  }

  lemma TreesPlaced(docs: seq<seq<Element>>, k: nat)
    requires k < |docs|
    ensures var from, own := |TreesOf(docs[..k])|, Trees(docs[k]);
            from + |own| <= |TreesOf(docs)| && TreesOf(docs)[from..from + |own|] == own
  {
    hide *;
    DocsSnoc(docs, k);
    DocsGrow(docs, k + 1);
    var from, own := |TreesOf(docs[..k])|, Trees(docs[k]);
    assert TreesOf(docs)[..from + |own|] == TreesOf(docs[..k]) + own;
  }

  /**
    * Once the bundle's own checks have passed, a document's guards against unresolved and cyclic references, repeated
    * or missing tree ids, too many trees and unsound models can never fire: only its main tree, its other elements,
    * its trees and its rows are left to refuse it.
    */
  lemma GuardsNeverFire(docs: seq<seq<Element>>, k: nat, main: Option<string>, alpha: char -> bool)
    requires Together(docs) && k < |docs|
    ensures var ids := Elements(Ids(TreesOf(docs)));
            DocumentAccepted(docs[k], main, Some(ids), alpha)
            <==> && (main.Some? ==> main.value in ids) && Supported(docs[k], Some(ids))
                 && TreesAccepted(docs[k], 1, ModelsIn(docs[k]), alpha)
                 && |DocumentRows(docs[k], main, alpha)| <= MAX_ROWS
  {
    hide Modelled, TreesNamed, GraphOf, Elements, Trees, TreesAccepted, DocumentRows, Supported, ModelsIn, Declared;
    var own, all := Trees(docs[k]), TreesOf(docs);
    var ids, graph := Elements(Ids(all)), Declared(map[], own);
    DocumentWithin(docs, k);
    CyclesWithin(graph, GraphOf(all));
    ResolvedWithin(graph, GraphOf(all), ids);
    TreesPlaced(docs, k);
    NamedWithin(all, |TreesOf(docs[..k])|, own);
  }

  lemma ResolvedWithin(g: References, h: References, ids: set<string>)
    requires Within(g, h) && Resolved(h, ids)
    ensures Resolved(g, ids)
  {
    forall id <- g, t <- g[id]
      ensures t in ids
    {
      assert t in BtReferences.Targets(g, id);
      assert t in BtReferences.Targets(h, id);
    }
  }

  lemma NamedWithin(all: seq<Element>, from: nat, own: seq<Element>)
    requires TreesNamed(all) && from + |own| <= |all| && all[from..from + |own|] == own
    ensures Naming(Ids(own))
  {
    hide TreeId, BuiltinCategory;
    assert forall i | 0 <= i < |own| :: Ids(own)[i] == Ids(all)[from + i];
  }
}
