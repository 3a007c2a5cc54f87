/**
  * Resolving the includes of a closed bundle. `Loader` walks from the entry document as the converter does;
  * `TreeShaped` says, of the include graph alone, when that walk must succeed.
  */
module BtBundle {
  import opened Common

  type FileName = string

  const MAX_DEPTH := 64
  const MAX_FILES := 16

  /** An include element: a well-formed one names its target; anything else is refused when it is reached. */
  datatype Include = Malformed | Target(file: FileName)

  /** A saved document, with its include elements in order if it can be read at all. */
  datatype Document = Unreadable | Readable(includes: seq<Include>)

  type Bundle = map<FileName, Document>

  /** One include edge: which include of which file. Its target is what that include names. */
  datatype Edge = Edge(file: FileName, index: nat, target: FileName)

  predicate HasEdge(files: Bundle, e: Edge) {
    && e.file in files && files[e.file].Readable? && e.index < |files[e.file].includes|
    && files[e.file].includes[e.index] == Target(e.target)
  }

  /** A document that is there, readable, and holds only well-formed includes. */
  predicate Good(files: Bundle, f: FileName) {
    && f in files && files[f].Readable?
    && forall k | 0 <= k < |files[f].includes| :: files[f].includes[k].Target?
  }

  /** A chain of include edges from the entry. */
  ghost predicate Chain(files: Bundle, entry: FileName, edges: seq<Edge>, f: FileName) {
    if edges == [] then f == entry
    else
      var last := edges[|edges| - 1];
      last.target == f && HasEdge(files, last) && Chain(files, entry, edges[..|edges| - 1], last.file)
  }

  ghost predicate Reachable(files: Bundle, entry: FileName, f: FileName) {
    exists edges :: Chain(files, entry, edges, f)
  }

  /**
    * The include graph below the entry is a tree of good documents: nothing includes the entry, and no two
    * include elements name the same file.
    */
  ghost predicate TreeShaped(files: Bundle, entry: FileName) {
    && (forall f | Reachable(files, entry, f) :: Good(files, f))
    && (forall e: Edge | HasEdge(files, e) && Reachable(files, entry, e.file) :: e.target != entry)
    && (forall e: Edge, e': Edge | HasEdge(files, e) && HasEdge(files, e')
          && Reachable(files, entry, e.file) && Reachable(files, entry, e'.file) && e.target == e'.target :: e == e')
  }

  lemma ReachableByEdge(files: Bundle, entry: FileName, e: Edge)
    requires Reachable(files, entry, e.file) && HasEdge(files, e)
    ensures Reachable(files, entry, e.target)
  {
    var edges :| Chain(files, entry, edges, e.file);
    assert (edges + [e])[..|edges|] == edges;
    assert Chain(files, entry, edges + [e], e.target);
  }

  lemma EntryReachable(files: Bundle, entry: FileName)
    ensures Reachable(files, entry, entry)
  {
    assert Chain(files, entry, [], entry);
  }

  /** A set of files that holds the entry and every include target of its members holds all reachable files. */
  lemma {:induction false} ClosedHoldsReachable(files: Bundle, entry: FileName, closed: set<FileName>,
                                                edges: seq<Edge>, f: FileName)
    requires entry in closed && Chain(files, entry, edges, f)
    requires forall e: Edge | HasEdge(files, e) && e.file in closed :: e.target in closed
    ensures f in closed
    decreases |edges|
  {
    if edges != [] {
      var last := edges[|edges| - 1];
      ClosedHoldsReachable(files, entry, closed, edges[..|edges| - 1], last.file);
    }
  }

  datatype LoadError = IncludeCycle | RepeatedInclusion | MissingOrTooDeep | UnreadableDocument | BadInclude

  /** How far the walk has come. */
  datatype Progress = Progress(roots: set<FileName>, active: set<FileName>, loaded: seq<FileName>, edges: seq<Edge>)

  /** Every file met is known and reachable, and each but the entry is the target of one recorded edge. */
  ghost predicate Met(files: Bundle, entry: FileName, p: Progress) {
    && p.active <= p.roots && p.roots <= files.Keys
    && (forall f <- p.roots :: Reachable(files, entry, f))
    && (forall i | 0 <= i < |p.edges| ::
          HasEdge(files, p.edges[i]) && p.edges[i].file in p.roots && p.edges[i].target in p.roots
          && p.edges[i].target != entry)
    && (forall i, j | 0 <= i < j < |p.edges| :: p.edges[i].target != p.edges[j].target)
    && (forall f <- p.roots :: f == entry || exists i | 0 <= i < |p.edges| :: p.edges[i].target == f)
  }

  /** The files listed are exactly those met and left; each is good and follows everything it includes. */
  ghost predicate Listed(files: Bundle, p: Progress) {
    && Elements(p.loaded) == p.roots - p.active && Distinct(p.loaded)
    && (forall i | 0 <= i < |p.loaded| :: Good(files, p.loaded[i]))
    && (forall i, e: Edge | 0 <= i < |p.loaded| && HasEdge(files, e) && e.file == p.loaded[i]
          :: e in p.edges && e.target in p.loaded[..i])
  }

  /** The walk may only grow: what it adds comes from files it had not met. */
  ghost predicate Extends(q: Progress, p: Progress) {
    && p.roots <= q.roots && p.loaded <= q.loaded && p.edges <= q.edges
    && forall i | |p.edges| <= i < |q.edges| :: q.edges[i].file !in p.roots
  }

  lemma ExtendsAlong(r: Progress, q: Progress, e: Edge, p: Progress)
    requires Extends(q, p) && e.file !in p.roots && Extends(r, q.(edges := q.edges + [e]))
    ensures Extends(r, p) && e in r.edges
    ensures forall f <- r.edges :: f in q.edges || f == e || f.file !in q.roots
  {
    forall i | |p.edges| <= i < |r.edges|
      ensures r.edges[i].file !in p.roots
    {
      assert i < |q.edges| ==> r.edges[i] == q.edges[i];
      assert i == |q.edges| ==> r.edges[i] == e;
    }
    assert r.edges[|q.edges|] == e;
  }

  lemma MetFacts(files: Bundle, entry: FileName, p: Progress)
    requires Met(files, entry, p)
    ensures p.active <= p.roots <= files.Keys
    ensures forall f <- p.roots :: Reachable(files, entry, f)
    ensures forall e <- p.edges :: e.file in p.roots
  {
  }

  lemma NoDocument(files: Bundle, entry: FileName, p: Progress, e: Edge)
    requires Met(files, entry, p) && HasEdge(files, e) && e.file in p.roots && e.target !in files
    ensures !TreeShaped(files, entry)
  {
    ReachableByEdge(files, entry, e);
    NotGood(files, entry, e.target);
  }

  lemma Ungood(files: Bundle, f: FileName)
    ensures f in files && files[f].Unreadable? ==> !Good(files, f)
    ensures forall k | f in files && files[f].Readable? && 0 <= k < |files[f].includes| ::
              files[f].includes[k].Malformed? ==> !Good(files, f)
  {
  }

  lemma AllGood(files: Bundle, f: FileName)
    requires f in files && files[f].Readable?
    requires forall k | 0 <= k < |files[f].includes| :: files[f].includes[k].Target?
    ensures Good(files, f)
  {
  }

  lemma ListedStays(files: Bundle, p: Progress, f: FileName, edges: seq<Edge>)
    requires Listed(files, p) && f !in p.roots && p.edges <= edges
    ensures Listed(files, Progress(p.roots + {f}, p.active + {f}, p.loaded, edges))
  {
    assert forall e <- p.edges :: e in edges;
  }

  lemma MetLeaves(files: Bundle, entry: FileName, p: Progress, f: FileName)
    requires Met(files, entry, p)
    ensures Met(files, entry, Progress(p.roots, p.active - {f}, p.loaded + [f], p.edges))
  {
  }

  /** Meeting a file twice breaks the tree shape: two includes name it, or one names the entry. */
  lemma MetTwice(files: Bundle, entry: FileName, p: Progress, e: Edge)
    requires Met(files, entry, p) && HasEdge(files, e) && e.file in p.roots && e !in p.edges
    requires e.target in p.roots
    ensures !TreeShaped(files, entry)
  {
    if e.target != entry {
      var i :| 0 <= i < |p.edges| && p.edges[i].target == e.target;
      assert HasEdge(files, p.edges[i]) && Reachable(files, entry, p.edges[i].file);
    }
  }

  lemma NotGood(files: Bundle, entry: FileName, f: FileName)
    requires Reachable(files, entry, f) && !Good(files, f)
    ensures !TreeShaped(files, entry)
  {
  }

  /** Meeting a new file along an edge, or the entry itself. */
  lemma MeetFile(files: Bundle, entry: FileName, p: Progress, e: Edge)
    requires Met(files, entry, p) && HasEdge(files, e) && e.file in p.roots
    requires e.target !in p.roots && e.target in files && entry in p.roots
    ensures Met(files, entry, Progress(p.roots + {e.target}, p.active + {e.target}, p.loaded, p.edges + [e]))
  {
    hide HasEdge, Reachable;
    ReachableByEdge(files, entry, e);
    var q := Progress(p.roots + {e.target}, p.active + {e.target}, p.loaded, p.edges + [e]);
    MeetSources(files, entry, p, e);
    forall i | 0 <= i < |q.edges|
      ensures HasEdge(files, q.edges[i]) && q.edges[i].file in q.roots && q.edges[i].target in q.roots
              && q.edges[i].target != entry
    {
      assert i < |p.edges| ==> q.edges[i] == p.edges[i];
    }
    forall i, j | 0 <= i < j < |q.edges|
      ensures q.edges[i].target != q.edges[j].target
    {
      assert q.edges[i] == p.edges[i];
    }
  }

  lemma MeetSources(files: Bundle, entry: FileName, p: Progress, e: Edge)
    requires Met(files, entry, p) && e.target !in p.roots
    ensures forall f <- p.roots + {e.target} ::
              f == entry || exists i | 0 <= i < |p.edges + [e]| :: (p.edges + [e])[i].target == f
  {
    hide HasEdge, Reachable;
    var edges := p.edges + [e];
    forall f <- p.roots + {e.target}
      ensures f == entry || exists i | 0 <= i < |edges| :: edges[i].target == f
    {
      if f == e.target {
        assert edges[|p.edges|].target == f;
      } else if f != entry {
        var i :| 0 <= i < |p.edges| && p.edges[i].target == f;
        assert edges[i].target == f;
      }
    }
  }

  lemma MeetEntry(files: Bundle, entry: FileName)
    requires entry in files
    ensures Met(files, entry, Progress({entry}, {entry}, [], []))
  {
    EntryReachable(files, entry);
  }

  /** A file whose includes have all been loaded is listed last. */
  lemma ListFile(files: Bundle, p: Progress, f: FileName)
    requires Listed(files, p) && f in p.active && f in p.roots && Good(files, f)
    requires forall e: Edge | HasEdge(files, e) && e.file == f :: e in p.edges && e.target in p.loaded
    ensures Listed(files, Progress(p.roots, p.active - {f}, p.loaded + [f], p.edges))
  {
    var loaded := p.loaded + [f];
    assert Elements(loaded) == Elements(p.loaded) + {f};
    assert f !in p.loaded by {
      assert f !in Elements(p.loaded);
    }
    forall i, e: Edge | 0 <= i < |loaded| && HasEdge(files, e) && e.file == loaded[i]
      ensures e in p.edges && e.target in loaded[..i]
    {
      assert loaded[..i] == if i < |p.loaded| then p.loaded[..i] else p.loaded;
    }
  }

  /** The walk met every reachable file and nothing else, once each, includes first. */
  ghost predicate Complete(files: Bundle, entry: FileName, loaded: seq<FileName>, edges: seq<Edge>) {
    && (forall f :: f in loaded <==> Reachable(files, entry, f))
    && Distinct(loaded) && loaded != [] && loaded[|loaded| - 1] == entry
    && (forall i, e: Edge | 0 <= i < |loaded| && HasEdge(files, e) && e.file == loaded[i]
          :: e in edges && e.target in loaded[..i])
    && (forall e <- edges :: HasEdge(files, e))
    && |edges| == |loaded| - 1
  }

  /** What is listed when the walk is over is closed under includes and holds only good documents. */
  lemma ListedClosed(files: Bundle, p: Progress, e: Edge)
    requires Listed(files, p) && p.active == {} && HasEdge(files, e) && e.file in p.roots
    ensures e in p.edges && e.target in p.roots && Good(files, e.file)
  {
    hide HasEdge, Good, Distinct;
    assert e.file in Elements(p.loaded);
    var i :| 0 <= i < |p.loaded| && p.loaded[i] == e.file;
    assert e.target in p.loaded[..i];
    assert e.target in Elements(p.loaded);
  }

  lemma ListedGood(files: Bundle, p: Progress, f: FileName)
    requires Listed(files, p) && p.active == {} && f in p.roots
    ensures Good(files, f)
  {
    hide HasEdge, Good, Distinct;
    assert f in Elements(p.loaded);
    var i :| 0 <= i < |p.loaded| && p.loaded[i] == f;
  }

  /** The files met are exactly the reachable ones. */
  lemma MetIsReachable(files: Bundle, entry: FileName, p: Progress, f: FileName)
    requires Met(files, entry, p) && Listed(files, p) && p.active == {} && entry in p.roots
    ensures f in p.roots <==> Reachable(files, entry, f)
  {
    hide HasEdge, Good, Listed;
    MetFacts(files, entry, p);
    if Reachable(files, entry, f) {
      var edges :| Chain(files, entry, edges, f);
      forall e: Edge | HasEdge(files, e) && e.file in p.roots
        ensures e.target in p.roots
      {
        ListedClosed(files, p, e);
      }
      ClosedHoldsReachable(files, entry, p.roots, edges, f);
    }
  }

  /** Recorded edges name distinct files, none of them the entry. */
  lemma RecordedApart(files: Bundle, entry: FileName, p: Progress, e: Edge, e': Edge)
    requires Met(files, entry, p) && e in p.edges && e' in p.edges
    ensures e.target != entry && (e.target == e'.target ==> e == e')
  {
    hide HasEdge, Reachable;
  }

  lemma WalkedTree(files: Bundle, entry: FileName, p: Progress)
    requires Met(files, entry, p) && Listed(files, p) && p.active == {} && entry in p.roots
    ensures TreeShaped(files, entry)
  {
    hide HasEdge, Good, Listed, Met, Reachable;
    forall f | Reachable(files, entry, f)
      ensures Good(files, f)
    {
      MetIsReachable(files, entry, p, f);
      ListedGood(files, p, f);
    }
    forall e: Edge | HasEdge(files, e) && Reachable(files, entry, e.file)
      ensures e in p.edges && e.target != entry
    {
      MetIsReachable(files, entry, p, e.file);
      ListedClosed(files, p, e);
      RecordedApart(files, entry, p, e, e);
    }
    forall e: Edge, e': Edge | HasEdge(files, e) && HasEdge(files, e')
          && Reachable(files, entry, e.file) && Reachable(files, entry, e'.file) && e.target == e'.target
      ensures e == e'
    {
      RecordedApart(files, entry, p, e, e');
    }
  }

  /** Distinct targets that are all files but the entry: one edge fewer than files. */
  lemma CountEdges(entry: FileName, p: Progress)
    requires Distinct(p.loaded) && Elements(p.loaded) == p.roots && entry in p.roots
    requires forall i | 0 <= i < |p.edges| :: p.edges[i].target in p.roots && p.edges[i].target != entry
    requires forall i, j | 0 <= i < j < |p.edges| :: p.edges[i].target != p.edges[j].target
    requires forall f <- p.roots :: f == entry || exists i | 0 <= i < |p.edges| :: p.edges[i].target == f
    ensures |p.edges| == |p.loaded| - 1
  {
    var targets := seq(|p.edges|, i requires 0 <= i < |p.edges| => p.edges[i].target);
    assert Distinct(targets);
    assert Elements(targets) == p.roots - {entry} by {
      forall f <- p.roots - {entry}
        ensures f in targets
      {
        var i :| 0 <= i < |p.edges| && p.edges[i].target == f;
        assert targets[i] == f;
      }
    }
    CountDistinct(targets);
    CountDistinct(p.loaded);
  }

  lemma {:induction false} CountDistinct(s: seq<FileName>)
    requires Distinct(s)
    ensures |Elements(s)| == |s|
  {
    if s != [] {
      var before, last := s[..|s| - 1], s[|s| - 1];
      CountDistinct(before);
      assert before + [last] == s;
      assert last !in before;
      assert Elements(s) == Elements(before) + {last};
    }
  }

  lemma {:induction false} SubsetSize(a: set<FileName>, b: set<FileName>)
    requires a <= b
    ensures |a| <= |b|
  {
    if a != {} {
      var x :| x in a;
      SubsetSize(a - {x}, b - {x});
    }
  }

  // ---------------------------------------------------------------- the order of the walk

  /** A list of names and of edges that a walk adds. */
  datatype Trail = Trail(listed: seq<FileName>, edges: seq<Edge>) {
    function Plus(more: Trail): Trail {
      Trail(listed + more.listed, edges + more.edges)
    }

    function Take(i: nat, j: nat): Trail
      requires i <= |listed| && j <= |edges|
    {
      Trail(listed[..i], edges[..j])
    }

    function Drop(i: nat, j: nat): Trail
      requires i <= |listed| && j <= |edges|
    {
      Trail(listed[i..], edges[j..])
    }
  }

  /**
    * Depth-first post-order from one file: the trails of its includes one after another, each behind the edge
    * that leads there, and the file itself last.
    */
  ghost predicate PostOrder(files: Bundle, f: FileName, trail: Trail)
    decreases |trail.listed|, 0, 0
  {
    && f in files && files[f].Readable? && trail.listed != [] && trail.listed[|trail.listed| - 1] == f
    && PostOrders(files, f, |files[f].includes|, Trail(trail.listed[..|trail.listed| - 1], trail.edges))
  }

  /** The trails of the first `n` includes of a file. */
  ghost predicate PostOrders(files: Bundle, f: FileName, n: nat, trail: Trail)
    requires f in files && files[f].Readable? && n <= |files[f].includes|
    decreases |trail.listed|, 1, n
  {
    if n == 0 then trail == Trail([], [])
    else
      && files[f].includes[n - 1].Target?
      && exists i: nat, j: nat | i <= |trail.listed| && j < |trail.edges| ::
           && PostOrders(files, f, n - 1, trail.Take(i, j))
           && trail.edges[j] == Edge(f, n - 1, files[f].includes[n - 1].file)
           && PostOrder(files, files[f].includes[n - 1].file, trail.Drop(i, j + 1))
  }

  lemma PostOrdersNext(files: Bundle, f: FileName, n: nat, before: Trail, below: Trail)
    requires f in files && files[f].Readable? && n < |files[f].includes| && files[f].includes[n].Target?
    requires PostOrders(files, f, n, before) && PostOrder(files, files[f].includes[n].file, below)
    ensures PostOrders(files, f, n + 1,
                       before.Plus(Trail([], [Edge(f, n, files[f].includes[n].file)])).Plus(below))
  {
    hide PostOrder;
    var edge := Edge(f, n, files[f].includes[n].file);
    var trail := before.Plus(Trail([], [edge])).Plus(below);
    JoinedParts(before, edge, below);
    assert PostOrders(files, f, n, trail.Take(|before.listed|, |before.edges|));
  }

  lemma JoinedParts(before: Trail, edge: Edge, below: Trail)
    ensures var trail, i, j := before.Plus(Trail([], [edge])).Plus(below), |before.listed|, |before.edges|;
            && i <= |trail.listed| && j < |trail.edges| && trail.edges[j] == edge
            && trail.Take(i, j) == before && trail.Drop(i, j + 1) == below
  {
  }

  lemma PartsJoin(trail: Trail, i: nat, j: nat)
    requires i <= |trail.listed| && j < |trail.edges|
    ensures trail == trail.Take(i, j).Plus(Trail([], [trail.edges[j]])).Plus(trail.Drop(i, j + 1))
  {
  }

  lemma PostOrdersSplit(files: Bundle, f: FileName, n: nat, trail: Trail) returns (before: Trail, below: Trail)
    requires f in files && files[f].Readable? && 0 < n <= |files[f].includes| && PostOrders(files, f, n, trail)
    ensures files[f].includes[n - 1].Target? && |before.listed| + |below.listed| == |trail.listed|
    ensures PostOrders(files, f, n - 1, before) && PostOrder(files, files[f].includes[n - 1].file, below)
    ensures trail == before.Plus(Trail([], [Edge(f, n - 1, files[f].includes[n - 1].file)])).Plus(below)
  {
    hide PostOrder;
    var i: nat, j: nat :| i <= |trail.listed| && j < |trail.edges|
      && PostOrders(files, f, n - 1, trail.Take(i, j))
      && trail.edges[j] == Edge(f, n - 1, files[f].includes[n - 1].file)
      && PostOrder(files, files[f].includes[n - 1].file, trail.Drop(i, j + 1));
    before, below := trail.Take(i, j), trail.Drop(i, j + 1);
    PartsJoin(trail, i, j);
  }

  lemma PostOrderEnds(files: Bundle, f: FileName, below: Trail)
    requires f in files && files[f].Readable? && PostOrders(files, f, |files[f].includes|, below)
    ensures PostOrder(files, f, Trail(below.listed + [f], below.edges))
  {
    hide PostOrders;
    assert (below.listed + [f])[..|below.listed|] == below.listed;
  }

  /** There is only one post-order trail from a file, so the order of files and of edges is fixed. */
  lemma {:induction false} PostOrderOnce(files: Bundle, f: FileName, a: Trail, b: Trail)
    requires PostOrder(files, f, a) && PostOrder(files, f, b)
    ensures a == b
    decreases |a.listed|, 0, 0
  {
    var a', b' := a.listed[..|a.listed| - 1], b.listed[..|b.listed| - 1];
    PostOrdersOnce(files, f, |files[f].includes|, Trail(a', a.edges), Trail(b', b.edges));
    assert a.listed == a' + [f] && b.listed == b' + [f];
  }

  lemma {:induction false} PostOrdersOnce(files: Bundle, f: FileName, n: nat, a: Trail, b: Trail)
    requires f in files && files[f].Readable? && n <= |files[f].includes|
    requires PostOrders(files, f, n, a) && PostOrders(files, f, n, b)
    ensures a == b
    decreases |a.listed|, 1, n
  {
    hide PostOrder;
    if n > 0 {
      hide PostOrders;
      var a0, a1 := PostOrdersSplit(files, f, n, a);
      var b0, b1 := PostOrdersSplit(files, f, n, b);
      PostOrdersOnce(files, f, n - 1, a0, b0);
      PostOrderOnce(files, files[f].includes[n - 1].file, a1, b1);
    }
  }

  /** What a walk added since `start`. */
  function Since(start: Progress, now: Progress): Trail
    requires start.loaded <= now.loaded && start.edges <= now.edges
  {
    Trail(now.loaded[|start.loaded|..], now.edges[|start.edges|..])
  }

  lemma SinceAlong(start: Progress, now: Progress, e: Edge, after: Progress)
    requires Extends(now, start) && Extends(after, now.(edges := now.edges + [e]))
    ensures start.loaded <= after.loaded && start.edges <= after.edges
    ensures Since(start, after)
         == Since(start, now).Plus(Trail([], [e])).Plus(Since(now.(edges := now.edges + [e]), after))
  {
  }

  /** Since `start` the walk has followed the first `n` includes of `f`. */
  ghost predicate Followed(files: Bundle, f: FileName, n: nat, start: Progress, now: Progress) {
    && start.loaded <= now.loaded && start.edges <= now.edges
    && f in files && files[f].Readable? && n <= |files[f].includes|
    && PostOrders(files, f, n, Since(start, now))
  }

  /** Since `start` the walk has loaded `f` and everything below it. */
  ghost predicate Loaded(files: Bundle, f: FileName, start: Progress, now: Progress) {
    && start.loaded <= now.loaded && start.edges <= now.edges && PostOrder(files, f, Since(start, now))
  }

  lemma FollowedNone(files: Bundle, f: FileName, start: Progress, now: Progress)
    requires f in files && files[f].Readable? && start.loaded == now.loaded && start.edges == now.edges
    ensures Followed(files, f, 0, start, now)
  {
    assert Since(start, now) == Trail([], []);
  }

  lemma FollowedNext(files: Bundle, f: FileName, n: nat, start: Progress, now: Progress, after: Progress)
    requires Followed(files, f, n, start, now) && n < |files[f].includes| && files[f].includes[n].Target?
    requires Extends(now, start)
    requires var recorded := now.(edges := now.edges + [Edge(f, n, files[f].includes[n].file)]);
             Extends(after, recorded) && Loaded(files, files[f].includes[n].file, recorded, after)
    ensures Followed(files, f, n + 1, start, after)
  {
    hide PostOrder, PostOrders;
    var edge := Edge(f, n, files[f].includes[n].file);
    SinceAlong(start, now, edge, after);
    PostOrdersNext(files, f, n, Since(start, now), Since(now.(edges := now.edges + [edge]), after));
  }

  lemma FollowedAll(files: Bundle, f: FileName, start: Progress, now: Progress)
    requires f in files && files[f].Readable? && Followed(files, f, |files[f].includes|, start, now)
    requires Extends(now, start)
    ensures Loaded(files, f, start, Progress(now.roots, now.active - {f}, now.loaded + [f], now.edges))
  {
    hide PostOrder, PostOrders;
    var left := Progress(now.roots, now.active - {f}, now.loaded + [f], now.edges);
    assert Since(start, left) == Trail(Since(start, now).listed + [f], Since(start, now).edges);
    PostOrderEnds(files, f, Since(start, now));
  }

  class Loader {
    const files: Bundle
    const entry: FileName
    var roots: set<FileName>
    var active: set<FileName>
    var loaded: seq<FileName>
    var edges: seq<Edge>

    ghost function Now(): Progress
      reads this
    {
      Progress(roots, active, loaded, edges)
    }

    constructor (files: Bundle, entry: FileName)
      ensures this.files == files && this.entry == entry && Now() == Progress({}, {}, [], [])
    {
      this.files, this.entry := files, entry;
      roots, active, loaded, edges := {}, {}, [], [];
    }

    /**
      * Load one file: the entry, or the target of the edge just recorded. A refusal means that the include
      * graph is not a tree of good documents; the depth bound is never the reason.
      */
    method Load(file: FileName, depth: nat, ghost before: Progress, ghost via: Option<Edge>)
      returns (ok: bool, error: LoadError)
      requires |files| <= MAX_FILES && depth == |active| + 1
      requires Met(files, entry, before) && Listed(files, before)
      requires Now() == before.(edges := before.edges + (if via.Some? then [via.value] else []))
      requires via.None? ==> file == entry && before == Progress({}, {}, [], []) && entry in files
      requires via.Some? ==> entry in roots && via.value.target == file && HasEdge(files, via.value)
                             && via.value.file in roots && via.value !in before.edges
      modifies this
      ensures !ok ==> !TreeShaped(files, entry)
      ensures ok ==> Met(files, entry, Now()) && Listed(files, Now()) && Extends(Now(), old(Now()))
                     && active == old(active) && loaded != [] && loaded[|loaded| - 1] == file
      ensures ok ==> Loaded(files, file, old(Now()), Now())
      decreases files.Keys - roots, 0
    {
      hide Met, Listed, TreeShaped, Good, Extends, Reachable, Followed, Loaded, HasEdge;
      error := IncludeCycle;
      ghost var start := Now();
      MetFacts(files, entry, before);
      if file in active || file in roots {
        MetTwice(files, entry, before, via.value);
        return false, if file in active then IncludeCycle else RepeatedInclusion;
      }
      SubsetSize(active, files.Keys);
      if file !in files || depth > MAX_DEPTH {
        NoDocument(files, entry, before, via.value);
        return false, MissingOrTooDeep;
      }
      if via.Some? {
        MeetFile(files, entry, before, via.value);
      } else {
        MeetEntry(files, entry);
      }
      ListedStays(files, before, file, edges);
      roots, active := roots + {file}, active + {file};
      MetFacts(files, entry, Now());
      if files[file].Unreadable? {
        Ungood(files, file);
        NotGood(files, entry, file);
        return false, UnreadableDocument;
      }
      ExtendsSelf(start, Now());
      FollowedNone(files, file, start, Now());
      FewerLeft(files, start.roots, file, roots);
      ok, error := LoadIncludes(file, depth, start);
      if !ok {
        return;
      }
      MetFacts(files, entry, Now());
      ListFile(files, Now(), file);
      MetLeaves(files, entry, Now(), file);
      LeavingExtends(Now(), start, file);
      FollowedAll(files, file, start, Now());
      active := active - {file};
      loaded := loaded + [file];
      assert active == start.active;
      ok := true;
    }

    /** Follow the includes of a file just met, in document order. */
    method LoadIncludes(file: FileName, depth: nat, ghost start: Progress) returns (ok: bool, error: LoadError)
      requires |files| <= MAX_FILES && depth == |active| && file in files && files[file].Readable?
      requires Met(files, entry, Now()) && Listed(files, Now()) && Extends(Now(), start)
      requires Followed(files, file, 0, start, Now())
      requires file in roots && file in active && entry in roots && file !in start.roots
      requires forall e <- edges :: e.file != file
      modifies this
      ensures !ok ==> !TreeShaped(files, entry)
      ensures ok ==> Met(files, entry, Now()) && Listed(files, Now()) && Extends(Now(), start) && old(roots) <= roots
      ensures ok ==> active == old(active) && Good(files, file)
                     && Followed(files, file, |files[file].includes|, start, Now())
      ensures ok ==> forall e: Edge | HasEdge(files, e) && e.file == file :: e in edges && e.target in loaded
      decreases files.Keys - roots, 1
    {
      hide Met, Listed, TreeShaped, Good, Extends, Reachable, Followed, Loaded, HasEdge;
      error := IncludeCycle;
      ghost var met := roots;
      var includes := files[file].includes;
      var k := 0;
      while k < |includes|
        invariant 0 <= k <= |includes| && met <= roots && active == old(active)
        invariant Met(files, entry, Now()) && Listed(files, Now()) && Extends(Now(), start)
        invariant Followed(files, file, k, start, Now())
        invariant forall j | 0 <= j < k :: includes[j].Target? && includes[j].file in loaded
        invariant forall j | 0 <= j < k :: Edge(file, j, includes[j].file) in edges
        invariant forall e <- edges | e.file == file :: e.index < k
      {
        if includes[k].Malformed? {
          MetFacts(files, entry, Now());
          Ungood(files, file);
          NotGood(files, entry, file);
          return false, BadInclude;
        }
        ghost var now := Now();
        var edge := Edge(file, k, includes[k].file);
        NextEdge(files, file, k, now);
        edges := edges + [edge];
        ok, error := Load(includes[k].file, depth + 1, now, Some(edge));
        if !ok {
          return;
        }
        FollowedNext(files, file, k, start, now, Now());
        ExtendsAlong(Now(), now, edge, start);
        ExtendsKeeps(Now(), now.(edges := now.edges + [edge]));
        k := k + 1;
      }
      AllGood(files, file);
      AllFollowed(files, file, Now());
      ok := true;
    }

    lemma AllFollowed(files: Bundle, file: FileName, now: Progress)
      requires file in files && files[file].Readable?
      requires forall j | 0 <= j < |files[file].includes| :: files[file].includes[j].Target?
                 && files[file].includes[j].file in now.loaded
                 && Edge(file, j, files[file].includes[j].file) in now.edges
      ensures forall e: Edge | HasEdge(files, e) && e.file == file :: e in now.edges && e.target in now.loaded
    {
    }

    lemma NextEdge(files: Bundle, file: FileName, k: nat, now: Progress)
      requires file in files && files[file].Readable? && k < |files[file].includes|
      requires files[file].includes[k].Target? && file in now.roots
      requires forall e <- now.edges | e.file == file :: e.index < k
      ensures HasEdge(files, Edge(file, k, files[file].includes[k].file))
      ensures Edge(file, k, files[file].includes[k].file) !in now.edges
    {
    }

    /** Loading a new file leaves fewer files to meet. */
    lemma FewerLeft(files: Bundle, start: set<FileName>, file: FileName, roots: set<FileName>)
      requires file in files && file !in start && start + {file} <= roots
      ensures files.Keys - roots < files.Keys - start
    {
      assert file in files.Keys - start && file !in files.Keys - roots;
    }

    lemma ExtendsSelf(start: Progress, now: Progress)
      requires start.roots <= now.roots && start.loaded == now.loaded && start.edges == now.edges
      ensures Extends(now, start)
    {
    }

    lemma ExtendsKeeps(q: Progress, p: Progress)
      requires Extends(q, p)
      ensures p.roots <= q.roots && (forall f <- p.loaded :: f in q.loaded) && (forall e <- p.edges :: e in q.edges)
    {
    }

    lemma LeavingExtends(q: Progress, p: Progress, f: FileName)
      requires Extends(q, p)
      ensures Extends(Progress(q.roots, q.active - {f}, q.loaded + [f], q.edges), p)
    {
    }
  }

  /**
    * A bundle's includes resolve exactly when they form a tree of good documents below the entry. The loaded
    * files are then the reachable ones, each listed once, in the depth-first post-order of the includes, with the
    * edges in the order they were followed; there is one include edge fewer than files.
    */
  method Resolve(files: Bundle, entry: FileName) returns (ok: bool, loaded: seq<FileName>, edges: seq<Edge>)
    ensures ok <==> 1 <= |files| <= MAX_FILES && entry in files && TreeShaped(files, entry)
    ensures ok ==> Complete(files, entry, loaded, edges) && PostOrder(files, entry, Trail(loaded, edges))
  {
    var loader := new Loader(files, entry);
    hide Met, Listed, TreeShaped, Complete, Extends, Good, PostOrder;
    if !(1 <= |files| <= MAX_FILES) || entry !in files {
      return false, [], [];
    }
    EmptyListed(files, entry);
    var error;
    ok, error := loader.Load(entry, 1, loader.Now(), None);
    loaded, edges := loader.loaded, loader.edges;
    if ok {
      assert Since(Progress({}, {}, [], []), loader.Now()) == Trail(loaded, edges);
      ListedLast(files, loader.Now(), entry);
      WalkedTree(files, entry, loader.Now());
      CompleteNow(files, entry, loader.Now());
    }
  }

  lemma EmptyListed(files: Bundle, entry: FileName)
    ensures Met(files, entry, Progress({}, {}, [], [])) && Listed(files, Progress({}, {}, [], []))
  {
  }

  lemma ListedLast(files: Bundle, p: Progress, f: FileName)
    requires Listed(files, p) && p.active == {} && f in p.loaded
    ensures f in p.roots
  {
    hide HasEdge, Good;
    assert f in Elements(p.loaded);
  }

  lemma MetCount(files: Bundle, entry: FileName, p: Progress)
    requires Met(files, entry, p) && Listed(files, p) && p.active == {} && entry in p.roots
    ensures |p.edges| == |p.loaded| - 1 && forall e <- p.edges :: HasEdge(files, e)
  {
    hide HasEdge, Good, Reachable;
    assert Elements(p.loaded) == p.roots;
    CountEdges(entry, p);
  }

  lemma CompleteNow(files: Bundle, entry: FileName, p: Progress)
    requires Met(files, entry, p) && Listed(files, p) && p.active == {} && entry in p.roots
    requires p.loaded != [] && p.loaded[|p.loaded| - 1] == entry
    ensures Complete(files, entry, p.loaded, p.edges)
  {
    hide HasEdge, Good, Reachable, Met;
    MetCount(files, entry, p);
    forall f
      ensures f in p.loaded <==> Reachable(files, entry, f)
    {
      MetIsReachable(files, entry, p, f);
      assert f in p.loaded <==> f in Elements(p.loaded);
    }
  }
}
