/** The TreeNodesModel section, the only place where a document declares the direction of a port. */
module BtModels {
  import opened Common
  import opened BtNodes
  import opened BtTree

  /** One declared port and one declared node model, each with the number of its own element. */
  datatype Port = Port(uid: nat, name: string, direction: Direction)

  datatype Entry = Entry(uid: nat, id: string, category: ModelCategory, ports: seq<Port>)

  predicate IsSection(e: Element) {
    e.tag == "TreeNodesModel"
  }

  function CategoryOf(tag: string): Option<ModelCategory> {
    match tag
    case "Action" => Some(ACTION)
    case "Condition" => Some(CONDITION)
    case "Control" => Some(CONTROL)
    case "Decorator" => Some(DECORATOR)
    case _ => None
  }

  function DirectionOf(tag: string): Option<Direction> {
    match tag
    case "input_port" => Some(INPUT)
    case "output_port" => Some(OUTPUT)
    case "inout_port" => Some(INOUT)
    case _ => None
  }

  // ---------------------------------------------------------------- what a section may hold

  /** No two of them carry the same value of the attribute. */
  ghost predicate Apart(es: seq<Element>, attribute: string) {
    forall i, j | 0 <= i < j < |es| :: Text(es[i], attribute) != Text(es[j], attribute)
  }

  predicate PortAllowed(e: Element) {
    DirectionOf(e.tag).Some? && Text(e, "name") != ""
  }

  ghost predicate PortsAllowed(es: seq<Element>) {
    && (forall i | 0 <= i < |es| :: PortAllowed(es[i])) && Apart(es, "name")
  }

  ghost predicate EntryAllowed(e: Element) {
    CategoryOf(e.tag).Some? && Text(e, "ID") != "" && PortsAllowed(e.children)
  }

  ghost predicate EntriesAllowed(es: seq<Element>) {
    && (forall i | 0 <= i < |es| :: EntryAllowed(es[i])) && Apart(es, "ID")
  }

  /** At most one section; every model and port in it has a known kind and a name of its own. */
  ghost predicate Modelled(roots: seq<Element>) {
    && (forall i, j | 0 <= i < |roots| && 0 <= j < |roots| && IsSection(roots[i]) && IsSection(roots[j]) :: i == j)
    && (forall i | 0 <= i < |roots| && IsSection(roots[i]) :: EntriesAllowed(roots[i].children))
  }

  // ---------------------------------------------------------------- what it declares

  /** How many elements the first `k` of them hold. */
  function Before(es: seq<Element>, k: nat): nat
    requires k <= |es|
  {
    if k == 0 then 0 else Before(es, k - 1) + Size(es[k - 1])
  }

  function PortOf(e: Element, uid: nat): Port
    requires PortAllowed(e)
  {
    Port(uid, Text(e, "name"), DirectionOf(e.tag).value)
  }

  function PortsFrom(es: seq<Element>, uid: nat): seq<Port>
    requires PortsAllowed(es)
  {
    seq(|es|, k requires 0 <= k < |es| => PortOf(es[k], uid + Before(es, k)))
  }

  function EntryOf(e: Element, uid: nat): Entry
    requires EntryAllowed(e)
  {
    Entry(uid, Text(e, "ID"), CategoryOf(e.tag).value, PortsFrom(e.children, uid + 1))
  }

  function EntriesFrom(es: seq<Element>, uid: nat): seq<Entry>
    requires EntriesAllowed(es)
  {
    seq(|es|, k requires 0 <= k < |es| => EntryOf(es[k], uid + Before(es, k)))
  }

  /** The place of the first section, or the end. */
  function SectionAt(roots: seq<Element>): (k: nat)
    ensures k <= |roots| && (k < |roots| ==> IsSection(roots[k]))
    ensures forall i | 0 <= i < k :: !IsSection(roots[i])
  {
    if roots == [] || IsSection(roots[0]) then 0 else 1 + SectionAt(roots[1..])
  }

  /** The models of a document whose root element is number zero. */
  function EntriesOf(roots: seq<Element>): seq<Entry>
    requires Modelled(roots)
  {
    var k := SectionAt(roots);
    if k == |roots| then [] else EntriesFrom(roots[k].children, 1 + Before(roots, k) + 1)
  }

  function Directions(ports: seq<Port>): map<string, Direction> {
    if ports == [] then map[]
    else
      var last := ports[|ports| - 1];
      Directions(ports[..|ports| - 1])[last.name := last.direction]
  }

  function ModelsOf(entries: seq<Entry>): Models {
    if entries == [] then map[]
    else
      var last := entries[|entries| - 1];
      ModelsOf(entries[..|entries| - 1])[last.id := Model(last.category, Directions(last.ports))]
  }

  function PortRow(entry: Entry, port: Port): Row {
    ModelPortRow(port.uid, entry.uid, entry.id, entry.category, port.name, port.direction)
  }

  function RowsOfEntry(entry: Entry): seq<Row> {
    seq(|entry.ports|, k requires 0 <= k < |entry.ports| => PortRow(entry, entry.ports[k]))
  }

  function PortRows(entries: seq<Entry>): seq<Row> {
    if entries == [] then []
    else PortRows(entries[..|entries| - 1]) + RowsOfEntry(entries[|entries| - 1])
  }

  // ---------------------------------------------------------------- reading the section

  lemma ApartStep(es: seq<Element>, k: nat, attribute: string)
    requires k < |es|
    ensures Apart(es[..k + 1], attribute)
       <==> Apart(es[..k], attribute) && forall i | 0 <= i < k :: Text(es[i], attribute) != Text(es[k], attribute)
    ensures Apart(es, attribute) ==> Apart(es[..k + 1], attribute)
  {
    hide Text;
    var longer := es[..k + 1];
    if Apart(longer, attribute) {
      assert forall i | 0 <= i < k :: Text(longer[i], attribute) != Text(longer[k], attribute);
    }
  }

  lemma {:induction false} DirectionsKeys(ports: seq<Port>)
    ensures Directions(ports).Keys == set p <- ports :: p.name
  {
    if ports != [] {
      var before, last := ports[..|ports| - 1], ports[|ports| - 1];
      DirectionsKeys(before);
      assert ports == before + [last];
    }
  }

  lemma {:induction false} ModelsKeys(entries: seq<Entry>)
    ensures ModelsOf(entries).Keys == set e <- entries :: e.id
  {
    hide Directions;
    if entries != [] {
      var before, last := entries[..|entries| - 1], entries[|entries| - 1];
      ModelsKeys(before);
      assert entries == before + [last];
    }
  }

  /** The first `k` ports are sound and these are what they declare. */
  ghost predicate PortsRead(es: seq<Element>, uid: nat, k: nat, ports: seq<Port>)
    requires k <= |es|
  {
    && |ports| == k && Apart(es[..k], "name")
    && forall i: nat | i < k :: PortAllowed(es[i]) && ports[i] == PortOf(es[i], uid + Before(es, i))
  }

  /** The next port is taken exactly when it is sound and its name new; otherwise the section is refused. */
  lemma PortStep(es: seq<Element>, uid: nat, k: nat, ports: seq<Port>)
    requires k < |es| && PortsRead(es, uid, k, ports)
    ensures if PortAllowed(es[k]) && Text(es[k], "name") !in Directions(ports)
            then PortsRead(es, uid, k + 1, ports + [PortOf(es[k], uid + Before(es, k))])
            else !PortsAllowed(es)
  {
    hide PortAllowed, Text, Directions, Apart, Before;
    DirectionsKeys(ports);
    ApartStep(es, k, "name");
    var name := Text(es[k], "name");
    if i: nat :| i < k && Text(es[i], "name") == name {
      assert PortAllowed(es[i]) && ports[i] in ports;
      PortNamed(es[i], uid + Before(es, i));
    }
    if name in Directions(ports) {
      var port :| port in ports && port.name == name;
      var i: nat :| i < k && ports[i] == port;
      PortNamed(es[i], uid + Before(es, i));
    }
  }

  lemma PortNamed(e: Element, uid: nat)
    requires PortAllowed(e)
    ensures PortOf(e, uid).name == Text(e, "name")
  {
  }

  lemma PortsDone(es: seq<Element>, uid: nat, ports: seq<Port>)
    requires PortsRead(es, uid, |es|, ports)
    ensures PortsAllowed(es) && ports == PortsFrom(es, uid)
  {
    hide PortAllowed, PortOf, Apart, Before;
    assert es[..|es|] == es;
  }

  lemma DirectionsSnoc(ports: seq<Port>, port: Port)
    ensures Directions(ports + [port]) == Directions(ports)[port.name := port.direction]
  {
    assert (ports + [port])[..|ports|] == ports;
  }

  method ReadPorts(es: seq<Element>, uid: nat) returns (ok: bool, ports: seq<Port>, directions: map<string, Direction>)
    ensures ok <==> PortsAllowed(es)
    ensures ok ==> ports == PortsFrom(es, uid) && directions == Directions(ports)
  {
    hide DirectionOf, Text, PortsRead, Directions, PortsAllowed, Size;
    ports, directions := [], map[];
    var k, next: nat := 0, uid;
    NoPorts(es, uid);
    while k < |es|
      invariant k <= |es| && next == uid + Before(es, k)
      invariant PortsRead(es, uid, k, ports) && directions == Directions(ports)
    {
      var name, direction := Text(es[k], "name"), DirectionOf(es[k].tag);
      PortStep(es, uid, k, ports);
      if direction.None? || name == "" || name in directions {
        return false, ports, directions;
      }
      var port := Port(next, name, direction.value);
      DirectionsSnoc(ports, port);
      ports := ports + [port];
      directions := directions[name := direction.value];
      next := next + Size(es[k]);
      k := k + 1;
    }
    PortsDone(es, uid, ports);
    ok := true;
  }

  lemma NoPorts(es: seq<Element>, uid: nat)
    ensures PortsRead(es, uid, 0, []) && Directions([]) == map[] && Before(es, 0) == 0
  {
  }

  /** The first `k` models are sound and these are what they declare. */
  ghost predicate EntriesRead(es: seq<Element>, uid: nat, k: nat, entries: seq<Entry>)
    requires k <= |es|
  {
    && |entries| == k && Apart(es[..k], "ID")
    && forall i: nat | i < k :: EntryAllowed(es[i]) && entries[i] == EntryOf(es[i], uid + Before(es, i))
  }

  lemma EntryStep(es: seq<Element>, uid: nat, k: nat, entries: seq<Entry>)
    requires k < |es| && EntriesRead(es, uid, k, entries)
    ensures if EntryAllowed(es[k]) && Text(es[k], "ID") !in ModelsOf(entries)
            then EntriesRead(es, uid, k + 1, entries + [EntryOf(es[k], uid + Before(es, k))])
            else !EntriesAllowed(es)
  {
    hide EntryAllowed, Text, ModelsOf, Apart, Before;
    ModelsKeys(entries);
    ApartStep(es, k, "ID");
    var id := Text(es[k], "ID");
    if i: nat :| i < k && Text(es[i], "ID") == id {
      assert EntryAllowed(es[i]) && entries[i] in entries;
      EntryNamed(es[i], uid + Before(es, i));
    }
    if id in ModelsOf(entries) {
      var entry :| entry in entries && entry.id == id;
      var i: nat :| i < k && entries[i] == entry;
      EntryNamed(es[i], uid + Before(es, i));
    }
  }

  lemma EntryNamed(e: Element, uid: nat)
    requires EntryAllowed(e)
    ensures EntryOf(e, uid).id == Text(e, "ID")
  {
  }

  lemma EntriesDone(es: seq<Element>, uid: nat, entries: seq<Entry>)
    requires EntriesRead(es, uid, |es|, entries)
    ensures EntriesAllowed(es) && entries == EntriesFrom(es, uid)
  {
    hide EntryAllowed, EntryOf, Apart, Before;
    assert es[..|es|] == es;
  }

  lemma ModelsSnoc(entries: seq<Entry>, entry: Entry)
    ensures ModelsOf(entries + [entry])
         == ModelsOf(entries)[entry.id := Model(entry.category, Directions(entry.ports))]
  {
    assert (entries + [entry])[..|entries|] == entries;
  }

  method ReadEntries(es: seq<Element>, uid: nat) returns (ok: bool, entries: seq<Entry>, models: Models)
    ensures ok <==> EntriesAllowed(es)
    ensures ok ==> entries == EntriesFrom(es, uid) && models == ModelsOf(entries)
  {
    hide CategoryOf, Text, PortsAllowed, PortsFrom, Directions, EntriesRead, ModelsOf, EntriesAllowed, Size;
    entries, models := [], map[];
    var k, next: nat := 0, uid;
    NoEntries(es, uid);
    while k < |es|
      invariant k <= |es| && next == uid + Before(es, k)
      invariant EntriesRead(es, uid, k, entries) && models == ModelsOf(entries)
    {
      var category, id := CategoryOf(es[k].tag), Text(es[k], "ID");
      EntryStep(es, uid, k, entries);
      if category.None? || id == "" || id in models {
        return false, entries, models;
      }
      var ports, directions;
      ok, ports, directions := ReadPorts(es[k].children, next + 1);
      if !ok {
        return;
      }
      var entry := Entry(next, id, category.value, ports);
      ModelsSnoc(entries, entry);
      entries := entries + [entry];
      models := models[id := Model(category.value, directions)];
      next := next + Size(es[k]);
      k := k + 1;
    }
    EntriesDone(es, uid, entries);
    ok := true;
  }

  lemma NoEntries(es: seq<Element>, uid: nat)
    ensures EntriesRead(es, uid, 0, []) && ModelsOf([]) == map[] && Before(es, 0) == 0
  {
  }

  /** Read the models of a document: refused exactly when a section is repeated or declares something unsound. */
  method ReadModels(roots: seq<Element>) returns (ok: bool, entries: seq<Entry>, models: Models)
    ensures ok <==> Modelled(roots)
    ensures ok ==> entries == EntriesOf(roots) && models == ModelsOf(entries)
  {
    hide EntriesAllowed, EntriesFrom;
    entries, models := [], map[];
    var first := SectionAt(roots);
    if first == |roots| {
      return true, entries, models;
    }
    if exists j | first < j < |roots| :: IsSection(roots[j]) {
      return false, entries, models;
    }
    var uid := NumberOf(roots, first);
    ok, entries, models := ReadEntries(roots[first].children, uid + 1);
  }

  /** The number of a root child: the elements before it, and the root itself. */
  method NumberOf(roots: seq<Element>, k: nat) returns (uid: nat)
    requires k <= |roots|
    ensures uid == 1 + Before(roots, k)
  {
    uid := 1;
    for i := 0 to k
      invariant uid == 1 + Before(roots, i)
    {
      uid := uid + Size(roots[i]);
    }
  }

  /** The port rows that follow the rows of the trees, as far as the row bound allows. */
  method EmitPorts(walker: Walker, entries: seq<Entry>) returns (ok: bool)
    requires |walker.rows| <= MAX_ROWS
    modifies walker`rows
    ensures ok <==> |old(walker.rows)| + |PortRows(entries)| <= MAX_ROWS
    ensures ok ==> walker.rows == old(walker.rows) + PortRows(entries)
  {
    ghost var given := walker.rows;
    var k := 0;
    while k < |entries|
      invariant 0 <= k <= |entries| && walker.rows == given + PortRows(entries[..k]) && |walker.rows| <= MAX_ROWS
    {
      PortRowsNext(entries, k);
      var entry := entries[k];
      var before := walker.rows;
      var i := 0;
      while i < |entry.ports|
        invariant 0 <= i <= |entry.ports|
        invariant walker.rows == before + RowsOfEntry(entry)[..i] && |walker.rows| <= MAX_ROWS
      {
        ok := walker.Append(PortRow(entry, entry.ports[i]));
        if !ok {
          return;
        }
        i := i + 1;
      }
      assert RowsOfEntry(entry)[..i] == RowsOfEntry(entry);
      k := k + 1;
    }
    assert entries[..k] == entries;
    ok := true;
  }

  lemma {:induction false} PortRowsNext(entries: seq<Entry>, k: nat)
    requires k < |entries|
    ensures PortRows(entries[..k + 1]) == PortRows(entries[..k]) + RowsOfEntry(entries[k])
    ensures |PortRows(entries[..k + 1])| <= |PortRows(entries)|
    decreases |entries|
  {
    assert entries[..k + 1][..k] == entries[..k];
    if k + 1 < |entries| {
      var shorter := entries[..|entries| - 1];
      PortRowsNext(shorter, k);
      assert shorter[..k + 1] == entries[..k + 1];
    } else {
      assert entries[..k + 1] == entries;
    }
  }

  // ---------------------------------------------------------------- the rows carry every declaration

  lemma {:induction false} PortRowsHold(entries: seq<Entry>, r: Row)
    ensures r in PortRows(entries)
       <==> exists e, p | 0 <= e < |entries| && 0 <= p < |entries[e].ports|
              :: r == PortRow(entries[e], entries[e].ports[p])
  {
    if entries != [] {
      var before, last := entries[..|entries| - 1], entries[|entries| - 1];
      PortRowsHold(before, r);
      if r in RowsOfEntry(last) {
        var p :| 0 <= p < |RowsOfEntry(last)| && RowsOfEntry(last)[p] == r;
        assert entries[|entries| - 1].ports[p] == last.ports[p];
      }
      if r in PortRows(before) {
        var e, p :| 0 <= e < |before| && 0 <= p < |before[e].ports| && r == PortRow(before[e], before[e].ports[p]);
        assert entries[e] == before[e];
      }
      if e, p :| 0 <= e < |entries| && 0 <= p < |entries[e].ports| && r == PortRow(entries[e], entries[e].ports[p]) {
        if e < |before| {
          assert entries[e] == before[e];
        } else {
          assert RowsOfEntry(last)[p] == r;
        }
      }
    }
  }

  /** No two models share an id, and no two ports of a model share a name. */
  ghost predicate Unambiguous(entries: seq<Entry>) {
    && (forall i, j | 0 <= i < j < |entries| :: entries[i].id != entries[j].id)
    && (forall i | 0 <= i < |entries| :: NamesApart(entries[i].ports))
  }

  ghost predicate NamesApart(ports: seq<Port>) {
    forall i, j | 0 <= i < j < |ports| :: ports[i].name != ports[j].name
  }

  lemma EntriesUnambiguous(roots: seq<Element>)
    requires Modelled(roots)
    ensures Unambiguous(EntriesOf(roots))
  {
    hide PortAllowed, CategoryOf, Before, Text;
  }

  /** The direction that a node's attribute is given is the one that a port row declares. */
  lemma DirectionsDeclared(roots: seq<Element>, id: string, name: string, direction: Direction)
    requires Modelled(roots)
    ensures var models := ModelsOf(EntriesOf(roots));
            (id in models && name in models[id].ports && models[id].ports[name] == direction)
            <==> exists r <- PortRows(EntriesOf(roots)) ::
                   r.ModelPortRow? && r.modelId == id && r.portName == name && r.portDirection == direction
  {
    hide Modelled, EntriesOf, PortRows, ModelsOf;
    EntriesUnambiguous(roots);
    DeclaredByRow(EntriesOf(roots), id, name, direction);
  }

  lemma {:induction false} DirectionAt(ports: seq<Port>, p: nat)
    requires NamesApart(ports) && p < |ports|
    ensures ports[p].name in Directions(ports) && Directions(ports)[ports[p].name] == ports[p].direction
  {
    if p < |ports| - 1 {
      var before := ports[..|ports| - 1];
      assert NamesApart(before) && ports[p].name != ports[|ports| - 1].name;
      DirectionAt(before, p);
    }
  }

  lemma {:induction false} ModelAt(entries: seq<Entry>, e: nat)
    requires Unambiguous(entries) && e < |entries|
    ensures entries[e].id in ModelsOf(entries)
    ensures ModelsOf(entries)[entries[e].id] == Model(entries[e].category, Directions(entries[e].ports))
  {
    hide Directions, NamesApart;
    if e < |entries| - 1 {
      var before := entries[..|entries| - 1];
      assert Unambiguous(before) && entries[e].id != entries[|entries| - 1].id;
      ModelAt(before, e);
    }
  }

  lemma DeclaredByRow(entries: seq<Entry>, id: string, name: string, direction: Direction)
    requires Unambiguous(entries)
    ensures var models := ModelsOf(entries);
            (id in models && name in models[id].ports && models[id].ports[name] == direction)
            <==> exists r <- PortRows(entries) ::
                   r.ModelPortRow? && r.modelId == id && r.portName == name && r.portDirection == direction
  {
    hide PortRows, ModelsOf, Directions, NamesApart;
    var models := ModelsOf(entries);
    ModelsKeys(entries);
    if id in models {
      var entry :| entry in entries && entry.id == id;
      var e :| 0 <= e < |entries| && entries[e] == entry;
      ModelAt(entries, e);
      DirectionsKeys(entry.ports);
      if name in models[id].ports {
        var port :| port in entry.ports && port.name == name;
        var p :| 0 <= p < |entry.ports| && entry.ports[p] == port;
        DirectionAt(entry.ports, p);
        PortRowsHold(entries, PortRow(entries[e], entries[e].ports[p]));
      }
    }
    forall r <- PortRows(entries) | r.ModelPortRow? && r.modelId == id && r.portName == name
      ensures id in models && name in models[id].ports && models[id].ports[name] == r.portDirection
    {
      PortRowsHold(entries, r);
      var e, p :| 0 <= e < |entries| && 0 <= p < |entries[e].ports| && r == PortRow(entries[e], entries[e].ports[p]);
      ModelAt(entries, e);
      DirectionAt(entries[e].ports, p);
    }
  }

  // ---------------------------------------------------------------- every row points at its element

  lemma {:induction false} ElementAt(es: seq<Element>, k: nat, i: nat)
    requires k < |es| && i < Size(es[k])
    ensures Before(es, k) + Size(es[k]) <= SizeAll(es)
    ensures NodesAll(es)[Before(es, k) + i] == Nodes(es[k])[i]
  {
    hide Nodes, Size;
    if k > 0 {
      BeforeRest(es, k);
      ElementAt(es[1..], k - 1, i);
    }
  }

  lemma {:induction false} BeforeRest(es: seq<Element>, k: nat)
    requires 0 < k <= |es|
    ensures Before(es, k) == Size(es[0]) + Before(es[1..], k - 1)
  {
    hide Size;
    if k > 1 {
      BeforeRest(es, k - 1);
    }
  }

  /** An element's child stands in the document after the element and the children before it. */
  lemma ElementBelow(es: seq<Element>, k: nat, c: nat)
    requires k < |es| && c < |es[k].children|
    ensures var at := Before(es, k) + 1 + Before(es[k].children, c);
            at < SizeAll(es) && NodesAll(es)[at] == es[k].children[c]
            && at + Size(es[k].children[c]) <= Before(es, k) + Size(es[k]) <= SizeAll(es)
  {
    hide NodesAll, SizeAll, Before;
    var parent, child := es[k], es[k].children[c];
    var inner := Before(parent.children, c);
    ElementAt(parent.children, c, 0);
    assert Size(parent) == 1 + SizeAll(parent.children);
    assert Nodes(parent)[1 + inner] == NodesAll(parent.children)[inner] == child;
    ElementAt(es, k, 1 + inner);
  }

  /** The row stands for this port of this model, and its two numbers lead back to their elements. */
  ghost predicate Declares(roots: seq<Element>, r: Row, model: Element, port: Element) {
    && r.ModelPortRow? && 1 <= r.modelUid < r.uid <= SizeAll(roots)
    && NodesAll(roots)[r.modelUid - 1] == model && NodesAll(roots)[r.uid - 1] == port
    && Names(model.tag, r.category) && Text(model, "ID") == r.modelId
    && Directs(port.tag, r.portDirection) && Text(port, "name") == r.portName
  }

  /** The category a model element's tag names. */
  predicate Names(tag: string, category: Category) {
    match category
    case ACTION => tag == "Action"
    case CONDITION => tag == "Condition"
    case CONTROL => tag == "Control"
    case DECORATOR => tag == "Decorator"
    case _ => false
  }

  /** The direction a port element's tag names. */
  predicate Directs(tag: string, direction: Direction) {
    match direction
    case INPUT => tag == "input_port"
    case OUTPUT => tag == "output_port"
    case INOUT => tag == "inout_port"
  }

  /** The tags a models section may hold, and what each of them names. */
  lemma TagsExactly(tag: string)
    ensures forall category :: CategoryOf(tag) == Some(category) <==> Names(tag, category)
    ensures forall direction :: DirectionOf(tag) == Some(direction) <==> Directs(tag, direction)
  {
  }

  /** Where a port of the document stands: its root child, its model and itself. */
  ghost predicate IsPort(roots: seq<Element>, k: nat, m: nat, c: nat) {
    && k < |roots| && IsSection(roots[k]) && m < |roots[k].children| && c < |roots[k].children[m].children|
  }

  /** The row of port `c` of model `m` of the section at `k`. */
  ghost function RowAt(roots: seq<Element>, k: nat, m: nat, c: nat): Row
    requires Modelled(roots) && IsPort(roots, k, m, c)
  {
    var entry := EntryOf(roots[k].children[m], 1 + Before(roots, k) + 1 + Before(roots[k].children, m));
    PortRow(entry, entry.ports[c])
  }

  lemma RowPlaced(roots: seq<Element>, k: nat, m: nat, c: nat)
    requires Modelled(roots) && IsPort(roots, k, m, c)
    ensures var model := roots[k].children[m];
            Declares(roots, RowAt(roots, k, m, c), model, model.children[c])
  {
    hide NodesAll, SizeAll, Before, Text, CategoryOf, DirectionOf, Apart, Names, Directs;
    var section, model := roots[k], roots[k].children[m];
    TagsExactly(model.tag);
    TagsExactly(model.children[c].tag);
    ElementBelow(roots, k, m);
    ElementBelow(section.children, m, c);
    var inner := Before(section.children, m) + 1 + Before(model.children, c);
    NestedNode(section, inner);
    ElementAt(roots, k, 1 + inner);
  }

  lemma NestedNode(e: Element, i: nat)
    requires i < SizeAll(e.children)
    ensures 1 + i < Size(e) && Nodes(e)[1 + i] == NodesAll(e.children)[i]
  {
  }

  lemma EntriesPlaced(roots: seq<Element>)
    requires Modelled(roots)
    ensures var k, entries := SectionAt(roots), EntriesOf(roots);
            if k == |roots| then entries == []
            else |entries| == |roots[k].children|
                 && forall m: nat | m < |entries| ::
                      entries[m] == EntryOf(roots[k].children[m],
                                            1 + Before(roots, k) + 1 + Before(roots[k].children, m))
                      && |entries[m].ports| == |roots[k].children[m].children|
  {
    hide PortAllowed, CategoryOf, Apart, Before, Text;
  }

  lemma SectionOnce(roots: seq<Element>, k: nat)
    requires Modelled(roots) && k < |roots| && IsSection(roots[k])
    ensures k == SectionAt(roots)
  {
    hide EntriesAllowed;
  }

  lemma RowFound(roots: seq<Element>, r: Row) returns (k: nat, m: nat, c: nat)
    requires Modelled(roots) && r in PortRows(EntriesOf(roots))
    ensures IsPort(roots, k, m, c) && r == RowAt(roots, k, m, c)
  {
    hide Modelled, EntriesOf, PortRows, PortRow, Before, EntryOf;
    var entries := EntriesOf(roots);
    EntriesPlaced(roots);
    PortRowsHold(entries, r);
    var e, p :| 0 <= e < |entries| && 0 <= p < |entries[e].ports| && r == PortRow(entries[e], entries[e].ports[p]);
    k, m, c := SectionAt(roots), e, p;
  }

  lemma RowEmitted(roots: seq<Element>, k: nat, m: nat, c: nat)
    requires Modelled(roots) && IsPort(roots, k, m, c)
    ensures RowAt(roots, k, m, c) in PortRows(EntriesOf(roots))
  {
    hide Modelled, EntriesOf, PortRows, PortRow, Before, EntryOf;
    SectionOnce(roots, k);
    EntriesPlaced(roots);
    PortRowsHold(EntriesOf(roots), RowAt(roots, k, m, c));
  }

  /** The port rows stand for exactly the ports of the section, and each leads back to its two elements. */
  lemma PortRowsExactly(roots: seq<Element>, r: Row)
    requires Modelled(roots)
    ensures r in PortRows(EntriesOf(roots))
       <==> exists k: nat, m: nat, c: nat | IsPort(roots, k, m, c) :: r == RowAt(roots, k, m, c)
    ensures r in PortRows(EntriesOf(roots))
            ==> exists model: Element, port <- model.children :: Declares(roots, r, model, port)
  {
    hide Modelled, EntriesOf, PortRows, Declares, RowAt;
    if r in PortRows(EntriesOf(roots)) {
      var k, m, c := RowFound(roots, r);
      RowPlaced(roots, k, m, c);
      assert roots[k].children[m].children[c] in roots[k].children[m].children;
    }
    if k: nat, m: nat, c: nat :| IsPort(roots, k, m, c) && r == RowAt(roots, k, m, c) {
      RowEmitted(roots, k, m, c);
    }
  }
}
