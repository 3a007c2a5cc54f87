/** One declared tree node: its category, its child count and its attribute rows. */
module BtNodes {
  import opened Common

  datatype Attribute = Attribute(name: string, value: string)

  /** A parsed element. Attribute names are distinct, as in any element a parser returns. */
  datatype Element = Element(tag: string, attributes: seq<Attribute>, children: seq<Element>)

  datatype Category = ACTION | CONDITION | CONTROL | DECORATOR | SUBTREE | ACTION_OR_CONDITION | UNKNOWN_NOT_REGISTERED

  /** The categories a node model may declare. */
  type ModelCategory = c: Category | c.ACTION? || c.CONDITION? || c.CONTROL? || c.DECORATOR? witness ACTION

  datatype Basis = GenericTagWithId | GenericTagWithIdAndModel | BuiltInRegistry | DeclaredModel | Unresolvable

  datatype Direction = INPUT | OUTPUT | INOUT

  /** A node model declared in the document: its category and the direction of each of its ports. */
  datatype Model = Model(category: ModelCategory, ports: map<string, Direction>)

  type Models = map<string, Model>

  const CONTROL_NODES := {"Fallback", "AsyncFallback", "Sequence", "AsyncSequence", "SequenceWithMemory",
    "SequenceStar", "Parallel", "ParallelAll", "ReactiveSequence", "ReactiveFallback",
    "IfThenElse", "WhileDoElse", "Switch2", "Switch3", "Switch4", "Switch5", "Switch6"}
  const DECORATOR_NODES := {"Inverter", "RetryUntilSuccessful", "KeepRunningUntilFailure", "Repeat", "Timeout",
    "Delay", "RunOnce", "ForceSuccess", "ForceFailure", "Precondition", "SkipUnlessUpdated", "WaitValueUpdate",
    "LoopInt", "LoopBool", "LoopDouble", "LoopString"}
  const LEAF_NODES := {"AlwaysSuccess", "AlwaysFailure", "Script", "ScriptCondition", "SetBlackboard", "Sleep",
    "UnsetBlackboard", "WasEntryUpdated"}
  const GENERIC_TAGS := {"Action", "Condition", "Control", "Decorator", "SubTree"}

  function Get(attributes: seq<Attribute>, name: string): (value: Option<string>)
    ensures value.Some? <==> exists i | 0 <= i < |attributes| :: attributes[i].name == name
    ensures value.Some? ==> Attribute(name, value.value) in attributes
  {
    if attributes == [] then None
    else if attributes[0].name == name then Some(attributes[0].value)
    else Get(attributes[1..], name)
  }

  // ---------------------------------------------------------------- category

  function BuiltinCategory(name: string): Option<Category> {
    if name in CONTROL_NODES then Some(CONTROL)
    else if name in DECORATOR_NODES then Some(DECORATOR)
    else if name in LEAF_NODES then Some(ACTION_OR_CONDITION)
    else None
  }

  predicate SameFamily(left: Category, right: Category) {
    var leaves := {ACTION, CONDITION, ACTION_OR_CONDITION};
    (left in leaves && right in leaves) || left == right
  }

  function GenericCategory(tag: string): Category
    requires tag in GENERIC_TAGS
  {
    match tag
    case "Action" => ACTION
    case "Condition" => CONDITION
    case "Control" => CONTROL
    case "Decorator" => DECORATOR
    case _ => SUBTREE
  }

  /** What the pinned registry, or else the document's own models, says of a name. */
  function Established(name: string, models: Models): Option<Category> {
    if BuiltinCategory(name).Some? then BuiltinCategory(name)
    else if name in models then Some(models[name].category)
    else None
  }

  function Categorize(tag: string, id: Option<string>, models: Models): Option<(Category, Basis)> {
    if tag in GENERIC_TAGS then
      if id == None || id == Some("") then None
      else
        var established := Established(id.value, models);
        if tag == "SubTree" then
          if established.Some? then None else Some((SUBTREE, GenericTagWithId))
        else if established.Some? && !SameFamily(GenericCategory(tag), established.value) then None
        else Some((GenericCategory(tag), if id.value in models then GenericTagWithIdAndModel else GenericTagWithId))
    else if id.Some? then None
    else if BuiltinCategory(tag).Some? then Some((BuiltinCategory(tag).value, BuiltInRegistry))
    else if tag in models then Some((models[tag].category, DeclaredModel))
    else Some((UNKNOWN_NOT_REGISTERED, Unresolvable))
  }

  predicate ChildrenAllowed(category: Category, count: nat) {
    match category
    case SUBTREE | ACTION | CONDITION | ACTION_OR_CONDITION => count == 0
    case DECORATOR => count == 1
    case CONTROL => count != 0
    case UNKNOWN_NOT_REGISTERED => true
  }

  /** A category is never guessed: a node's name cannot be known to the registry as another family. */
  lemma CategoryEstablished(tag: string, id: Option<string>, models: Models)
    requires Categorize(tag, id, models).Some?
    ensures var category := Categorize(tag, id, models).value.0;
            var name := if id.Some? then id.value else tag;
            && (Established(name, models).Some? ==> SameFamily(category, Established(name, models).value))
            && (Established(name, models).None? ==> id.Some? || category == UNKNOWN_NOT_REGISTERED)
            && (category == SUBTREE <==> tag == "SubTree")
            && (category == SUBTREE ==> Established(name, models).None?)
  {
  }

  /** What the pinned registry says of a name, and for no other name what the document's own models say. */
  ghost predicate KnownAs(name: string, models: Models, category: Category) {
    || (name in CONTROL_NODES && category == CONTROL)
    || (name in DECORATOR_NODES && category == DECORATOR)
    || (name in LEAF_NODES && category == ACTION_OR_CONDITION)
    || (name !in CONTROL_NODES + DECORATOR_NODES + LEAF_NODES && name in models && category == models[name].category)
  }

  /** Length, first and third letter, which already tell the registered names of different families apart. */
  function Sketch(name: string): (int, char, char)
    requires |name| > 2
  {
    (|name|, name[0], name[2])
  }

  lemma ControlSketches(name: string)
    requires name in CONTROL_NODES
    ensures |name| > 2 && Sketch(name) in {(7, 'S', 'i'), (8, 'F', 'l'), (8, 'P', 'r'), (8, 'S', 'q'),
      (10, 'I', 'T'), (11, 'P', 'r'), (11, 'W', 'i'), (12, 'S', 'q'), (13, 'A', 'y'), (16, 'R', 'a'),
      (18, 'S', 'q')}
  {
  }

  lemma DecoratorSketches(name: string)
    requires name in DECORATOR_NODES
    ensures |name| > 2 && Sketch(name) in {(5, 'D', 'l'), (6, 'R', 'p'), (7, 'L', 'o'), (7, 'R', 'n'),
      (7, 'T', 'm'), (8, 'I', 'v'), (8, 'L', 'o'), (10, 'L', 'o'), (12, 'F', 'r'), (12, 'P', 'e'), (15,
      'W', 'i'), (17, 'S', 'i'), (20, 'R', 't'), (23, 'K', 'e')}
  {
  }

  lemma LeafSketches(name: string)
    requires name in LEAF_NODES
    ensures |name| > 2 && Sketch(name) in {(5, 'S', 'e'), (6, 'S', 'r'), (13, 'A', 'w'), (13, 'S', 't'),
      (15, 'S', 'r'), (15, 'U', 's'), (15, 'W', 's')}
  {
  }

  lemma GenericSketches(name: string)
    requires name in GENERIC_TAGS
    ensures |name| > 2 && Sketch(name) in {(6, 'A', 't'), (7, 'C', 'n'), (7, 'S', 'b'), (9, 'C', 'n'),
      (9, 'D', 'c')}
  {
  }

  /** The registry says one thing of a name at most, and nothing of the generic tags. */
  lemma RegistryApart(name: string)
    ensures name in CONTROL_NODES ==> name !in DECORATOR_NODES && name !in LEAF_NODES && name !in GENERIC_TAGS
    ensures name in DECORATOR_NODES ==> name !in LEAF_NODES && name !in GENERIC_TAGS
    ensures name in LEAF_NODES ==> name !in GENERIC_TAGS
  {
    if name in CONTROL_NODES {
      ControlSketches(name);
    }
    if name in DECORATOR_NODES {
      DecoratorSketches(name);
    }
    if name in LEAF_NODES {
      LeafSketches(name);
    }
    if name in GENERIC_TAGS {
      GenericSketches(name);
    }
  }

  lemma EstablishedExactly(name: string, models: Models, category: Category)
    ensures Established(name, models) == Some(category) <==> KnownAs(name, models, category)
  {
    RegistryApart(name);
  }

  /** The name in a generic tag's `ID` is missing, or known as something that the tag contradicts. */
  ghost predicate Contradicted(tag: string, id: Option<string>, models: Models) {
    || id == None || id == Some("")
    || exists known :: && KnownAs(id.value, models, known)
                       && match tag
                          case "Action" | "Condition" => known == CONTROL || known == DECORATOR
                          case "Control" => known != CONTROL
                          case "Decorator" => known != DECORATOR
                          case _ => true
  }

  /** A declaration is refused exactly when its generic tag is contradicted, or a name tag has an `ID` besides. */
  lemma RefusedExactly(tag: string, id: Option<string>, models: Models)
    ensures Categorize(tag, id, models) == None
       <==> if tag in {"Action", "Condition", "Control", "Decorator", "SubTree"} then Contradicted(tag, id, models)
            else id.Some?
  {
    hide KnownAs;
    if id.Some? {
      forall known
        ensures Established(id.value, models) == Some(known) <==> KnownAs(id.value, models, known)
      {
        EstablishedExactly(id.value, models, known);
      }
    }
  }

  /** The category and basis of an accepted declaration, tag by tag. */
  lemma CategoryExactly(tag: string, id: Option<string>, models: Models)
    requires Categorize(tag, id, models).Some?
    ensures var (category, basis) := Categorize(tag, id, models).value;
            match tag
            case "Action" => category == ACTION
            case "Condition" => category == CONDITION
            case "Control" => category == CONTROL
            case "Decorator" => category == DECORATOR
            case "SubTree" => category == SUBTREE && basis == GenericTagWithId
            case _ => if exists known :: KnownAs(tag, models, known) then KnownAs(tag, models, category)
                      else category == UNKNOWN_NOT_REGISTERED
    ensures var basis := Categorize(tag, id, models).value.1;
            if tag in GENERIC_TAGS then
              basis == if id.value in models && tag != "SubTree" then GenericTagWithIdAndModel else GenericTagWithId
            else if tag in CONTROL_NODES + DECORATOR_NODES + LEAF_NODES then basis == BuiltInRegistry
            else if tag in models then basis == DeclaredModel
            else basis == Unresolvable
  {
    hide KnownAs;
    forall known
      ensures Established(tag, models) == Some(known) <==> KnownAs(tag, models, known)
    {
      EstablishedExactly(tag, models, known);
    }
  }

  /** How many children each category may have. */
  lemma ChildrenExactly(category: Category, count: nat)
    ensures ChildrenAllowed(category, count)
       <==> (count == 0 && category !in {CONTROL, DECORATOR}) || (count == 1 && category in {CONTROL, DECORATOR})
            || category == UNKNOWN_NOT_REGISTERED || (count > 1 && category == CONTROL)
  {
  }

  // ---------------------------------------------------------------- attributes

  predicate AllowedPortName(name: string, alpha: char -> bool) {
    name == "_autoremap" || (name != "" && alpha(name[0]) && name != "name" && name != "ID")
  }

  predicate AttributeAllowed(a: Attribute, alpha: char -> bool) {
    a.name == "ID" || a.name == "name"
    || (a.name != "" && (AllowedPortName(a.name, alpha) || a.name[0] == '_'))
  }

  function StripLeft(s: string): (r: string)
    ensures |r| <= |s|
  {
    if s != "" && s[0] == ' ' then StripLeft(s[1..]) else s
  }

  function StripRight(s: string): (r: string)
    ensures |r| <= |s|
  {
    if s != "" && s[|s| - 1] == ' ' then StripRight(s[..|s| - 1]) else s
  }

  function BlackboardKey(value: string): Option<string> {
    var trimmed := StripRight(StripLeft(value));
    if |trimmed| >= 3 && trimmed[0] == '{' && trimmed[|trimmed| - 1] == '}' then Some(trimmed[1..|trimmed| - 1])
    else None
  }

  function Spaces(n: nat): (s: string)
    ensures |s| == n && forall i | 0 <= i < n :: s[i] == ' '
  {
    seq(n, i => ' ')
  }

  lemma {:induction false} StripLeftPads(s: string) returns (n: nat)
    ensures s == Spaces(n) + StripLeft(s) && (StripLeft(s) == "" || StripLeft(s)[0] != ' ')
  {
    if s != "" && s[0] == ' ' {
      n := StripLeftPads(s[1..]);
      n := n + 1;
      assert Spaces(n) == [' '] + Spaces(n - 1);
      assert s == [' '] + s[1..];
    } else {
      n := 0;
    }
  }

  lemma {:induction false} StripRightPads(s: string) returns (n: nat)
    ensures s == StripRight(s) + Spaces(n)
  {
    if s != "" && s[|s| - 1] == ' ' {
      n := StripRightPads(s[..|s| - 1]);
      n := n + 1;
      assert Spaces(n) == Spaces(n - 1) + [' '];
      assert s == s[..|s| - 1] + [' '];
    } else {
      n := 0;
    }
  }

  lemma {:induction false} StripLeftOf(n: nat, s: string)
    requires s != "" && s[0] != ' '
    ensures StripLeft(Spaces(n) + s) == s
  {
    if n > 0 {
      assert (Spaces(n) + s)[1..] == Spaces(n - 1) + s;
      StripLeftOf(n - 1, s);
    } else {
      assert Spaces(n) + s == s;
    }
  }

  lemma {:induction false} StripRightOf(s: string, n: nat)
    requires s != "" && s[|s| - 1] != ' '
    ensures StripRight(s + Spaces(n)) == s
  {
    if n > 0 {
      assert (s + Spaces(n))[..|s| + n - 1] == s + Spaces(n - 1);
      StripRightOf(s, n - 1);
    } else {
      assert s + Spaces(n) == s;
    }
  }

  /** A value points at key `k` exactly when it is `{k}` between spaces, `k` not empty. */
  ghost predicate PointsAt(value: string, k: string) {
    k != "" && exists a: nat, b: nat :: value == Spaces(a) + "{" + k + "}" + Spaces(b)
  }

  lemma PadsAround(value: string, trimmed: string, a: nat, b: nat)
    requires value == Spaces(a) + (trimmed + Spaces(b))
    requires trimmed != "" && trimmed[0] != ' ' && trimmed[|trimmed| - 1] != ' '
    ensures StripRight(StripLeft(value)) == trimmed
  {
    hide StripLeft, StripRight;
    StripLeftOf(a, trimmed + Spaces(b));
    StripRightOf(trimmed, b);
  }

  lemma KeyPoints(value: string, k: string)
    requires BlackboardKey(value) == Some(k)
    ensures PointsAt(value, k)
  {
    hide StripLeft, StripRight;
    var a := StripLeftPads(value);
    var b := StripRightPads(StripLeft(value));
    var trimmed := StripRight(StripLeft(value));
    assert trimmed == "{" + k + "}";
    assert value == Spaces(a) + "{" + k + "}" + Spaces(b);
  }

  lemma KeyReadExactly(value: string, k: string)
    ensures BlackboardKey(value) == Some(k) <==> PointsAt(value, k)
  {
    hide StripLeft, StripRight, Spaces;
    if BlackboardKey(value) == Some(k) {
      KeyPoints(value, k);
    }
    if PointsAt(value, k) {
      var a: nat, b: nat :| value == Spaces(a) + "{" + k + "}" + Spaces(b);
      var trimmed := "{" + k + "}";
      assert Spaces(a) + "{" + k + "}" + Spaces(b) == Spaces(a) + (trimmed + Spaces(b));
      PadsAround(value, trimmed, a, b);
      assert trimmed[1..|k| + 1] == k;
    }
  }

  // ---------------------------------------------------------------- rows

  datatype PortKind = StaticDeclaration | SameNameRemap | KeyReference

  datatype ReservedKind = FrameworkReserved | DeclaredAutoremap

  datatype Row =
    | TreeRow(uid: nat, treeId: string, main: bool)
    | NodeRow(uid: nat, treeId: string, parent: nat, ordinal: nat, childCount: nat, tag: string,
              category: Category, basis: Basis, id: Option<string>, name: Option<string>,
              subtreeRef: Option<string>)
    | PortRow(uid: nat, attribute: Attribute, portKind: PortKind, key: Option<string>, direction: Option<Direction>)
    | ReservedRow(uid: nat, attribute: Attribute, reservedKind: ReservedKind)
    | ModelPortRow(uid: nat, modelUid: nat, modelId: string, category: Category, portName: string,
                   portDirection: Direction)
  {
    predicate IsAttribute() {
      PortRow? || ReservedRow?
    }
  }

  function PortsOf(models: Models, tag: string, id: Option<string>): map<string, Direction> {
    var name := if id.Some? && id.value != "" then id.value else tag;
    if name in models then models[name].ports else map[]
  }

  function AttributeRow(uid: nat, a: Attribute, ports: map<string, Direction>, alpha: char -> bool): Row
    requires AttributeAllowed(a, alpha) && a.name != "ID" && a.name != "name"
  {
    if !AllowedPortName(a.name, alpha) then ReservedRow(uid, a, FrameworkReserved)
    else if a.name == "_autoremap" then ReservedRow(uid, a, DeclaredAutoremap)
    else
      var direction := if a.name in ports then Some(ports[a.name]) else None;
      match BlackboardKey(a.value)
      case None => PortRow(uid, a, StaticDeclaration, None, direction)
      case Some(k) =>
        if k == "=" then PortRow(uid, a, SameNameRemap, Some(a.name), direction)
        else PortRow(uid, a, KeyReference, Some(k), direction)
  }

  /** What one attribute adds: `ID` and `name` have columns of their own, and a refused name adds nothing. */
  function RowsOf(uid: nat, a: Attribute, ports: map<string, Direction>, alpha: char -> bool): (rows: seq<Row>)
    ensures |rows| <= 1 && forall r <- rows :: r.IsAttribute() && r.uid == uid && r.attribute == a
  {
    if a.name == "ID" || a.name == "name" || !AttributeAllowed(a, alpha) then []
    else [AttributeRow(uid, a, ports, alpha)]
  }

  /** The attribute rows of one element, in attribute order. */
  function AttributeRows(uid: nat, attributes: seq<Attribute>, ports: map<string, Direction>,
                         alpha: char -> bool): (rows: seq<Row>)
    ensures forall r <- rows :: r.IsAttribute() && r.uid == uid
  {
    if attributes == [] then []
    else RowsOf(uid, attributes[0], ports, alpha) + AttributeRows(uid, attributes[1..], ports, alpha)
  }

  /**
    * What an attribute's row says. A name that begins with a letter is a port: its value points at a key, at the
    * key of its own name, or nowhere. The other allowed names begin with an underscore and are reserved.
    */
  ghost predicate Says(r: Row, uid: nat, a: Attribute, ports: map<string, Direction>, alpha: char -> bool) {
    && r.IsAttribute() && r.uid == uid && r.attribute == a && a.name != "ID" && a.name != "name" && a.name != ""
    && (r.ReservedRow? <==> a.name == "_autoremap" || !alpha(a.name[0]))
    && (r.ReservedRow? ==> a.name[0] == '_' && (r.reservedKind == DeclaredAutoremap <==> a.name == "_autoremap"))
    && (r.PortRow? ==>
          && (forall k :: r.portKind == KeyReference && r.key == Some(k) <==> k != "=" && PointsAt(a.value, k))
          && (r.portKind == SameNameRemap <==> PointsAt(a.value, "="))
          && (r.portKind == SameNameRemap ==> r.key == Some(a.name))
          && (r.portKind == StaticDeclaration <==> forall k :: !PointsAt(a.value, k))
          && (r.portKind == StaticDeclaration ==> r.key == None)
          && forall d :: r.direction == Some(d) <==> a.name in ports && ports[a.name] == d)
  }

  lemma AttributeRowSays(uid: nat, a: Attribute, ports: map<string, Direction>, alpha: char -> bool)
    requires AttributeAllowed(a, alpha) && a.name != "ID" && a.name != "name"
    ensures Says(AttributeRow(uid, a, ports, alpha), uid, a, ports, alpha)
  {
    hide BlackboardKey, PointsAt;
    forall k
      ensures BlackboardKey(a.value) == Some(k) <==> PointsAt(a.value, k)
    {
      KeyReadExactly(a.value, k);
    }
  }

  /** The attributes that have rows: all but `ID` and `name`, each with one row that says what it holds. */
  lemma {:induction false} AttributeRowsSay(uid: nat, attributes: seq<Attribute>, ports: map<string, Direction>,
                                            alpha: char -> bool)
    requires forall a <- attributes :: AttributeAllowed(a, alpha)
    ensures forall r <- AttributeRows(uid, attributes, ports, alpha) ::
              r.IsAttribute() && r.attribute in attributes && Says(r, uid, r.attribute, ports, alpha)
    ensures forall a <- attributes | a.name != "ID" && a.name != "name" ::
              exists r <- AttributeRows(uid, attributes, ports, alpha) :: r.IsAttribute() && r.attribute == a
  {
    hide Says, AttributeRow, AttributeAllowed;
    if attributes != [] {
      var first, others := attributes[0], attributes[1..];
      assert attributes == [first] + others && first in attributes;
      AttributeRowsSay(uid, others, ports, alpha);
      var rows := AttributeRows(uid, attributes, ports, alpha);
      if first.name != "ID" && first.name != "name" {
        AttributeRowSays(uid, first, ports, alpha);
        assert rows[0] == AttributeRow(uid, first, ports, alpha) && rows[0] in rows;
      }
    }
  }

  /** Which attribute names a declaration may have at all. */
  lemma AllowedExactly(a: Attribute, alpha: char -> bool)
    ensures AttributeAllowed(a, alpha)
       <==> a.name != "" && (a.name in {"ID", "name"} || alpha(a.name[0]) || a.name[0] == '_')
  {
  }

  predicate Declarable(e: Element, models: Models, alpha: char -> bool) {
    var id := Get(e.attributes, "ID");
    && Categorize(e.tag, id, models).Some?
    && ChildrenAllowed(Categorize(e.tag, id, models).value.0, |e.children|)
    && forall a <- e.attributes :: AttributeAllowed(a, alpha)
  }
}
