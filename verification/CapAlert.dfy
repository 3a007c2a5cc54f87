/**
  * Accounting for every child element of a saved alert: parsed, counted as a known omission, or counted as
  * unknown. A count dictionary is a multiset, so adding dictionaries is multiset sum and a total is a size.
  */
module CapAlert {
  import opened Common

  const MAX_INFO := 64
  const MAX_AREA := 256
  const MAX_GEOMETRY := 256
  const MAX_ROWS := 4096

  /** An element of the pinned namespace, or one outside it. */
  datatype Name = Cap(local: string) | Foreign(tag: string)

  datatype Element = Element(name: Name, text: string, children: seq<Element>)

  /** Which child names a level reads, which it knows and omits, and which may repeat. */
  datatype Level = Level(title: string, parsed: seq<string>, omitted: seq<string>, repeatable: seq<string>)

  const ALERT := Level("alert",
    ["identifier", "sender", "sent", "status", "msgType", "source", "scope", "references", "incidents", "info"],
    ["restriction", "addresses", "note", "code"], ["info", "code"])
  const INFO := Level("info",
    ["language", "event", "urgency", "severity", "certainty", "effective", "onset", "expires", "category",
     "responseType", "area"],
    ["audience", "senderName", "headline", "description", "instruction", "web", "contact", "eventCode",
     "parameter", "resource"],
    ["category", "responseType", "area", "eventCode", "parameter", "resource"])
  const AREA := Level("area", ["areaDesc", "altitude", "ceiling", "polygon", "circle", "geocode"], [],
    ["polygon", "circle", "geocode"])
  const GEOCODE := Level("geocode", ["valueName", "value"], [], [])

  type Key = (string, string)

  datatype Scope = Scope(omitted: multiset<Key>, unknown: multiset<Name>) {
    function Plus(other: Scope): Scope {
      Scope(omitted + other.omitted, unknown + other.unknown)
    }
  }

  const NONE := Scope(multiset{}, multiset{})

  predicate Known(level: Level, local: string) {
    local in level.parsed || local in level.omitted
  }

  function Named(children: seq<Element>, local: string): nat {
    if children == [] then 0
    else Named(children[..|children| - 1], local) + if children[|children| - 1].name == Cap(local) then 1 else 0
  }

  function Kids(children: seq<Element>, local: string): (kids: seq<Element>)
    ensures |kids| == Named(children, local)
  {
    if children == [] then []
    else Kids(children[..|children| - 1], local)
         + if children[|children| - 1].name == Cap(local) then [children[|children| - 1]] else []
  }

  /** No known name that may not repeat occurs twice. */
  ghost predicate SingletonsOnce(children: seq<Element>, level: Level) {
    forall local: string | Known(level, local) && local !in level.repeatable :: Named(children, local) <= 1
  }

  function OmittedOf(children: seq<Element>, level: Level): multiset<Key> {
    if children == [] then multiset{}
    else
      var last := children[|children| - 1].name;
      OmittedOf(children[..|children| - 1], level)
      + if last.Cap? && last.local in level.omitted then multiset{(level.title, last.local)} else multiset{}
  }

  function UnknownOf(children: seq<Element>, level: Level): multiset<Name> {
    if children == [] then multiset{}
    else
      var last := children[|children| - 1].name;
      UnknownOf(children[..|children| - 1], level)
      + if last.Foreign? || !Known(level, last.local) then multiset{last} else multiset{}
  }

  function ScopeOf(children: seq<Element>, level: Level): Scope {
    Scope(OmittedOf(children, level), UnknownOf(children, level))
  }

  /** How many children a level gives a column to. */
  function ParsedIn(children: seq<Element>, level: Level): nat {
    if children == [] then 0
    else
      var last := children[|children| - 1].name;
      ParsedIn(children[..|children| - 1], level) + if last.Cap? && last.local in level.parsed then 1 else 0
  }

  ghost predicate Apart(level: Level) {
    forall i, j | 0 <= i < |level.parsed| && 0 <= j < |level.omitted| :: level.parsed[i] != level.omitted[j]
  }

  lemma LevelsApart()
    ensures Apart(ALERT) && Apart(INFO) && Apart(AREA) && Apart(GEOCODE)
  {
  }

  /** Every child is parsed, counted omitted or counted unknown, and only once. */
  lemma {:induction false} EveryChildCounted(children: seq<Element>, level: Level)
    requires Apart(level)
    ensures ParsedIn(children, level) + |OmittedOf(children, level)| + |UnknownOf(children, level)| == |children|
  {
    if children != [] {
      EveryChildCounted(children[..|children| - 1], level);
    }
  }

  /** The omission count of one name is the number of children of that name. */
  lemma {:induction false} OmittedCount(children: seq<Element>, level: Level, key: Key)
    ensures OmittedOf(children, level)[key]
         == if key.0 == level.title && key.1 in level.omitted then Named(children, key.1) else 0
  {
    if children != [] {
      OmittedCount(children[..|children| - 1], level, key);
    }
  }

  // ---------------------------------------------------------------- values

  /** How the children of one name are read: whether there must be one, and whether their text is checked. */
  datatype Rule = Rule(local: string, required: bool, checked: bool)

  const ALERT_RULES := [
    Rule("identifier", true, true), Rule("sender", true, true), Rule("sent", true, true),
    Rule("status", true, true), Rule("msgType", true, true), Rule("scope", true, true),
    Rule("source", false, false), Rule("references", false, false), Rule("incidents", false, false)]
  const INFO_RULES := [
    Rule("category", true, true), Rule("event", true, false), Rule("responseType", false, true),
    Rule("urgency", true, true), Rule("severity", true, true), Rule("certainty", true, true),
    Rule("language", false, false), Rule("effective", false, true), Rule("onset", false, true),
    Rule("expires", false, true)]
  const AREA_RULES := [
    Rule("areaDesc", true, false), Rule("circle", false, true), Rule("polygon", false, true),
    Rule("altitude", false, true), Rule("ceiling", false, true)]
  const GEOCODE_RULES := [Rule("valueName", true, false), Rule("value", true, false)]

  /** Whether a text is a value of the element so named: an enumeration member, a time, a number or a shape. */
  type Legal = (string, string) -> bool

  /** Every child of the name is a simple value, a legal one where that is checked, and there is one if need be. */
  predicate Kept(children: seq<Element>, rule: Rule, legal: Legal) {
    var kids := Kids(children, rule.local);
    && (rule.required ==> kids != [])
    && forall i | 0 <= i < |kids| :: kids[i].children == [] && (rule.checked ==> legal(rule.local, kids[i].text))
  }

  predicate ValuesKept(children: seq<Element>, rules: seq<Rule>, legal: Legal) {
    forall i | 0 <= i < |rules| :: Kept(children, rules[i], legal)
  }

  predicate AltitudeKept(children: seq<Element>) {
    Kids(children, "ceiling") != [] ==> Kids(children, "altitude") != []
  }

  lemma {:induction false} KidOfName(children: seq<Element>, local: string, i: nat)
    requires i < |children| && children[i].name == Cap(local)
    ensures children[i] in Kids(children, local)
  {
    if i < |children| - 1 {
      KidOfName(children[..|children| - 1], local, i);
    }
  }

  /** Every child that a level gives a column to, other than a container, is read as a simple value. */
  ghost predicate NothingDropped(children: seq<Element>, level: Level, containers: set<string>) {
    forall i | 0 <= i < |children| && children[i].name.Cap? && children[i].name.local in level.parsed
               && children[i].name.local !in containers :: children[i].children == []
  }

  /** Every parsed name is a container or has a rule. */
  ghost predicate Covered(level: Level, rules: seq<Rule>, containers: set<string>) {
    forall k | 0 <= k < |level.parsed| ::
      level.parsed[k] in containers || exists r | 0 <= r < |rules| :: rules[r].local == level.parsed[k]
  }

  lemma KeptSimple(children: seq<Element>, level: Level, rules: seq<Rule>, containers: set<string>, legal: Legal)
    requires ValuesKept(children, rules, legal) && Covered(level, rules, containers)
    ensures NothingDropped(children, level, containers)
  {
    hide Kids;
    forall i | 0 <= i < |children| && children[i].name.Cap? && children[i].name.local in level.parsed
               && children[i].name.local !in containers
      ensures children[i].children == []
    {
      var k :| 0 <= k < |level.parsed| && level.parsed[k] == children[i].name.local;
      var r :| 0 <= r < |rules| && rules[r].local == level.parsed[k];
      assert Kept(children, rules[r], legal);
      KidOfName(children, level.parsed[k], i);
    }
  }

  // ---------------------------------------------------------------- one element

  /** Count the children of one element, refusing a known singleton declared twice. */
  method Scan(children: seq<Element>, level: Level) returns (ok: bool, scope: Scope)
    requires forall i, j | 0 <= i < j < |level.omitted| :: level.omitted[i] != level.omitted[j]
    ensures ok <==> SingletonsOnce(children, level)
    ensures ok ==> scope == ScopeOf(children, level)
  {
    hide OmittedOf, SingletonsOnce;
    var counts: multiset<string> := multiset{};
    scope := NONE;
    NoChildren(level);
    var k := 0;
    while k < |children|
      invariant 0 <= k <= |children| && SingletonsOnce(children[..k], level)
      invariant forall local: string :: counts[local] == Named(children[..k], local)
      invariant scope == Scope(multiset{}, UnknownOf(children[..k], level))
    {
      var name := children[k].name;
      assert children[..k + 1][..k] == children[..k];
      OneMoreChild(children, k, level);
      if name.Foreign? {
        scope := scope.(unknown := scope.unknown + multiset{name});
      } else {
        counts := counts + multiset{name.local};
        if !Known(level, name.local) {
          scope := scope.(unknown := scope.unknown + multiset{name});
        } else if name.local !in level.repeatable && counts[name.local] > 1 {
          assert Named(children[..k + 1], name.local) == counts[name.local];
          StaysTwice(children, k + 1, level, name.local);
          return false, scope;
        }
      }
      k := k + 1;
    }
    assert children[..k] == children;
    var omitted := CountOmitted(children, level, counts);
    scope := scope.(omitted := omitted);
    ok := true;
  }

  lemma NoChildren(level: Level)
    ensures SingletonsOnce([], level) && UnknownOf([], level) == multiset{} && forall local :: Named([], local) == 0
  {
  }

  lemma OneMoreChild(children: seq<Element>, k: nat, level: Level)
    requires k < |children| && SingletonsOnce(children[..k], level)
    ensures var name := children[k].name;
            SingletonsOnce(children[..k + 1], level)
            <==> (name.Cap? && Known(level, name.local) && name.local !in level.repeatable ==>
                    Named(children[..k], name.local) == 0)
  {
    assert children[..k + 1][..k] == children[..k];
  }

  lemma {:induction false} NamedGrows(children: seq<Element>, k: nat, local: string)
    requires k <= |children|
    ensures Named(children[..k], local) <= Named(children, local)
    decreases |children|
  {
    if k < |children| {
      NamedGrows(children[..|children| - 1], k, local);
      assert children[..|children| - 1][..k] == children[..k];
    } else {
      assert children[..k] == children;
    }
  }

  lemma StaysTwice(children: seq<Element>, k: nat, level: Level, local: string)
    requires k <= |children| && Known(level, local) && local !in level.repeatable && Named(children[..k], local) > 1
    ensures !SingletonsOnce(children, level)
  {
    NamedGrows(children, k, local);
  }

  /** One entry for every known omission that occurs. */
  method CountOmitted(children: seq<Element>, level: Level, counts: multiset<string>) returns (omitted: multiset<Key>)
    requires forall i, j | 0 <= i < j < |level.omitted| :: level.omitted[i] != level.omitted[j]
    requires forall local: string :: counts[local] == Named(children, local)
    ensures omitted == OmittedOf(children, level)
  {
    omitted := multiset{};
    var k := 0;
    while k < |level.omitted|
      invariant 0 <= k <= |level.omitted|
      invariant forall key: Key :: omitted[key]
                  == if key.0 == level.title && key.1 in level.omitted[..k] then counts[key.1] else 0
    {
      var name := level.omitted[k];
      if name in counts {
        omitted := omitted[(level.title, name) := omitted[(level.title, name)] + counts[name]];
      }
      k := k + 1;
    }
    forall key: Key
      ensures omitted[key] == OmittedOf(children, level)[key]
    {
      OmittedCount(children, level, key);
    }
  }

  // ---------------------------------------------------------------- the alert

  datatype Kind = AlertWithoutInfo | InfoWithoutArea | AreaRow

  datatype Row = Row(kind: Kind, info: Option<nat>, area: Option<nat>, infoCount: nat, counted: Scope)

  function Geocodes(area: Element): seq<Element> {
    Kids(area.children, "geocode")
  }

  /** An area's own children and those of its geocodes. */
  function AreaScope(area: Element): Scope {
    ScopeOf(area.children, AREA).Plus(GeocodeScopes(Geocodes(area)))
  }

  function GeocodeScopes(geocodes: seq<Element>): Scope {
    if geocodes == [] then NONE
    else GeocodeScopes(geocodes[..|geocodes| - 1]).Plus(ScopeOf(geocodes[|geocodes| - 1].children, GEOCODE))
  }

  function Areas(info: Element): seq<Element> {
    Kids(info.children, "area")
  }

  function Infos(alert: Element): seq<Element> {
    Kids(alert.children, "info")
  }

  function AreaScopes(areas: seq<Element>): Scope {
    if areas == [] then NONE else AreaScopes(areas[..|areas| - 1]).Plus(AreaScope(areas[|areas| - 1]))
  }

  function InfoScopes(infos: seq<Element>): Scope {
    if infos == [] then NONE
    else InfoScopes(infos[..|infos| - 1]).Plus(InfoScope(infos[|infos| - 1]))
  }

  /** An info block's own children and those of its areas. */
  function InfoScope(info: Element): Scope {
    ScopeOf(info.children, INFO).Plus(AreaScopes(Areas(info)))
  }

  /** Every scope of the document, once. */
  function Document(alert: Element): Scope {
    ScopeOf(alert.children, ALERT).Plus(InfoScopes(Infos(alert)))
  }

  /** The rows of one info block: one for each area, or one without. */
  function InfoRows(info: Element, index: nat, total: nat, outer: Scope): seq<Row> {
    var scope := outer.Plus(ScopeOf(info.children, INFO));
    if Areas(info) == [] then [Row(InfoWithoutArea, Some(index), None, total, scope)]
    else AreaRows(Areas(info), index, total, scope)
  }

  function AreaRows(areas: seq<Element>, index: nat, total: nat, scope: Scope): (rows: seq<Row>)
    ensures |rows| == |areas|
  {
    if areas == [] then []
    else
      var last := |areas| - 1;
      AreaRows(areas[..last], index, total, scope)
      + [Row(AreaRow, Some(index), Some(last), total, scope.Plus(AreaScope(areas[last])))]
  }

  function RowsOfInfos(infos: seq<Element>, total: nat, outer: Scope): seq<Row> {
    if infos == [] then []
    else
      var last := |infos| - 1;
      RowsOfInfos(infos[..last], total, outer) + InfoRows(infos[last], last, total, outer)
  }

  function Rows(alert: Element): seq<Row> {
    var infos := Infos(alert);
    var scope := ScopeOf(alert.children, ALERT);
    if infos == [] then [Row(AlertWithoutInfo, None, None, 0, scope)]
    else RowsOfInfos(infos, |infos|, scope)
  }

  // ---------------------------------------------------------------- conservation over the document

  function Size(scope: Scope): nat {
    |scope.omitted| + |scope.unknown|
  }

  lemma SizePlus(a: Scope, b: Scope)
    ensures Size(a.Plus(b)) == Size(a) + Size(b)
  {
  }

  /** The child elements of these geocodes, all of them and those that are parsed. */
  function GeocodeChildren(geocodes: seq<Element>): nat {
    if geocodes == [] then 0
    else GeocodeChildren(geocodes[..|geocodes| - 1]) + |geocodes[|geocodes| - 1].children|
  }

  function GeocodeParsed(geocodes: seq<Element>): nat {
    if geocodes == [] then 0
    else GeocodeParsed(geocodes[..|geocodes| - 1]) + ParsedIn(geocodes[|geocodes| - 1].children, GEOCODE)
  }

  /** The child elements of these areas and of their geocodes. */
  function AreaChildren(areas: seq<Element>): nat {
    if areas == [] then 0
    else
      var last := areas[|areas| - 1];
      AreaChildren(areas[..|areas| - 1]) + |last.children| + GeocodeChildren(Geocodes(last))
  }

  function AreaParsed(areas: seq<Element>): nat {
    if areas == [] then 0
    else
      var last := areas[|areas| - 1];
      AreaParsed(areas[..|areas| - 1]) + ParsedIn(last.children, AREA) + GeocodeParsed(Geocodes(last))
  }

  /** The child elements of these info blocks and of everything inside them. */
  function InfoChildren(infos: seq<Element>): nat {
    if infos == [] then 0
    else
      var last := infos[|infos| - 1];
      InfoChildren(infos[..|infos| - 1]) + |last.children| + AreaChildren(Areas(last))
  }

  function InfoParsed(infos: seq<Element>): nat {
    if infos == [] then 0
    else
      var last := infos[|infos| - 1];
      InfoParsed(infos[..|infos| - 1]) + ParsedIn(last.children, INFO) + AreaParsed(Areas(last))
  }

  lemma {:induction false} GeocodesCounted(geocodes: seq<Element>)
    ensures GeocodeParsed(geocodes) + Size(GeocodeScopes(geocodes)) == GeocodeChildren(geocodes)
  {
    hide ParsedIn, ScopeOf;
    if geocodes != [] {
      var before, last := geocodes[..|geocodes| - 1], geocodes[|geocodes| - 1];
      GeocodesCounted(before);
      LevelsApart();
      LevelCounted(last.children, GEOCODE);
      SizePlus(GeocodeScopes(before), ScopeOf(last.children, GEOCODE));
    }
  }

  lemma LevelCounted(children: seq<Element>, level: Level)
    requires Apart(level)
    ensures ParsedIn(children, level) + Size(ScopeOf(children, level)) == |children|
  {
    EveryChildCounted(children, level);
  }

  lemma {:induction false} AreasCounted(areas: seq<Element>)
    ensures AreaParsed(areas) + Size(AreaScopes(areas)) == AreaChildren(areas)
  {
    hide ParsedIn, ScopeOf, Geocodes, GeocodeScopes;
    if areas != [] {
      var before, last := areas[..|areas| - 1], areas[|areas| - 1];
      AreasCounted(before);
      LevelsApart();
      LevelCounted(last.children, AREA);
      GeocodesCounted(Geocodes(last));
      SizePlus(ScopeOf(last.children, AREA), GeocodeScopes(Geocodes(last)));
      SizePlus(AreaScopes(before), AreaScope(last));
    }
  }

  lemma {:induction false} InfosCounted(infos: seq<Element>)
    ensures InfoParsed(infos) + Size(InfoScopes(infos)) == InfoChildren(infos)
  {
    hide ParsedIn, ScopeOf, Areas, AreaScopes;
    if infos != [] {
      var before, last := infos[..|infos| - 1], infos[|infos| - 1];
      InfosCounted(before);
      LevelsApart();
      LevelCounted(last.children, INFO);
      AreasCounted(Areas(last));
      SizePlus(ScopeOf(last.children, INFO), AreaScopes(Areas(last)));
      SizePlus(InfoScopes(before), InfoScope(last));
    }
  }

  /**
    * The children of an alert, of its info blocks, of their areas and of their geocodes, taken together, are each
    * parsed or counted once in the document's totals.
    */
  lemma DocumentCounted(alert: Element)
    ensures ParsedIn(alert.children, ALERT) + InfoParsed(Infos(alert))
            + |Document(alert).omitted| + |Document(alert).unknown|
         == |alert.children| + InfoChildren(Infos(alert))
  {
    hide ParsedIn, ScopeOf, Infos, InfoScopes;
    LevelsApart();
    LevelCounted(alert.children, ALERT);
    InfosCounted(Infos(alert));
    SizePlus(ScopeOf(alert.children, ALERT), InfoScopes(Infos(alert)));
  }

  // ---------------------------------------------------------------- the reader

  ghost predicate GeocodeAccepted(geocode: Element, legal: Legal) {
    SingletonsOnce(geocode.children, GEOCODE) && ValuesKept(geocode.children, GEOCODE_RULES, legal)
  }

  ghost predicate AreaAccepted(area: Element, legal: Legal) {
    && SingletonsOnce(area.children, AREA) && |Geocodes(area)| <= MAX_GEOMETRY
    && Named(area.children, "circle") <= MAX_GEOMETRY && Named(area.children, "polygon") <= MAX_GEOMETRY
    && ValuesKept(area.children, AREA_RULES, legal) && AltitudeKept(area.children)
    && forall i | 0 <= i < |Geocodes(area)| :: GeocodeAccepted(Geocodes(area)[i], legal)
  }

  ghost predicate InfoAccepted(info: Element, legal: Legal) {
    && SingletonsOnce(info.children, INFO) && |Areas(info)| <= MAX_AREA
    && ValuesKept(info.children, INFO_RULES, legal)
    && forall i | 0 <= i < |Areas(info)| :: AreaAccepted(Areas(info)[i], legal)
  }

  ghost predicate Accepted(alert: Element, legal: Legal) {
    && SingletonsOnce(alert.children, ALERT) && |Infos(alert)| <= MAX_INFO
    && ValuesKept(alert.children, ALERT_RULES, legal)
    && (forall i | 0 <= i < |Infos(alert)| :: InfoAccepted(Infos(alert)[i], legal))
    && |Rows(alert)| <= MAX_ROWS
  }

  /** No element of an accepted alert that has a column of its own is read with a part of it left behind. */
  lemma ColumnsWhole(alert: Element, legal: Legal)
    requires Accepted(alert, legal)
    ensures NothingDropped(alert.children, ALERT, {"info"})
    ensures forall info <- Infos(alert) :: NothingDropped(info.children, INFO, {"area"})
    ensures forall info <- Infos(alert), area <- Areas(info) :: NothingDropped(area.children, AREA, {"geocode"})
    ensures forall info <- Infos(alert), area <- Areas(info), geocode <- Geocodes(area) ::
              NothingDropped(geocode.children, GEOCODE, {})
  {
    hide ValuesKept, NothingDropped, SingletonsOnce, Infos, Areas, Geocodes, Rows, AltitudeKept;
    AlertCovered();
    InfoCovered();
    AreaCovered();
    KeptSimple(alert.children, ALERT, ALERT_RULES, {"info"}, legal);
    forall info <- Infos(alert)
      ensures NothingDropped(info.children, INFO, {"area"})
      ensures forall area <- Areas(info) :: NothingDropped(area.children, AREA, {"geocode"})
      ensures forall area <- Areas(info), geocode <- Geocodes(area) :: NothingDropped(geocode.children, GEOCODE, {})
    {
      KeptSimple(info.children, INFO, INFO_RULES, {"area"}, legal);
      forall area <- Areas(info)
        ensures NothingDropped(area.children, AREA, {"geocode"})
        ensures forall geocode <- Geocodes(area) :: NothingDropped(geocode.children, GEOCODE, {})
      {
        KeptSimple(area.children, AREA, AREA_RULES, {"geocode"}, legal);
        forall geocode <- Geocodes(area)
          ensures NothingDropped(geocode.children, GEOCODE, {})
        {
          KeptSimple(geocode.children, GEOCODE, GEOCODE_RULES, {}, legal);
        }
      }
    }
  }

  /** Which rule reads each parsed name; the container's own entry is not looked at. */
  ghost predicate Assigned(level: Level, rules: seq<Rule>, containers: set<string>,
                            places: seq<nat>) {
    && |places| == |level.parsed|
    && forall k | 0 <= k < |places| ::
         level.parsed[k] in containers || (places[k] < |rules| && rules[places[k]].local == level.parsed[k])
  }

  lemma AssignedCovers(level: Level, rules: seq<Rule>, containers: set<string>, places: seq<nat>)
    requires Assigned(level, rules, containers, places)
    ensures Covered(level, rules, containers)
  {
  }

  lemma AlertCovered()
    ensures Covered(ALERT, ALERT_RULES, {"info"})
  {
    hide Covered;
    AssignedCovers(ALERT, ALERT_RULES, {"info"}, [0, 1, 2, 3, 4, 6, 5, 7, 8, 0]);
  }

  lemma InfoCovered()
    ensures Covered(INFO, INFO_RULES, {"area"})
  {
    hide Covered;
    AssignedCovers(INFO, INFO_RULES, {"area"}, [6, 1, 3, 4, 5, 7, 8, 9, 0, 2, 0]);
  }

  lemma AreaCovered()
    ensures Covered(AREA, AREA_RULES, {"geocode"}) && Covered(GEOCODE, GEOCODE_RULES, {})
  {
    hide Covered;
    AssignedCovers(AREA, AREA_RULES, {"geocode"}, [0, 3, 4, 2, 1, 0]);
    AssignedCovers(GEOCODE, GEOCODE_RULES, {}, [0, 1]);
  }

  method ReadArea(area: Element, legal: Legal) returns (ok: bool, scope: Scope)
    ensures ok <==> AreaAccepted(area, legal)
    ensures ok ==> scope == AreaScope(area)
  {
    hide SingletonsOnce, ScopeOf, Scope.Plus, ValuesKept, AltitudeKept;
    ok, scope := Scan(area.children, AREA);
    var geocodes := Geocodes(area);
    if !ok || |geocodes| > MAX_GEOMETRY || |Kids(area.children, "circle")| > MAX_GEOMETRY
       || |Kids(area.children, "polygon")| > MAX_GEOMETRY
       || !ValuesKept(area.children, AREA_RULES, legal) || !AltitudeKept(area.children) {
      return false, scope;
    }
    var inner := NONE;
    var k := 0;
    while k < |geocodes|
      invariant 0 <= k <= |geocodes| && inner == GeocodeScopes(geocodes[..k])
      invariant forall i | 0 <= i < k :: GeocodeAccepted(geocodes[i], legal)
    {
      var one;
      ok, one := Scan(geocodes[k].children, GEOCODE);
      if !ok || !ValuesKept(geocodes[k].children, GEOCODE_RULES, legal) {
        return false, scope;
      }
      assert geocodes[..k + 1][..k] == geocodes[..k];
      inner := inner.Plus(one);
      k := k + 1;
    }
    assert geocodes[..k] == geocodes;
    scope := scope.Plus(inner);
    ok := true;
  }

  method ReadInfo(info: Element, index: nat, total: nat, outer: Scope, rows: seq<Row>, legal: Legal)
    returns (ok: bool, after: seq<Row>, absorbed: Scope)
    ensures ok <==> InfoAccepted(info, legal)
    ensures ok ==> after == rows + InfoRows(info, index, total, outer)
    ensures ok ==> absorbed == InfoScope(info)
  {
    hide SingletonsOnce, ScopeOf, Scope.Plus, AreaAccepted, AreaScope, ValuesKept;
    after, absorbed := rows, NONE;
    var scope;
    ok, scope := Scan(info.children, INFO);
    var areas := Areas(info);
    if !ok || !ValuesKept(info.children, INFO_RULES, legal) || |areas| > MAX_AREA {
      return false, after, absorbed;
    }
    var inner := NONE;
    var shared := outer.Plus(scope);
    if areas == [] {
      after := rows + [Row(InfoWithoutArea, Some(index), None, total, shared)];
    }
    var k := 0;
    while k < |areas|
      invariant 0 <= k <= |areas| && inner == AreaScopes(areas[..k])
      invariant areas != [] ==> after == rows + AreaRows(areas[..k], index, total, shared)
      invariant areas == [] ==> after == rows + InfoRows(info, index, total, outer)
      invariant forall i | 0 <= i < k :: AreaAccepted(areas[i], legal)
    {
      var one;
      ok, one := ReadArea(areas[k], legal);
      if !ok {
        return;
      }
      assert areas[..k + 1][..k] == areas[..k];
      inner := inner.Plus(one);
      after := after + [Row(AreaRow, Some(index), Some(k), total, shared.Plus(one))];
      k := k + 1;
    }
    assert areas[..k] == areas;
    absorbed := scope.Plus(inner);
    ok := true;
  }

  /** Read an alert: its rows, each with its own accounting, and the document's totals. */
  method ReadAlert(alert: Element, legal: Legal) returns (ok: bool, rows: seq<Row>, document: Scope)
    ensures ok <==> Accepted(alert, legal)
    ensures ok ==> rows == Rows(alert) && document == Document(alert)
  {
    hide SingletonsOnce, ScopeOf, InfoAccepted, InfoRows, InfoScope, ValuesKept, Infos, Scope.Plus;
    rows, document := [], NONE;
    var scope;
    ok, scope := Scan(alert.children, ALERT);
    var infos := Infos(alert);
    if !ok || !ValuesKept(alert.children, ALERT_RULES, legal) || |infos| > MAX_INFO {
      return false, rows, document;
    }
    if infos == [] {
      rows := [Row(AlertWithoutInfo, None, None, 0, scope)];
    }
    var inner := NONE;
    var k := 0;
    while k < |infos|
      invariant 0 <= k <= |infos| && inner == InfoScopes(infos[..k])
      invariant infos != [] ==> rows == RowsOfInfos(infos[..k], |infos|, scope)
      invariant infos == [] ==> rows == Rows(alert)
      invariant forall i | 0 <= i < k :: InfoAccepted(infos[i], legal)
    {
      var absorbed;
      ok, rows, absorbed := ReadInfo(infos[k], k, |infos|, scope, rows, legal);
      if !ok {
        return;
      }
      assert infos[..k + 1][..k] == infos[..k];
      inner := inner.Plus(absorbed);
      k := k + 1;
    }
    assert infos[..k] == infos;
    document := scope.Plus(inner);
    ok := |rows| <= MAX_ROWS;
  }
}
