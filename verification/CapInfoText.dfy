/**
  * Carrying quoted texts beside the alert's rows. The carrier checks its own relation to those rows and to their
  * omission counts; the main theorem is that neither check can fail.
  */
module CapInfoText {
  import opened Common
  import opened CapAlert

  const TEXT_NAMES: seq<string> := ["headline", "description", "instruction"]
  const AUDIENCE_NAMES: seq<string> := ["addresses", "restriction"]

  datatype Error = BaseRefused | Nested | RowsNotContiguous | TextMismatch | AudienceMismatch

  /** One text row: the base rows it relates to, and its three texts, absent or present. */
  datatype TextRow = TextRow(info: Option<nat>, start: nat, count: nat, texts: seq<Option<string>>)

  datatype Bundle = Bundle(rows: seq<TextRow>, audience: seq<Option<string>>, baseRows: seq<Row>,
                           omitted: multiset<Key>)

  // ---------------------------------------------------------------- texts

  /** The first child of this name, if any. */
  function Child(children: seq<Element>, local: string): Option<Element> {
    var kids := Kids(children, local);
    if kids == [] then None else Some(kids[0])
  }

  /** A text may be read when it is absent or a simple value. */
  predicate Simple(children: seq<Element>, local: string) {
    var e := Child(children, local);
    e.None? || e.value.children == []
  }

  function TextOf(children: seq<Element>, local: string): Option<string> {
    match Child(children, local)
    case None => None
    case Some(e) => Some(e.text)
  }

  function Texts(children: seq<Element>, names: seq<string>): (texts: seq<Option<string>>)
    ensures |texts| == |names|
  {
    seq(|names|, i requires 0 <= i < |names| => TextOf(children, names[i]))
  }

  predicate AllSimple(children: seq<Element>, names: seq<string>) {
    forall i | 0 <= i < |names| :: Simple(children, names[i])
  }

  /** Every text the caller asked for is a simple value. */
  predicate Readable(alert: Element, audience: bool) {
    && (audience ==> AllSimple(alert.children, AUDIENCE_NAMES))
    && forall i | 0 <= i < |Infos(alert)| :: AllSimple(Infos(alert)[i].children, TEXT_NAMES)
  }

  /** How many info blocks carry this text. */
  function Carrying(infos: seq<Element>, local: string): nat {
    if infos == [] then 0
    else Carrying(infos[..|infos| - 1], local) + if Named(infos[|infos| - 1].children, local) > 0 then 1 else 0
  }

  // ---------------------------------------------------------------- groups

  /** The places of the rows of one info block. */
  function Places(rows: seq<Row>, key: Option<nat>): seq<nat> {
    if rows == [] then []
    else Places(rows[..|rows| - 1], key) + if rows[|rows| - 1].info == key then [|rows| - 1] else []
  }

  function Range(start: nat, count: nat): (s: seq<nat>)
    ensures |s| == count && forall i | 0 <= i < count :: s[i] == start + i
  {
    seq(count, i requires 0 <= i < count => start + i)
  }

  lemma {:induction false} PlacesJoin(rows: seq<Row>, block: seq<Row>, own: Option<nat>, key: Option<nat>)
    requires forall i | 0 <= i < |block| :: block[i].info == own
    ensures Places(rows + block, key) == Places(rows, key) + if key == own then Range(|rows|, |block|) else []
  {
    if block == [] {
      assert rows + block == rows;
    } else {
      var last := |block| - 1;
      assert (rows + block)[..|rows + block| - 1] == rows + block[..last];
      PlacesJoin(rows, block[..last], own, key);
      assert Range(|rows|, |block|) == Range(|rows|, last) + [|rows| + last];
    }
  }

  lemma {:induction false} OwnAreaRows(areas: seq<Element>, index: nat, total: nat, scope: Scope)
    ensures forall i | 0 <= i < |areas| :: AreaRows(areas, index, total, scope)[i].info == Some(index)
  {
    if areas != [] {
      OwnAreaRows(areas[..|areas| - 1], index, total, scope);
    }
  }

  lemma OwnInfoRows(info: Element, index: nat, total: nat, outer: Scope)
    ensures var rows := InfoRows(info, index, total, outer);
            rows != [] && forall i | 0 <= i < |rows| :: rows[i].info == Some(index)
  {
    OwnAreaRows(Areas(info), index, total, outer.Plus(ScopeOf(info.children, INFO)));
  }

  /** The rows of info block `k` are one unbroken range, right after the rows of the blocks before it. */
  lemma {:induction false} OneRange(infos: seq<Element>, total: nat, outer: Scope, k: nat)
    ensures Places(RowsOfInfos(infos, total, outer), Some(k))
         == if k < |infos| then Range(|RowsOfInfos(infos[..k], total, outer)|, |InfoRows(infos[k], k, total, outer)|)
            else []
  {
    hide InfoRows;
    if infos != [] {
      var last := |infos| - 1;
      OneRange(infos[..last], total, outer, k);
      OwnInfoRows(infos[last], last, total, outer);
      PlacesJoin(RowsOfInfos(infos[..last], total, outer), InfoRows(infos[last], last, total, outer), Some(last),
                 Some(k));
      if k < last {
        assert infos[..last][..k] == infos[..k];
      }
    }
  }

  function At(groups: map<Option<nat>, seq<nat>>, key: Option<nat>): seq<nat> {
    if key in groups then groups[key] else []
  }

  lemma PlacesSnoc(rows: seq<Row>, k: nat, key: Option<nat>)
    requires k < |rows|
    ensures Places(rows[..k + 1], key) == Places(rows[..k], key) + if rows[k].info == key then [k] else []
  {
    assert rows[..k + 1][..k] == rows[..k];
  }

  /** Group the rows by info block, each block's places in row order. */
  method Group(rows: seq<Row>) returns (groups: map<Option<nat>, seq<nat>>)
    ensures forall key: Option<nat> :: At(groups, key) == Places(rows, key)
  {
    hide Places;
    groups := map[];
    var k: nat := 0;
    NoPlaces();
    assert rows[..0] == [];
    while k < |rows|
      invariant k <= |rows|
      invariant forall key: Option<nat> :: At(groups, key) == Places(rows[..k], key)
    {
      var before := groups;
      var own := rows[k].info;
      groups := groups[own := At(groups, own) + [k]];
      forall key: Option<nat>
        ensures At(groups, key) == Places(rows[..k + 1], key)
      {
        PlacesSnoc(rows, k, key);
        assert At(before, key) == Places(rows[..k], key);
      }
      k := k + 1;
    }
    assert rows[..k] == rows;
  }

  lemma NoPlaces()
    ensures forall key: Option<nat> :: Places([], key) == []
  {
  }

  // ---------------------------------------------------------------- omission counts

  lemma {:induction false} NoInfoKeys(geocodes: seq<Element>, key: Key)
    requires key.0 == "info"
    ensures GeocodeScopes(geocodes).omitted[key] == 0
  {
    if geocodes != [] {
      NoInfoKeys(geocodes[..|geocodes| - 1], key);
      OmittedCount(geocodes[|geocodes| - 1].children, GEOCODE, key);
    }
  }

  lemma {:induction false} NoInfoKeysInAreas(areas: seq<Element>, key: Key)
    requires key.0 == "info"
    ensures AreaScopes(areas).omitted[key] == 0
  {
    if areas != [] {
      var last := areas[|areas| - 1];
      NoInfoKeysInAreas(areas[..|areas| - 1], key);
      OmittedCount(last.children, AREA, key);
      NoInfoKeys(Geocodes(last), key);
    }
  }

  lemma TextNameOmitted(i: nat)
    requires i < |TEXT_NAMES|
    ensures TEXT_NAMES[i] in INFO.omitted && TEXT_NAMES[i] !in INFO.repeatable
  {
  }

  lemma AudienceNameOmitted(i: nat)
    requires i < |AUDIENCE_NAMES|
    ensures AUDIENCE_NAMES[i] in ALERT.omitted && AUDIENCE_NAMES[i] !in ALERT.repeatable
  {
  }

  /** A text omitted by the rows is counted once for each info block that carries it. */
  lemma {:induction false} InfoTextCounted(infos: seq<Element>, i: nat, legal: Legal)
    requires i < |TEXT_NAMES| && forall k | 0 <= k < |infos| :: InfoAccepted(infos[k], legal)
    ensures InfoScopes(infos).omitted[("info", TEXT_NAMES[i])] == Carrying(infos, TEXT_NAMES[i])
  {
    hide AreaAccepted, AreaScopes, ScopeOf, OmittedOf;
    if infos != [] {
      var last := infos[|infos| - 1];
      InfoTextCounted(infos[..|infos| - 1], i, legal);
      OneInfoCounted(last, i, legal);
    }
  }

  lemma OneInfoCounted(info: Element, i: nat, legal: Legal)
    requires i < |TEXT_NAMES| && InfoAccepted(info, legal)
    ensures InfoScope(info).omitted[("info", TEXT_NAMES[i])] == if Named(info.children, TEXT_NAMES[i]) > 0 then 1 else 0
  {
    hide AreaAccepted, AreaScopes, OmittedOf, Named;
    var key := ("info", TEXT_NAMES[i]);
    TextNameOmitted(i);
    OmittedCount(info.children, INFO, key);
    NoInfoKeysInAreas(Areas(info), key);
    assert Known(INFO, TEXT_NAMES[i]);
  }

  lemma {:induction false} NoAlertKeys(infos: seq<Element>, key: Key)
    requires key.0 == "alert"
    ensures InfoScopes(infos).omitted[key] == 0
  {
    if infos != [] {
      var last := infos[|infos| - 1];
      NoAlertKeys(infos[..|infos| - 1], key);
      OmittedCount(last.children, INFO, key);
      NoAlertKeysInAreas(Areas(last), key);
    }
  }

  lemma {:induction false} NoAlertKeysInAreas(areas: seq<Element>, key: Key)
    requires key.0 == "alert"
    ensures AreaScopes(areas).omitted[key] == 0
  {
    if areas != [] {
      var last := areas[|areas| - 1];
      NoAlertKeysInAreas(areas[..|areas| - 1], key);
      OmittedCount(last.children, AREA, key);
      NoAlertKeysInGeocodes(Geocodes(last), key);
    }
  }

  lemma {:induction false} NoAlertKeysInGeocodes(geocodes: seq<Element>, key: Key)
    requires key.0 == "alert"
    ensures GeocodeScopes(geocodes).omitted[key] == 0
  {
    if geocodes != [] {
      NoAlertKeysInGeocodes(geocodes[..|geocodes| - 1], key);
      OmittedCount(geocodes[|geocodes| - 1].children, GEOCODE, key);
    }
  }

  /** The document's omission counts of the selected texts are what the carrier selects. */
  lemma DocumentTextCounted(alert: Element, i: nat, legal: Legal)
    requires i < |TEXT_NAMES| && Accepted(alert, legal)
    ensures Document(alert).omitted[("info", TEXT_NAMES[i])] == Carrying(Infos(alert), TEXT_NAMES[i])
  {
    hide InfoAccepted, InfoScopes, OmittedOf, SingletonsOnce, Rows;
    OmittedCount(alert.children, ALERT, ("info", TEXT_NAMES[i]));
    InfoTextCounted(Infos(alert), i, legal);
  }

  lemma DocumentAudienceCounted(alert: Element, i: nat, legal: Legal)
    requires i < |AUDIENCE_NAMES| && Accepted(alert, legal)
    ensures Document(alert).omitted[("alert", AUDIENCE_NAMES[i])]
         == if Named(alert.children, AUDIENCE_NAMES[i]) > 0 then 1 else 0
  {
    hide InfoAccepted, InfoScopes, OmittedOf, Rows, Named;
    AudienceNameOmitted(i);
    assert Known(ALERT, AUDIENCE_NAMES[i]);
    OmittedCount(alert.children, ALERT, ("alert", AUDIENCE_NAMES[i]));
    NoAlertKeys(Infos(alert), ("alert", AUDIENCE_NAMES[i]));
  }

  // ---------------------------------------------------------------- the carrier

  /** Where the rows of info block `k` start among the base rows. */
  function Start(infos: seq<Element>, outer: Scope, total: nat, k: nat): nat
    requires k <= |infos|
  {
    |RowsOfInfos(infos[..k], total, outer)|
  }

  /** Text rows take up the base rows one after another, leaving none out. */
  ghost predicate Partition(rows: seq<TextRow>, total: nat) {
    && rows != [] && rows[0].start == 0
    && (forall i | 0 <= i < |rows| :: rows[i].count >= 1)
    && (forall i | 0 <= i < |rows| - 1 :: rows[i + 1].start == rows[i].start + rows[i].count)
    && rows[|rows| - 1].start + rows[|rows| - 1].count == total
  }

  /** The text row of one info block. */
  function TextRowOf(infos: seq<Element>, outer: Scope, k: nat): TextRow
    requires k < |infos|
  {
    TextRow(Some(k), Start(infos, outer, |infos|, k), |InfoRows(infos[k], k, |infos|, outer)|,
            Texts(infos[k].children, TEXT_NAMES))
  }

  function TextRows(alert: Element): (rows: seq<TextRow>)
    ensures |rows| == if Infos(alert) == [] then 1 else |Infos(alert)|
  {
    var infos, outer := Infos(alert), ScopeOf(alert.children, ALERT);
    if infos == [] then [TextRow(None, 0, 1, [None, None, None])]
    else seq(|infos|, k requires 0 <= k < |infos| => TextRowOf(infos, outer, k))
  }

  lemma StartNext(infos: seq<Element>, outer: Scope, total: nat, k: nat)
    requires k < |infos|
    ensures Start(infos, outer, total, k + 1) == Start(infos, outer, total, k) + |InfoRows(infos[k], k, total, outer)|
    ensures |InfoRows(infos[k], k, total, outer)| >= 1
  {
    hide InfoRows;
    assert infos[..k + 1][..k] == infos[..k];
    OwnInfoRows(infos[k], k, total, outer);
  }

  /** The text rows' ranges partition the base rows, in order and without a gap. */
  lemma RangesPartition(alert: Element)
    ensures Partition(TextRows(alert), |Rows(alert)|)
  {
    hide InfoRows, ScopeOf, Texts, RowsOfInfos, Infos;
    var infos, outer := Infos(alert), ScopeOf(alert.children, ALERT);
    var rows := TextRows(alert);
    if infos != [] {
      NothingBefore(infos, outer);
      forall k | 0 <= k < |infos|
        ensures rows[k].count >= 1 && rows[k].start + rows[k].count == Start(infos, outer, |infos|, k + 1)
      {
        StartNext(infos, outer, |infos|, k);
      }
      forall k | 0 <= k < |infos| - 1
        ensures rows[k + 1].start == rows[k].start + rows[k].count
      {
        assert rows[k + 1].start == Start(infos, outer, |infos|, k + 1);
      }
      assert infos[..|infos|] == infos;
      assert Start(infos, outer, |infos|, |infos|) == |Rows(alert)|;
    }
  }

  lemma {:induction false} PlacesExact(rows: seq<Row>, key: Option<nat>, j: nat)
    ensures j in Places(rows, key) <==> j < |rows| && rows[j].info == key
  {
    if rows != [] {
      PlacesExact(rows[..|rows| - 1], key, j);
    }
  }

  /** The range of a text row holds exactly the base rows of its info block. */
  lemma RangeIsBlock(alert: Element, k: nat, j: nat)
    requires k < |Infos(alert)|
    ensures var row := TextRows(alert)[k];
            row.start <= j < row.start + row.count <==> j < |Rows(alert)| && Rows(alert)[j].info == Some(k)
  {
    hide InfoRows, ScopeOf, Texts, RowsOfInfos, Infos, Places;
    var infos, outer := Infos(alert), ScopeOf(alert.children, ALERT);
    OneRange(infos, |infos|, outer, k);
    PlacesExact(Rows(alert), Some(k), j);
    var row := TextRows(alert)[k];
    RangeMembers(row.start, row.count, j);
  }

  lemma RangeMembers(start: nat, count: nat, j: nat)
    ensures j in Range(start, count) <==> start <= j < start + count
  {
    if start <= j < start + count {
      assert Range(start, count)[j - start] == j;
    }
  }

  lemma NothingBefore(infos: seq<Element>, outer: Scope)
    ensures Start(infos, outer, |infos|, 0) == 0
  {
    assert infos[..0] == [];
  }

  lemma {:induction false} PlacesOfAlert(alert: Element)
    requires Infos(alert) == []
    ensures Places(Rows(alert), None) == [0]
  {
    assert Rows(alert)[..0] == [];
  }

  /**
    * Carry the texts. Nothing but a refusal of the base rows or a text that is not a simple value can refuse: the
    * carrier's own checks of row ranges and omission counts never do. The omissions left are the document's less
    * the texts carried.
    */
  method Convert(alert: Element, audience: bool, legal: Legal) returns (r: Result<Bundle, Error>)
    ensures r.Err? ==> r.error == if Accepted(alert, legal) then Nested else BaseRefused
    ensures r.Ok? <==> Accepted(alert, legal) && Readable(alert, audience)
    ensures r.Ok? ==> r.value.rows == TextRows(alert) && r.value.baseRows == Rows(alert)
                      && r.value.audience == if audience then Texts(alert.children, AUDIENCE_NAMES) else []
    ensures r.Ok? ==> forall key: Key ::
              r.value.omitted[key] == (if Carried(key, audience) then 0 else Document(alert).omitted[key])
  {
    hide Accepted, Document, Rows, TextRowOf, AllSimple, Texts, Infos, Carrying, Named, ScopeOf;
    var ok, base, document := ReadAlert(alert, legal);
    if !ok {
      return Err(BaseRefused);
    }
    if audience && !AllSimple(alert.children, AUDIENCE_NAMES) {
      return Err(Nested);
    }
    var told := if audience then Texts(alert.children, AUDIENCE_NAMES) else [];
    var refused, rows, selected := CarryRows(alert, base, legal);
    if refused.Some? {
      return Err(refused.value);
    }
    var omitted;
    refused, omitted := TakeOut(alert, audience, document.omitted, selected, legal);
    r := match refused
         case Some(error) => Err(error)
         case None => Ok(Bundle(rows, told, base, omitted));
  }

  /** The omission entries a carrier takes out. */
  predicate Carried(key: Key, audience: bool) {
    (key.0 == "info" && key.1 in TEXT_NAMES) || (audience && key.0 == "alert" && key.1 in AUDIENCE_NAMES)
  }

  /** One text row for every info block, each checked to relate to one unbroken range of base rows. */
  method CarryRows(alert: Element, base: seq<Row>, ghost legal: Legal)
    returns (refused: Option<Error>, rows: seq<TextRow>, selected: seq<nat>)
    requires base == Rows(alert) && Accepted(alert, legal)
    ensures refused.Some? ==> refused.value == Nested
    ensures refused.None? <==> forall i | 0 <= i < |Infos(alert)| :: AllSimple(Infos(alert)[i].children, TEXT_NAMES)
    ensures refused.None? ==> rows == TextRows(alert) && |selected| == |TEXT_NAMES|
    ensures refused.None? ==> forall i | 0 <= i < |TEXT_NAMES| :: selected[i] == Carrying(Infos(alert), TEXT_NAMES[i])
  {
    hide Accepted, AllSimple, Texts, Named, ScopeOf, Infos, InfoRows, RowsOfInfos, Places, Carrying;
    var infos := Infos(alert);
    ghost var outer := ScopeOf(alert.children, ALERT);
    var groups := Group(base);
    refused, rows, selected := None, [], [0, 0, 0];
    if infos == [] {
      PlacesOfAlert(alert);
      NoneCarry();
      var group := At(groups, None);
      assert group == [0];
      if group == [] || group != Range(group[0], |group|) {
        return Some(RowsNotContiguous), rows, selected;
      }
      rows := [TextRow(None, group[0], |group|, [None, None, None])];
      return;
    }
    NoneCarry();
    assert infos[..0] == [];
    var k: nat := 0;
    while k < |infos|
      invariant k <= |infos| && |rows| == k && |selected| == 3 && refused.None?
      invariant forall i | 0 <= i < k :: rows[i] == TextRowOf(infos, outer, i)
      invariant forall i | 0 <= i < k :: AllSimple(infos[i].children, TEXT_NAMES)
      invariant forall i | 0 <= i < |TEXT_NAMES| :: selected[i] == Carrying(infos[..k], TEXT_NAMES[i])
    {
      var group := At(groups, Some(k));
      OneRange(infos, |infos|, outer, k);
      StartNext(infos, outer, |infos|, k);
      assert Places(base, Some(k)) == Range(Start(infos, outer, |infos|, k), |InfoRows(infos[k], k, |infos|, outer)|);
      if group == [] || group != Range(group[0], |group|) {
        return Some(RowsNotContiguous), rows, selected;
      }
      if !AllSimple(infos[k].children, TEXT_NAMES) {
        return Some(Nested), rows, selected;
      }
      var texts := Texts(infos[k].children, TEXT_NAMES);
      rows := rows + [TextRow(Some(k), group[0], |group|, texts)];
      selected := Selected(infos, k, selected, texts);
      k := k + 1;
    }
    assert infos[..k] == infos;
  }

  lemma NoneCarry()
    ensures forall i | 0 <= i < |TEXT_NAMES| :: Carrying([], TEXT_NAMES[i]) == 0
  {
  }

  /** Count the texts present in one more info block. */
  function Selected(infos: seq<Element>, k: nat, selected: seq<nat>, texts: seq<Option<string>>): (after: seq<nat>)
    requires k < |infos| && |selected| == 3 && texts == Texts(infos[k].children, TEXT_NAMES)
    requires forall i | 0 <= i < |TEXT_NAMES| :: selected[i] == Carrying(infos[..k], TEXT_NAMES[i])
    ensures |after| == 3 && forall i | 0 <= i < |TEXT_NAMES| :: after[i] == Carrying(infos[..k + 1], TEXT_NAMES[i])
  {
    assert infos[..k + 1][..k] == infos[..k];
    seq(3, i requires 0 <= i < 3 => selected[i] + if texts[i].Some? then 1 else 0)
  }

  /** Take the carried texts out of the omissions, checking each count. */
  method TakeOut(alert: Element, audience: bool, counted: multiset<Key>, selected: seq<nat>,
                 ghost legal: Legal)
    returns (refused: Option<Error>, omitted: multiset<Key>)
    requires Accepted(alert, legal) && counted == Document(alert).omitted && |selected| == |TEXT_NAMES|
    requires forall i | 0 <= i < |TEXT_NAMES| :: selected[i] == Carrying(Infos(alert), TEXT_NAMES[i])
    ensures refused.None?
    ensures forall key: Key :: omitted[key] == if Carried(key, audience) then 0 else counted[key]
  {
    hide Accepted, Document, Carrying, Named, Kids;
    refused, omitted := None, counted;
    var i: nat := 0;
    while i < |TEXT_NAMES|
      invariant i <= |TEXT_NAMES| && refused.None?
      invariant forall key: Key :: omitted[key]
                  == if key.0 == "info" && key.1 in TEXT_NAMES[..i] then 0 else counted[key]
    {
      DocumentTextCounted(alert, i, legal);
      assert TEXT_NAMES[i] !in TEXT_NAMES[..i];
      if omitted[("info", TEXT_NAMES[i])] != selected[i] {
        return Some(TextMismatch), omitted;
      }
      omitted := omitted[("info", TEXT_NAMES[i]) := 0];
      i := i + 1;
    }
    assert TEXT_NAMES[..i] == TEXT_NAMES;
    var told := if audience then |AUDIENCE_NAMES| else 0;
    i := 0;
    while i < told
      invariant i <= told && refused.None?
      invariant forall key: Key :: omitted[key]
                  == if (key.0 == "info" && key.1 in TEXT_NAMES) || (key.0 == "alert" && key.1 in AUDIENCE_NAMES[..i])
                     then 0 else counted[key]
    {
      DocumentAudienceCounted(alert, i, legal);
      assert AUDIENCE_NAMES[i] !in AUDIENCE_NAMES[..i];
      PresentOrNot(alert.children, AUDIENCE_NAMES[i]);
      if omitted[("alert", AUDIENCE_NAMES[i])] != (if TextOf(alert.children, AUDIENCE_NAMES[i]).Some? then 1 else 0) {
        return Some(AudienceMismatch), omitted;
      }
      omitted := omitted[("alert", AUDIENCE_NAMES[i]) := 0];
      i := i + 1;
    }
    assert AUDIENCE_NAMES[..2] == AUDIENCE_NAMES;
  }

  lemma PresentOrNot(children: seq<Element>, local: string)
    ensures TextOf(children, local).Some? <==> Named(children, local) > 0
  {
  }
}
