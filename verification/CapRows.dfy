/** What each row of an accepted alert stands for, and what each carried text holds. */
module CapRows {
  import opened Common
  import opened CapAlert
  import opened CapInfoText

  // ---------------------------------------------------------------- rows

  /** What a row has counted: these scopes, each once. */
  ghost predicate Counts(r: Row, scopes: seq<Scope>) {
    r.counted == Sum(scopes)
  }

  function Sum(scopes: seq<Scope>): Scope {
    if scopes == [] then NONE else scopes[0].Plus(Sum(scopes[1..]))
  }

  /** The scope of each of these elements at one level. */
  function ScopesOf(es: seq<Element>, level: Level): seq<Scope> {
    seq(|es|, i requires 0 <= i < |es| => ScopeOf(es[i].children, level))
  }

  lemma {:induction false} GeocodesSummed(geocodes: seq<Element>)
    ensures GeocodeScopes(geocodes) == Sum(ScopesOf(geocodes, GEOCODE))
  {
    hide ScopeOf;
    if geocodes != [] {
      var before, last := geocodes[..|geocodes| - 1], geocodes[|geocodes| - 1];
      GeocodesSummed(before);
      SumSnoc(ScopesOf(before, GEOCODE), ScopeOf(last.children, GEOCODE));
      assert ScopesOf(geocodes, GEOCODE) == ScopesOf(before, GEOCODE) + [ScopeOf(last.children, GEOCODE)];
    }
  }

  lemma {:induction false} SumSnoc(scopes: seq<Scope>, last: Scope)
    ensures Sum(scopes + [last]) == Sum(scopes).Plus(last)
    decreases |scopes|
  {
    if scopes == [] {
      assert scopes + [last] == [last] && [last][1..] == [];
    } else {
      assert (scopes + [last])[1..] == scopes[1..] + [last];
      SumSnoc(scopes[1..], last);
    }
  }

  lemma {:induction false} AreaRowAt(areas: seq<Element>, index: nat, total: nat, scope: Scope, j: nat)
    requires j < |areas|
    ensures AreaRows(areas, index, total, scope)[j]
         == Row(AreaRow, Some(index), Some(j), total, scope.Plus(AreaScope(areas[j])))
    decreases |areas|
  {
    hide AreaScope;
    if j < |areas| - 1 {
      AreaRowAt(areas[..|areas| - 1], index, total, scope, j);
    }
  }

  lemma {:induction false} InfoRowsAt(infos: seq<Element>, total: nat, outer: Scope, k: nat, j: nat)
    requires k < |infos| && j < |InfoRows(infos[k], k, total, outer)|
    ensures Start(infos, outer, total, k) + j < |RowsOfInfos(infos, total, outer)|
    ensures RowsOfInfos(infos, total, outer)[Start(infos, outer, total, k) + j]
         == InfoRows(infos[k], k, total, outer)[j]
    decreases |infos|
  {
    hide InfoRows;
    var last := |infos| - 1;
    if k < last {
      InfoRowsAt(infos[..last], total, outer, k, j);
      assert infos[..last][..k] == infos[..k];
    }
  }

  /** The rows an info block has: one for each area, or one without any. */
  function RowsFor(info: Element): nat {
    if Areas(info) == [] then 1 else |Areas(info)|
  }

  /** The row of the `j`th area of the `k`th info block, or of the block that has no area. */
  ghost predicate StandsFor(r: Row, alert: Element, k: nat, j: nat)
    requires k < |Infos(alert)|
  {
    var info := Infos(alert)[k];
    && r.info == Some(k) && r.infoCount == |Infos(alert)|
    && if Areas(info) == [] then
         && r.kind == InfoWithoutArea && r.area == None && j == 0
         && Counts(r, [ScopeOf(alert.children, ALERT), ScopeOf(info.children, INFO)])
       else
         && j < |Areas(info)| && r.kind == AreaRow && r.area == Some(j)
         && var area := Areas(info)[j];
            Counts(r, [ScopeOf(alert.children, ALERT), ScopeOf(info.children, INFO), ScopeOf(area.children, AREA)]
                      + ScopesOf(Geocodes(area), GEOCODE))
  }

  lemma PlusNone(a: Scope)
    ensures a.Plus(NONE) == a
  {
  }

  lemma SumFirst(a: Scope, others: seq<Scope>)
    ensures Sum([a] + others) == a.Plus(Sum(others))
  {
    assert ([a] + others)[1..] == others;
  }

  lemma SumOfTwo(a: Scope, b: Scope)
    ensures Sum([a, b]) == a.Plus(b)
  {
    assert [a] + [b] == [a, b] && [b] + [] == [b];
    SumFirst(a, [b]);
    SumFirst(b, []);
    PlusNone(b);
  }

  lemma PlusJoins(a: Scope, b: Scope, c: Scope)
    ensures a.Plus(b).Plus(c) == a.Plus(b.Plus(c))
  {
  }

  lemma SumOfThree(a: Scope, b: Scope, c: Scope, others: seq<Scope>)
    ensures Sum([a, b, c] + others) == a.Plus(b).Plus(c.Plus(Sum(others)))
  {
    assert [a] + ([b, c] + others) == [a, b, c] + others && [b] + ([c] + others) == [b, c] + others;
    SumFirst(a, [b, c] + others);
    SumFirst(b, [c] + others);
    SumFirst(c, others);
    PlusJoins(a, b, c.Plus(Sum(others)));
  }

  /** One row for each area of each info block, and for each block without areas, in document order. */
  lemma RowStands(alert: Element, k: nat, j: nat)
    requires k < |Infos(alert)| && j < RowsFor(Infos(alert)[k])
    ensures var at := TextRows(alert)[k].start + j;
            at < |Rows(alert)| && StandsFor(Rows(alert)[at], alert, k, j)
    ensures TextRows(alert)[k].count == RowsFor(Infos(alert)[k])
  {
    hide ScopeOf, Infos, Areas, RowsOfInfos, Geocodes, Texts;
    var infos, outer := Infos(alert), ScopeOf(alert.children, ALERT);
    var info := infos[k];
    var scope := ScopeOf(info.children, INFO);
    InfoRowsAt(infos, |infos|, outer, k, j);
    if Areas(info) == [] {
      SumOfTwo(outer, scope);
    } else {
      var area := Areas(info)[j];
      AreaRowAt(Areas(info), k, |infos|, outer.Plus(scope), j);
      GeocodesSummed(Geocodes(area));
      SumOfThree(outer, scope, ScopeOf(area.children, AREA), ScopesOf(Geocodes(area), GEOCODE));
    }
  }

  /** An alert without info blocks has one row, for the alert alone. */
  lemma AlertRow(alert: Element)
    requires Infos(alert) == []
    ensures |Rows(alert)| == 1
    ensures var r := Rows(alert)[0];
            && r.kind == AlertWithoutInfo && r.info == None && r.area == None && r.infoCount == 0
            && r.counted == ScopeOf(alert.children, ALERT)
  {
  }

  // ---------------------------------------------------------------- texts

  lemma {:induction false} OnlyKid(children: seq<Element>, local: string, e: Element)
    requires Named(children, local) <= 1 && e in children && e.name == Cap(local)
    ensures Kids(children, local) == [e]
  {
    var i :| 0 <= i < |children| && children[i] == e;
    KidOfName(children, local, i);
    assert |Kids(children, local)| == 1;
  }

  lemma {:induction false} KidsNamed(children: seq<Element>, local: string)
    ensures forall e <- Kids(children, local) :: e in children && e.name == Cap(local)
  {
    if children != [] {
      KidsNamed(children[..|children| - 1], local);
    }
  }

  /** A text that may not repeat is carried exactly when the element has it, as the element's own text. */
  lemma TextExactly(children: seq<Element>, names: seq<string>, i: nat, text: string)
    requires i < |names| && Named(children, names[i]) <= 1
    ensures Texts(children, names)[i] == Some(text)
       <==> exists e <- children :: e.name == Cap(names[i]) && e.text == text
  {
    var local := names[i];
    KidsNamed(children, local);
    forall e <- children | e.name == Cap(local)
      ensures Kids(children, local) == [e]
    {
      OnlyKid(children, local, e);
    }
    if Kids(children, local) != [] {
      assert Kids(children, local)[0] in Kids(children, local);
    }
  }

  /** In an accepted alert no carried text can repeat, so this says what every text row and audience text holds. */
  lemma CarriedExactly(alert: Element, legal: Legal, k: nat, i: nat, text: string)
    requires Accepted(alert, legal)
    ensures k < |Infos(alert)| && i < 3 ==>
              (TextRows(alert)[k].texts[i] == Some(text)
               <==> exists e <- Infos(alert)[k].children :: e.name == Cap(TEXT_NAMES[i]) && e.text == text)
    ensures i < 2 ==>
              (Texts(alert.children, AUDIENCE_NAMES)[i] == Some(text)
               <==> exists e <- alert.children :: e.name == Cap(AUDIENCE_NAMES[i]) && e.text == text)
  {
    hide Infos, ValuesKept, AreaAccepted, Named, Texts, Rows, RowsOfInfos, InfoRows, ScopeOf;
    if i < 2 {
      AudienceSingle(i);
      TextExactly(alert.children, AUDIENCE_NAMES, i, text);
    }
    if k < |Infos(alert)| && i < 3 {
      var info := Infos(alert)[k];
      assert InfoAccepted(info, legal);
      TextSingle(i);
      TextExactly(info.children, TEXT_NAMES, i, text);
    }
  }

  lemma TextSingle(i: nat)
    requires i < 3
    ensures Known(INFO, TEXT_NAMES[i]) && TEXT_NAMES[i] !in INFO.repeatable
  {
    assert INFO.omitted[2] == "headline" && INFO.omitted[3] == "description" && INFO.omitted[4] == "instruction";
  }

  lemma AudienceSingle(i: nat)
    requires i < 2
    ensures Known(ALERT, AUDIENCE_NAMES[i]) && AUDIENCE_NAMES[i] !in ALERT.repeatable
  {
    assert ALERT.omitted[0] == "restriction" && ALERT.omitted[1] == "addresses";
  }
}
