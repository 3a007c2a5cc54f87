/**
  * J1939 address claims within one capture. `NameEpochs` keeps three dictionaries up to date in place;
  * `Epochs` is their value and `Claimed` what one claim makes of it. The rest of the module says, over every
  * run of claims, what the dictionaries mean in terms of the claims alone.
  */
module NameEpochs {
  import opened Common

  type Address = nat
  type Name = nat

  const CANNOT_CLAIM_ADDRESS: Address := 254

  datatype Status =
    | ClaimedEarlier | Reassigned | Moved | MovedOrReleased | Contested
    // what `claim` reports for the Cannot Claim address, which never enters the dictionaries
    | CannotClaimReported

  datatype AddressState = AddressState(name: Option<Name>, status: Status, since: nat)

  datatype Epochs = Epochs(byAddress: map<Address, AddressState>, owner: map<Name, Address>,
                           version: map<Address, nat>)

  datatype Claim = Claim(time: nat, address: Address, name: Name)

  predicate Shows(e: Epochs, address: Address, name: Name) {
    address in e.byAddress && e.byAddress[address].name == Some(name)
  }

  function VersionOf(e: Epochs, address: Address): nat {
    if address in e.version then e.version[address] else 0
  }

  function Rewritten(e: Epochs, address: Address, state: AddressState): Epochs {
    e.(byAddress := e.byAddress[address := state], version := e.version[address := VersionOf(e, address) + 1])
  }

  /** The old holder of a name that appears somewhere else, or nowhere, stops showing it. */
  function Vacated(e: Epochs, name: Name, status: Status, time: nat): Epochs {
    if name in e.owner && Shows(e, e.owner[name], name)
    then Rewritten(e, e.owner[name], AddressState(None, status, time))
    else e
  }

  /** One claim, as the source's branches decide it. */
  function Claimed(e: Epochs, c: Claim): Epochs {
    if c.address == CANNOT_CLAIM_ADDRESS then
      Vacated(e, c.name, MovedOrReleased, c.time).(owner := e.owner - {c.name})
    else
      var moved := if c.name in e.owner && e.owner[c.name] != c.address
                   then Vacated(e, c.name, Moved, c.time) else e;
      Settled(moved.(owner := moved.owner[c.name := c.address]), c,
              if c.address in e.byAddress then Some(e.byAddress[c.address]) else None)
  }

  function Settled(e: Epochs, c: Claim, current: Option<AddressState>): Epochs {
    match current
    case None => Rewritten(e, c.address, AddressState(Some(c.name), ClaimedEarlier, c.time))
    case Some(state) =>
      if state.status == Contested then Rewritten(e, c.address, AddressState(None, Contested, c.time))
      else if state.name == None then Rewritten(e, c.address, AddressState(Some(c.name), Reassigned, c.time))
      else if state.name == Some(c.name) then e
      else if (state.name.value in e.owner && e.owner[state.name.value] == c.address) || state.since == c.time then
        Rewritten(e, c.address, AddressState(None, Contested, c.time))
      else Rewritten(e, c.address, AddressState(Some(c.name), Reassigned, c.time))
  }

  function ReportedStatus(e: Epochs, address: Address): Status {
    if address == CANNOT_CLAIM_ADDRESS then CannotClaimReported
    else if address in e.byAddress then e.byAddress[address].status
    else ClaimedEarlier
  }

  datatype AssociationStatus = NoPriorClaim | SameTimeAsClaim | Known(status: Status)

  /** The name an observation at `time` from `address` may carry, and on what basis. */
  function AssociationOf(e: Epochs, time: nat, address: Address): (Option<Name>, AssociationStatus) {
    if address !in e.byAddress then (None, NoPriorClaim)
    else
      var state := e.byAddress[address];
      if state.since == time then (None, SameTimeAsClaim) else (state.name, Known(state.status))
  }

  const EMPTY := Epochs(map[], map[], map[])

  // ---------------------------------------------------------------- the class

  class Tracker {
    var byAddress: map<Address, AddressState>
    var owner: map<Name, Address>
    var version: map<Address, nat>

    ghost function Value(): Epochs
      reads this
    {
      Epochs(byAddress, owner, version)
    }

    constructor ()
      ensures Value() == EMPTY
    {
      byAddress, owner, version := map[], map[], map[];
    }

    method Set(address: Address, name: Option<Name>, status: Status, since: nat)
      modifies this
      ensures Value() == Rewritten(old(Value()), address, AddressState(name, status, since))
    {
      byAddress := byAddress[address := AddressState(name, status, since)];
      version := version[address := (if address in version then version[address] else 0) + 1];
    }

    method TakeClaim(time: nat, address: Address, name: Name) returns (status: Status)
      modifies this
      ensures Value() == Claimed(old(Value()), Claim(time, address, name))
      ensures status == ReportedStatus(Value(), address)
    {
      if address == CANNOT_CLAIM_ADDRESS {
        if name in owner {
          var old_ := owner[name];
          owner := owner - {name};
          if old_ in byAddress && byAddress[old_].name == Some(name) {
            Set(old_, None, MovedOrReleased, time);
          }
        } else {
          assert owner - {name} == owner;
        }
        return CannotClaimReported;
      }
      var current := if address in byAddress then Some(byAddress[address]) else None;
      if name in owner && owner[name] != address && owner[name] in byAddress
         && byAddress[owner[name]].name == Some(name) {
        Set(owner[name], None, Moved, time);
      }
      owner := owner[name := address];
      if current.Some? && current.value.status == Contested {
        Set(address, None, Contested, time);
      } else if current.None? {
        Set(address, Some(name), ClaimedEarlier, time);
      } else if current.value.name.None? {
        Set(address, Some(name), Reassigned, time);
      } else if current.value.name != Some(name) {
        var holder := current.value.name.value;
        var previousStillHere := holder in owner && owner[holder] == address;
        if previousStillHere || current.value.since == time {
          Set(address, None, Contested, time);
        } else {
          Set(address, Some(name), Reassigned, time);
        }
      }
      return byAddress[address].status;
    }

    method Association(time: nat, address: Address) returns (name: Option<Name>, basis: AssociationStatus)
      ensures (name, basis) == AssociationOf(Value(), time, address)
    {
      if address !in byAddress {
        return None, NoPriorClaim;
      }
      var state := byAddress[address];
      if state.since == time {
        return None, SameTimeAsClaim;
      }
      return state.name, Known(state.status);
    }
  }

  // ---------------------------------------------------------------- runs of claims

  function Run(history: seq<Claim>): Epochs {
    if history == [] then EMPTY else Claimed(Run(history[..|history| - 1]), history[|history| - 1])
  }

  /** The address of a name's most recent claim, where Cannot Claim counts as holding none. */
  function Residence(history: seq<Claim>, name: Name): Option<Address> {
    if history == [] then None
    else
      var last := history[|history| - 1];
      if last.name != name then Residence(history[..|history| - 1], name)
      else if last.address == CANNOT_CLAIM_ADDRESS then None
      else Some(last.address)
  }

  /** Two names have their most recent claims at one address at the same moment. */
  ghost predicate Collision(history: seq<Claim>, address: Address) {
    exists m, n :: m != n && Residence(history, m) == Some(address) && Residence(history, n) == Some(address)
  }

  ghost predicate EverCollided(history: seq<Claim>, address: Address) {
    exists k | 0 <= k <= |history| :: Collision(history[..k], address)
  }

  predicate EverClaimed(history: seq<Claim>, address: Address) {
    exists k | 0 <= k < |history| :: history[k].address == address
  }

  /**
    * What the dictionaries mean: ownership is residence; an address is contested exactly when two names ever
    * resided there together; and any other claimed address shows exactly its resident name, if it has one.
    */
  ghost predicate OwnersMean(e: Epochs, history: seq<Claim>) {
    && (forall n: Name :: n in e.owner <==> Residence(history, n).Some?)
    && (forall n: Name :: n in e.owner ==> Residence(history, n) == Some(e.owner[n]))
  }

  ghost predicate AddressMeans(e: Epochs, history: seq<Claim>, a: Address) {
    && (a in e.byAddress <==> a != CANNOT_CLAIM_ADDRESS && EverClaimed(history, a))
    && (a in e.byAddress ==>
          var state := e.byAddress[a];
          && (state.status == Contested <==> EverCollided(history, a))
          && (state.status == Contested ==> state.name == None)
          && (state.status != Contested
              ==> forall n: Name :: state.name == Some(n) <==> Residence(history, n) == Some(a)))
  }

  ghost predicate Means(e: Epochs, history: seq<Claim>) {
    OwnersMean(e, history) && forall a: Address :: AddressMeans(e, history, a)
  }

  lemma {:induction false} ResidentClaimed(history: seq<Claim>, name: Name)
    ensures Residence(history, name).Some?
            ==> Residence(history, name).value != CANNOT_CLAIM_ADDRESS
                && EverClaimed(history, Residence(history, name).value)
  {
    if history != [] {
      var before := history[..|history| - 1];
      ResidentClaimed(before, name);
      if Residence(before, name).Some? && EverClaimed(before, Residence(before, name).value) {
        var k :| 0 <= k < |before| && before[k].address == Residence(before, name).value;
        assert history[k] == before[k];
      }
    }
  }

  lemma ResidenceSnoc(history: seq<Claim>, c: Claim, name: Name)
    ensures Residence(history + [c], name)
            == if name != c.name then Residence(history, name)
               else if c.address == CANNOT_CLAIM_ADDRESS then None else Some(c.address)
  {
    assert (history + [c])[..|history|] == history;
  }

  lemma ClaimedSnoc(history: seq<Claim>, c: Claim, a: Address)
    ensures EverClaimed(history + [c], a) <==> EverClaimed(history, a) || c.address == a
  {
    var longer := history + [c];
    if EverClaimed(history, a) {
      var k :| 0 <= k < |history| && history[k].address == a;
      assert longer[k] == history[k];
    }
    assert longer[|history|] == c;
  }

  lemma CollidedSnoc(history: seq<Claim>, c: Claim, a: Address)
    ensures EverCollided(history + [c], a) <==> EverCollided(history, a) || Collision(history + [c], a)
  {
    var longer := history + [c];
    assert longer[..|longer|] == longer;
    forall k | 0 <= k <= |history|
      ensures longer[..k] == history[..k]
    {
    }
    if EverCollided(history, a) {
      var k :| 0 <= k <= |history| && Collision(history[..k], a);
      assert Collision(longer[..k], a);
    }
    if EverCollided(longer, a) && !Collision(longer, a) {
      var k :| 0 <= k <= |longer| && Collision(longer[..k], a);
      assert Collision(history[..k], a);
    }
  }

  /** A claim elsewhere can only empty an address. */
  lemma NoNewCollision(history: seq<Claim>, c: Claim, a: Address)
    requires a != c.address
    ensures EverCollided(history + [c], a) <==> EverCollided(history, a)
  {
    CollidedSnoc(history, c, a);
    if Collision(history + [c], a) {
      var m, n :| m != n && Residence(history + [c], m) == Some(a) && Residence(history + [c], n) == Some(a);
      ResidenceSnoc(history, c, m);
      ResidenceSnoc(history, c, n);
      assert Collision(history, a);
      assert history[..|history|] == history;
    }
  }

  /** A claim collides with whoever else resides at its address. */
  lemma CollisionAtClaim(history: seq<Claim>, c: Claim)
    requires c.address != CANNOT_CLAIM_ADDRESS
    ensures Collision(history + [c], c.address)
            <==> exists m :: m != c.name && Residence(history, m) == Some(c.address)
  {
    ResidenceSnoc(history, c, c.name);
    if Collision(history + [c], c.address) {
      var m, n :| m != n && Residence(history + [c], m) == Some(c.address)
                  && Residence(history + [c], n) == Some(c.address);
      ResidenceSnoc(history, c, m);
      ResidenceSnoc(history, c, n);
    }
    if m :| m != c.name && Residence(history, m) == Some(c.address) {
      ResidenceSnoc(history, c, m);
      assert Residence(history + [c], m) == Some(c.address);
    }
  }

  /** Owners after a claim. */
  lemma OwnersKeepMeaning(e: Epochs, history: seq<Claim>, c: Claim)
    requires OwnersMean(e, history)
    ensures OwnersMean(Claimed(e, c), history + [c])
  {
    forall n: Name
      ensures n in Claimed(e, c).owner <==> Residence(history + [c], n).Some?
      ensures n in Claimed(e, c).owner ==> Residence(history + [c], n) == Some(Claimed(e, c).owner[n])
    {
      ResidenceSnoc(history, c, n);
    }
  }

  lemma ElsewhereState(e: Epochs, c: Claim, a: Address)
    requires a != c.address
    ensures a in Claimed(e, c).byAddress <==> a in e.byAddress
    ensures a in e.byAddress ==>
              if Shows(e, a, c.name) && c.name in e.owner && e.owner[c.name] == a
              then Claimed(e, c).byAddress[a].name == None && Claimed(e, c).byAddress[a].status != Contested
              else Claimed(e, c).byAddress[a] == e.byAddress[a]
  {
  }

  /** An address other than the claim's own: it changes only if the claiming name was shown there. */
  lemma ElsewhereKeepsMeaning(e: Epochs, history: seq<Claim>, c: Claim, a: Address)
    requires OwnersMean(e, history) && AddressMeans(e, history, a) && a != c.address
    ensures AddressMeans(Claimed(e, c), history + [c], a)
  {
    hide Claimed, Residence, EverClaimed, EverCollided;
    ClaimedSnoc(history, c, a);
    NoNewCollision(history, c, a);
    forall n: Name
      ensures Residence(history + [c], n) == Some(a) <==> Residence(history, n) == Some(a) && n != c.name
    {
      ResidenceSnoc(history, c, n);
    }
    ElsewhereState(e, c, a);
    assert Residence(history, c.name) == Some(a) <==> c.name in e.owner && e.owner[c.name] == a;
    assert a in e.byAddress && e.byAddress[a].status != Contested
           ==> (Shows(e, a, c.name) <==> Residence(history, c.name) == Some(a));
  }

  /** The claim's own address: it is contested exactly when somebody else resides there. */
  lemma AtClaimKeepsMeaning(e: Epochs, history: seq<Claim>, c: Claim)
    requires OwnersMean(e, history) && AddressMeans(e, history, c.address)
    ensures AddressMeans(Claimed(e, c), history + [c], c.address)
  {
    var a := c.address;
    ClaimedSnoc(history, c, a);
    if a != CANNOT_CLAIM_ADDRESS {
      CollidedSnoc(history, c, a);
      CollisionAtClaim(history, c);
      forall n: Name
        ensures Residence(history + [c], n) == Some(a) <==> Residence(history, n) == Some(a) || n == c.name
        ensures Residence(history, n) == Some(a) ==> a in e.byAddress
      {
        ResidenceSnoc(history, c, n);
        ResidentClaimed(history, n);
      }
      HeldMeansOwned(e, history, a);
      if a in e.byAddress && e.byAddress[a].name.Some? {
        var holder := e.byAddress[a].name.value;
        assert Residence(history, holder) == Some(a);
        ResidenceSnoc(history, c, holder);
        ResidenceSnoc(history, c, c.name);
      }
      CollidedWasClaimed(history, a);
    }
  }

  lemma CollidedWasClaimed(history: seq<Claim>, a: Address)
    ensures EverCollided(history, a) ==> EverClaimed(history, a)
  {
    if EverCollided(history, a) {
      var k :| 0 <= k <= |history| && Collision(history[..k], a);
      var m :| Residence(history[..k], m) == Some(a);
      ResidentClaimed(history[..k], m);
      var i :| 0 <= i < k && history[..k][i].address == a;
      assert history[i].address == a;
    }
  }

  /** An address that shows a name is that name's current owner. */
  lemma HeldMeansOwned(e: Epochs, history: seq<Claim>, a: Address)
    requires OwnersMean(e, history) && AddressMeans(e, history, a)
    ensures a in e.byAddress && e.byAddress[a].name.Some?
            ==> e.byAddress[a].name.value in e.owner && e.owner[e.byAddress[a].name.value] == a
  {
  }

  lemma ClaimKeepsMeaning(e: Epochs, history: seq<Claim>, c: Claim)
    requires Means(e, history)
    ensures Means(Claimed(e, c), history + [c])
  {
    OwnersKeepMeaning(e, history, c);
    forall a: Address
      ensures AddressMeans(Claimed(e, c), history + [c], a)
    {
      if a == c.address {
        AtClaimKeepsMeaning(e, history, c);
      } else {
        ElsewhereKeepsMeaning(e, history, c, a);
      }
    }
  }

  /** After every run of claims the dictionaries mean what the claims say. */
  lemma {:induction false} RunMeans(history: seq<Claim>)
    ensures Means(Run(history), history)
  {
    if history != [] {
      var before := history[..|history| - 1];
      RunMeans(before);
      ClaimKeepsMeaning(Run(before), before, history[|history| - 1]);
      assert before + [history[|history| - 1]] == history;
    } else {
      forall a: Address
        ensures AddressMeans(EMPTY, [], a)
      {
        assert !EverCollided([], a);
      }
    }
  }

  // ---------------------------------------------------------------- the promises, over every run

  /** An address shows exactly the name that resides there, unless two names ever resided there together. */
  lemma ShowsExactly(history: seq<Claim>, a: Address, n: Name)
    ensures Shows(Run(history), a, n) <==> Residence(history, n) == Some(a) && !EverCollided(history, a)
  {
    RunMeans(history);
    ResidentClaimed(history, n);
    assert AddressMeans(Run(history), history, a);
  }

  /** No name is ever shown at two addresses. */
  lemma OneAddressPerName(history: seq<Claim>, a: Address, b: Address, n: Name)
    requires Shows(Run(history), a, n) && Shows(Run(history), b, n)
    ensures a == b
  {
    ShowsExactly(history, a, n);
    ShowsExactly(history, b, n);
  }

  /**
    * A different name claiming a held address always makes it contested: the holder still owns the address,
    * so the branch that would reassign a held address is never taken, at any time of claim.
    */
  lemma HeldAddressIsContested(history: seq<Claim>, c: Claim, holder: Name)
    requires Shows(Run(history), c.address, holder) && c.name != holder
    ensures holder in Run(history).owner && Run(history).owner[holder] == c.address
    ensures var after := Run(history + [c]);
            c.address in after.byAddress
            && after.byAddress[c.address] == AddressState(None, Contested, c.time)
  {
    RunMeans(history);
    assert AddressMeans(Run(history), history, c.address);
    HeldMeansOwned(Run(history), history, c.address);
    assert (history + [c])[..|history|] == history;
  }

  /** Once contested, an address never shows a name again, whatever is claimed later. */
  lemma ContestedForever(history: seq<Claim>, later: seq<Claim>, a: Address)
    requires a in Run(history).byAddress && Run(history).byAddress[a].status == Contested
    ensures a in Run(history + later).byAddress
    ensures Run(history + later).byAddress[a].status == Contested && Run(history + later).byAddress[a].name == None
  {
    var all := history + later;
    RunMeans(history);
    RunMeans(all);
    assert AddressMeans(Run(history), history, a) && AddressMeans(Run(all), all, a);
    var k :| 0 <= k <= |history| && Collision(history[..k], a);
    assert all[..k] == history[..k];
    CollidedWasClaimed(all, a);
  }

  /** The first claim of an address, and only a first claim, is not a reassignment. */
  lemma FirstClaimShows(history: seq<Claim>, c: Claim)
    requires c.address != CANNOT_CLAIM_ADDRESS && !EverClaimed(history, c.address)
    ensures Run(history + [c]).byAddress.Keys >= {c.address}
    ensures Run(history + [c]).byAddress[c.address] == AddressState(Some(c.name), ClaimedEarlier, c.time)
  {
    RunMeans(history);
    assert AddressMeans(Run(history), history, c.address);
    assert (history + [c])[..|history|] == history;
  }

  /** Versions only grow, and an address whose version stood still kept its whole state. */
  lemma VersionsGrow(e: Epochs, c: Claim, a: Address)
    ensures VersionOf(Claimed(e, c), a) >= VersionOf(e, a)
    ensures VersionOf(Claimed(e, c), a) == VersionOf(e, a) ==>
              (a in e.byAddress <==> a in Claimed(e, c).byAddress)
              && (a in e.byAddress ==> Claimed(e, c).byAddress[a] == e.byAddress[a])
  {
  }

  predicate SameState(e: Epochs, f: Epochs, a: Address) {
    && (a in e.byAddress <==> a in f.byAddress)
    && (a in e.byAddress ==> e.byAddress[a] == f.byAddress[a])
  }

  lemma {:induction false} StandingVersion(history: seq<Claim>, later: seq<Claim>, a: Address)
    ensures VersionOf(Run(history + later), a) >= VersionOf(Run(history), a)
    ensures VersionOf(Run(history + later), a) == VersionOf(Run(history), a)
            ==> SameState(Run(history), Run(history + later), a)
    decreases |later|
  {
    hide Claimed;
    if later == [] {
      assert history + later == history;
    } else {
      var all := history + later;
      assert all[..|all| - 1] == history + later[..|later| - 1];
      StandingVersion(history, later[..|later| - 1], a);
      VersionsGrow(Run(all[..|all| - 1]), all[|all| - 1], a);
    }
  }
}
