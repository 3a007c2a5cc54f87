/**
  * Which claim an address's state comes from, and what an observation may be told, in terms of the claims alone: an
  * address is rewritten by exactly the claims listed here, its version counts them, and the last of them fixes its
  * time and status.
  */
module NameStates {
  import opened Common
  import opened NameEpochs

  /** The name whose most recent claim is at the address, where no two names ever resided together. */
  ghost predicate ResidesAlone(history: seq<Claim>, a: Address, n: Name) {
    Residence(history, n) == Some(a) && !EverCollided(history, a)
  }

  /**
    * Claim `k` rewrites the address: it is made there, by a name that does not reside there alone already; or it is
    * made elsewhere, by the name that does.
    */
  ghost predicate Rewrites(history: seq<Claim>, k: nat, a: Address)
    requires k < |history|
  {
    var c, before := history[k], history[..k];
    if c.address == a then a != CANNOT_CLAIM_ADDRESS && !ResidesAlone(before, a, c.name)
    else ResidesAlone(before, a, c.name)
  }

  ghost predicate LastRewrite(history: seq<Claim>, a: Address, k: nat) {
    && k < |history| && Rewrites(history, k, a)
    && forall j | k < j < |history| :: !Rewrites(history, j, a)
  }

  ghost function RewriteCount(history: seq<Claim>, a: Address): nat {
    if history == [] then 0
    else RewriteCount(history[..|history| - 1], a) + if Rewrites(history, |history| - 1, a) then 1 else 0
  }

  /** The status that the rewriting claim `k` leaves. */
  ghost function StatusLeft(history: seq<Claim>, k: nat, a: Address): Status
    requires k < |history|
  {
    if EverCollided(history[..k + 1], a) then Contested
    else if history[k].address == a then if EverClaimed(history[..k], a) then Reassigned else ClaimedEarlier
    else if history[k].address == CANNOT_CLAIM_ADDRESS then MovedOrReleased
    else Moved
  }

  lemma ShownAlone(e: Epochs, history: seq<Claim>, a: Address, n: Name)
    requires AddressMeans(e, history, a)
    ensures Shows(e, a, n) <==> ResidesAlone(history, a, n)
  {
    ResidentClaimed(history, n);
  }

  /** One claim: it rewrites exactly as said, and otherwise leaves the address alone. */
  lemma OneClaim(e: Epochs, history: seq<Claim>, c: Claim, a: Address)
    requires Means(e, history)
    ensures Rewrites(history + [c], |history|, a) ==>
              var after := Claimed(e, c);
              && VersionOf(after, a) == VersionOf(e, a) + 1 && a in after.byAddress
              && after.byAddress[a].since == c.time
              && after.byAddress[a].status == StatusLeft(history + [c], |history|, a)
    ensures !Rewrites(history + [c], |history|, a) ==>
              VersionOf(Claimed(e, c), a) == VersionOf(e, a) && SameState(e, Claimed(e, c), a)
  {
    hide Claimed, Residence, EverCollided, EverClaimed, ResidesAlone;
    var longer := history + [c];
    assert longer[..|history|] == history && longer[..|longer|] == longer;
    ClaimKeepsMeaning(e, history, c);
    assert AddressMeans(e, history, a) && AddressMeans(Claimed(e, c), longer, a);
    ShownAlone(e, history, a, c.name);
    if a == c.address {
      if a != CANNOT_CLAIM_ADDRESS {
        HeldMeansOwned(e, history, a);
        ClaimHere(e, c);
      } else {
        NoneThere(e, history, c);
        ClaimNowhere(e, c);
      }
    } else {
      HeldMeansOwned(e, history, a);
      ClaimElsewhere(e, c, a);
    }
  }

  /** What a claim makes of its own address. */
  lemma ClaimHere(e: Epochs, c: Claim)
    requires c.address != CANNOT_CLAIM_ADDRESS
    requires c.address in e.byAddress && e.byAddress[c.address].status == Contested
             ==> e.byAddress[c.address].name == None
    ensures var a, after := c.address, Claimed(e, c);
            if Shows(e, a, c.name) then SameState(e, after, a) && VersionOf(after, a) == VersionOf(e, a)
            else && VersionOf(after, a) == VersionOf(e, a) + 1
                 && a in after.byAddress && after.byAddress[a].since == c.time
                 && (if a !in e.byAddress then after.byAddress[a].status == ClaimedEarlier
                     else after.byAddress[a].status == Contested || after.byAddress[a].status == Reassigned)
  {
  }

  /** The Cannot Claim address never enters the dictionaries. */
  lemma ClaimNowhere(e: Epochs, c: Claim)
    requires c.address == CANNOT_CLAIM_ADDRESS && c.address !in e.byAddress
    requires c.name in e.owner ==> e.owner[c.name] != c.address
    ensures SameState(e, Claimed(e, c), c.address) && VersionOf(Claimed(e, c), c.address) == VersionOf(e, c.address)
  {
  }

  lemma NoneThere(e: Epochs, history: seq<Claim>, c: Claim)
    requires Means(e, history)
    ensures CANNOT_CLAIM_ADDRESS !in e.byAddress
    ensures c.name in e.owner ==> e.owner[c.name] != CANNOT_CLAIM_ADDRESS
  {
    assert AddressMeans(e, history, CANNOT_CLAIM_ADDRESS);
    ResidentClaimed(history, c.name);
  }

  /** The address that shows the claiming name is emptied, and any other is left alone. */
  ghost predicate Emptied(e: Epochs, after: Epochs, c: Claim, a: Address, status: Status) {
    if Shows(e, a, c.name) then
      && VersionOf(after, a) == VersionOf(e, a) + 1 && a in after.byAddress
      && after.byAddress[a] == AddressState(None, status, c.time)
    else SameState(e, after, a) && VersionOf(after, a) == VersionOf(e, a)
  }

  /** An address that shows a name is owned by it. */
  predicate OwnedIfShown(e: Epochs, a: Address, n: Name) {
    Shows(e, a, n) ==> n in e.owner && e.owner[n] == a
  }

  lemma Vacates(e: Epochs, c: Claim, a: Address, status: Status)
    requires OwnedIfShown(e, a, c.name)
    ensures Emptied(e, Vacated(e, c.name, status, c.time), c, a, status)
  {
  }

  lemma SettlesElsewhere(e: Epochs, c: Claim, a: Address, current: Option<AddressState>)
    requires a != c.address
    ensures SameState(e, Settled(e, c, current), a) && VersionOf(Settled(e, c, current), a) == VersionOf(e, a)
  {
  }

  /** What a claim made elsewhere makes of an address. */
  lemma ClaimElsewhere(e: Epochs, c: Claim, a: Address)
    requires a != c.address && OwnedIfShown(e, a, c.name)
    ensures Emptied(e, Claimed(e, c), c, a, if c.address == CANNOT_CLAIM_ADDRESS then MovedOrReleased else Moved)
  {
    hide Vacated, Settled;
    if c.address == CANNOT_CLAIM_ADDRESS {
      Vacates(e, c, a, MovedOrReleased);
    } else {
      Vacates(e, c, a, Moved);
      var moved := if c.name in e.owner && e.owner[c.name] != c.address
                   then Vacated(e, c.name, Moved, c.time) else e;
      SettlesElsewhere(moved.(owner := moved.owner[c.name := c.address]), c, a,
                       if c.address in e.byAddress then Some(e.byAddress[c.address]) else None);
    }
  }

  // ---------------------------------------------------------------- over every run

  /** The state of an address is what its last rewriting claim left, and shows whoever resides there alone. */
  ghost predicate Explained(e: Epochs, history: seq<Claim>, a: Address) {
    && VersionOf(e, a) == RewriteCount(history, a)
    && (a in e.byAddress <==> exists k: nat :: LastRewrite(history, a, k))
    && (a in e.byAddress <==> a != CANNOT_CLAIM_ADDRESS && EverClaimed(history, a))
    && (a in e.byAddress ==> forall n: Name :: e.byAddress[a].name == Some(n) <==> ResidesAlone(history, a, n))
    && (forall k: nat | LastRewrite(history, a, k) ::
          k < |history| && a in e.byAddress && e.byAddress[a].since == history[k].time
          && e.byAddress[a].status == StatusLeft(history, k, a))
  }

  lemma RewritesSnoc(history: seq<Claim>, c: Claim, a: Address, k: nat)
    requires k < |history|
    ensures Rewrites(history + [c], k, a) <==> Rewrites(history, k, a)
    ensures StatusLeft(history + [c], k, a) == StatusLeft(history, k, a)
  {
    hide ResidesAlone, EverCollided, EverClaimed;
    var longer := history + [c];
    assert longer[..k] == history[..k] && longer[..k + 1] == history[..k + 1] && longer[k] == history[k];
  }

  /** The last rewriting claim after one more. */
  lemma LastRewriteSnoc(history: seq<Claim>, c: Claim, a: Address, k: nat)
    ensures LastRewrite(history + [c], a, k)
       <==> if Rewrites(history + [c], |history|, a) then k == |history| else LastRewrite(history, a, k)
  {
    hide Rewrites;
    forall j: nat | j < |history|
      ensures Rewrites(history + [c], j, a) <==> Rewrites(history, j, a)
    {
      RewritesSnoc(history, c, a, j);
    }
  }

  lemma {:induction false} StateExplained(history: seq<Claim>, a: Address)
    ensures Explained(Run(history), history, a)
  {
    hide Rewrites, LastRewrite, Claimed, ResidesAlone, EverClaimed, StatusLeft;
    RunMeans(history);
    assert AddressMeans(Run(history), history, a);
    forall n: Name
      ensures a in Run(history).byAddress
              ==> (Run(history).byAddress[a].name == Some(n) <==> ResidesAlone(history, a, n))
    {
      ShownAlone(Run(history), history, a, n);
    }
    if history == [] {
      NothingRewritten(a);
    } else {
      var before, c := history[..|history| - 1], history[|history| - 1];
      assert before + [c] == history;
      StateExplained(before, a);
      RunMeans(before);
      OneClaim(Run(before), before, c, a);
      LastRewrites(before, c, a);
      if Rewrites(history, |before|, a) {
        assert LastRewrite(history, a, |before|);
      } else if k: nat :| LastRewrite(before, a, k) {
        assert LastRewrite(history, a, k);
      }
    }
  }

  /** Which claim comes last after one more, for all claims at once. */
  lemma LastRewrites(before: seq<Claim>, c: Claim, a: Address)
    ensures Rewrites(before + [c], |before|, a)
            ==> forall k: nat {:trigger LastRewrite(before + [c], a, k)} ::
                  LastRewrite(before + [c], a, k) <==> k == |before|
    ensures !Rewrites(before + [c], |before|, a)
            ==> && (forall k: nat {:trigger LastRewrite(before + [c], a, k)} {:trigger LastRewrite(before, a, k)} ::
                      LastRewrite(before + [c], a, k) <==> LastRewrite(before, a, k))
                && (forall k: nat | LastRewrite(before, a, k) ::
                      && k < |before| && (before + [c])[k] == before[k]
                      && StatusLeft(before + [c], k, a) == StatusLeft(before, k, a))
  {
    hide Rewrites, LastRewrite, StatusLeft;
    forall k: nat
      ensures LastRewrite(before + [c], a, k)
         <==> if Rewrites(before + [c], |before|, a) then k == |before| else LastRewrite(before, a, k)
    {
      LastRewriteSnoc(before, c, a, k);
    }
    forall k: nat | LastRewrite(before, a, k)
      ensures k < |before| && (before + [c])[k] == before[k]
      ensures StatusLeft(before + [c], k, a) == StatusLeft(before, k, a)
    {
      LastWithin(before, a, k);
      RewritesSnoc(before, c, a, k);
    }
  }

  lemma LastWithin(history: seq<Claim>, a: Address, k: nat)
    requires LastRewrite(history, a, k)
    ensures k < |history|
  {
  }

  lemma NothingRewritten(a: Address)
    ensures !EverClaimed([], a) && forall k: nat :: !LastRewrite([], a, k)
  {
  }

  /**
    * What an observation at `time` may be told, from the claims alone: nothing before a first claim, nothing at the
    * very time of the address's last rewrite, and otherwise exactly the name that resides there alone, with the
    * status that rewrite left.
    */
  lemma AssociationExactly(history: seq<Claim>, time: nat, a: Address)
    ensures var (name, basis) := AssociationOf(Run(history), time, a);
            && (basis == NoPriorClaim <==> a == CANNOT_CLAIM_ADDRESS || !EverClaimed(history, a))
            && (basis == NoPriorClaim <==> !exists k: nat :: LastRewrite(history, a, k))
            && (basis == NoPriorClaim ==> name == None)
            && forall k: nat | LastRewrite(history, a, k) ::
                 && k < |history|
                 && (basis == SameTimeAsClaim <==> history[k].time == time)
                 && (history[k].time != time ==> basis == Known(StatusLeft(history, k, a)))
                 && forall n: Name :: name == Some(n) <==> ResidesAlone(history, a, n) && history[k].time != time
  {
    hide LastRewrite, ResidesAlone, StatusLeft, EverClaimed, Run;
    StateExplained(history, a);
  }

  /** The status reported of a claim is the one its address's last rewrite left. */
  lemma ReportedExactly(history: seq<Claim>, a: Address)
    requires a == CANNOT_CLAIM_ADDRESS || EverClaimed(history, a)
    ensures a == CANNOT_CLAIM_ADDRESS ==> ReportedStatus(Run(history), a) == CannotClaimReported
    ensures a != CANNOT_CLAIM_ADDRESS ==>
              exists k: nat | k < |history| ::
                LastRewrite(history, a, k) && ReportedStatus(Run(history), a) == StatusLeft(history, k, a)
  {
    hide LastRewrite, ResidesAlone, StatusLeft, EverClaimed, Run;
    StateExplained(history, a);
  }
}
