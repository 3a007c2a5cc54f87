/**
  * The NAME a completed multi-packet transfer may carry. A transfer spans an interval, and claims may arrive
  * inside it; the converter keeps the sender's version and association at the announcement and compares both
  * at completion.
  */
module NameTransfers {
  import opened Common
  import opened NameEpochs
  import opened NameStates

  /** Which exchange a transfer belongs to; a broadcast is known by its sender alone. */
  datatype Key = Broadcast(source: Address) | Addressed(source: Address, destination: Address)

  datatype Start = Start(version: nat, name: Option<Name>, basis: AssociationStatus)

  datatype TransferBasis = Constant(basis: AssociationStatus) | Withheld

  function StartOf(e: Epochs, key: Key, time: nat): Start {
    var (name, basis) := AssociationOf(e, time, key.source);
    Start(VersionOf(e, key.source), name, basis)
  }

  /** The NAME and basis attached to a transfer announced at `start` and completed now. */
  function Attached(e: Epochs, start: Start, key: Key, time: nat): (Option<Name>, TransferBasis) {
    var (name, basis) := AssociationOf(e, time, key.source);
    if VersionOf(e, key.source) != start.version || start.name != name || start.basis != basis
    then (None, Withheld) else (name, Constant(basis))
  }

  class Exchange {
    const epochs: Tracker
    var starts: map<Key, Start>

    constructor (epochs: Tracker)
      ensures this.epochs == epochs && starts == map[]
    {
      this.epochs := epochs;
      starts := map[];
    }

    method Announce(key: Key, time: nat)
      modifies this
      ensures starts == old(starts)[key := StartOf(epochs.Value(), key, time)]
    {
      var name, basis := epochs.Association(time, key.source);
      var version := if key.source in epochs.version then epochs.version[key.source] else 0;
      starts := starts[key := Start(version, name, basis)];
    }

    /** The transport layer completes only what it announced. */
    method Complete(key: Key, time: nat) returns (name: Option<Name>, basis: TransferBasis)
      requires key in starts
      modifies this
      ensures starts == old(starts) - {key}
      ensures (name, basis) == Attached(epochs.Value(), old(starts)[key], key, time)
    {
      var now, status := epochs.Association(time, key.source);
      var start := starts[key];
      starts := starts - {key};
      var version := if key.source in epochs.version then epochs.version[key.source] else 0;
      if version != start.version || start.name != now || start.basis != status {
        return None, Withheld;
      }
      return now, Constant(status);
    }
  }

  // ---------------------------------------------------------------- claims and transfers interleaved

  datatype Event = Claims(claim: Claim) | Announces(key: Key, time: nat) | Completes(key: Key, time: nat)

  function ClaimsIn(events: seq<Event>): seq<Claim> {
    if events == [] then []
    else
      var last := events[|events| - 1];
      ClaimsIn(events[..|events| - 1]) + (if last.Claims? then [last.claim] else [])
  }

  function EpochsAfter(events: seq<Event>): Epochs {
    Run(ClaimsIn(events))
  }

  function StartsAfter(events: seq<Event>): map<Key, Start> {
    if events == [] then map[]
    else
      var before, last := events[..|events| - 1], events[|events| - 1];
      match last
      case Claims(_) => StartsAfter(before)
      case Announces(key, time) => StartsAfter(before)[key := StartOf(EpochsAfter(before), key, time)]
      case Completes(key, _) => StartsAfter(before) - {key}
  }

  /** What the output says of a NAME: a claim's status after it, or what a completed transfer carries. */
  datatype Row = ClaimRow(claim: Claim, status: Status)
               | TransferRow(key: Key, name: Option<Name>, basis: TransferBasis)

  function RowsAfter(events: seq<Event>): seq<Row>
    requires Lawful(events)
  {
    if events == [] then []
    else
      var before, last := events[..|events| - 1], events[|events| - 1];
      RowsAfter(before) + match last
      case Claims(claim) => [ClaimRow(claim, ReportedStatus(EpochsAfter(events), claim.address))]
      case Announces(_, _) => []
      case Completes(key, time) =>
        var (name, basis) := Attached(EpochsAfter(before), StartsAfter(before)[key], key, time);
        [TransferRow(key, name, basis)]
  }

  /** The transport layer completes only what it announced. */
  ghost predicate Lawful(events: seq<Event>) {
    if events == [] then true
    else
      var before, last := events[..|events| - 1], events[|events| - 1];
      Lawful(before) && (last.Completes? ==> last.key in StartsAfter(before))
  }

  lemma {:induction false} LawfulBefore(events: seq<Event>, k: nat)
    requires Lawful(events) && k <= |events|
    ensures Lawful(events[..k])
  {
    if k < |events| {
      LawfulBefore(events[..|events| - 1], k);
      assert events[..|events| - 1][..k] == events[..k];
    } else {
      assert events[..k] == events;
    }
  }

  lemma EpochsNext(events: seq<Event>, k: nat)
    requires k < |events|
    ensures EpochsAfter(events[..k + 1])
            == if events[k].Claims? then Claimed(EpochsAfter(events[..k]), events[k].claim)
               else EpochsAfter(events[..k])
  {
    hide Claimed;
    assert events[..k + 1][..k] == events[..k];
    var claims := ClaimsIn(events[..k]);
    if events[k].Claims? {
      assert ClaimsIn(events[..k + 1]) == claims + [events[k].claim];
      assert (claims + [events[k].claim])[..|claims|] == claims;
    } else {
      assert ClaimsIn(events[..k + 1]) == claims;
    }
  }

  lemma StartsNext(events: seq<Event>, k: nat)
    requires Lawful(events) && k < |events|
    ensures StartsAfter(events[..k + 1])
            == match events[k]
               case Claims(_) => StartsAfter(events[..k])
               case Announces(key, time) =>
                 StartsAfter(events[..k])[key := StartOf(EpochsAfter(events[..k]), key, time)]
               case Completes(key, _) => StartsAfter(events[..k]) - {key}
    ensures events[k].Completes? ==> events[k].key in StartsAfter(events[..k])
  {
    hide EpochsAfter, StartOf;
    assert events[..k + 1][..k] == events[..k];
    LawfulBefore(events, k + 1);
  }

  /** The whole run: what the dictionaries hold at its end, and every row in order. */
  method Replay(events: seq<Event>) returns (epochs: Tracker, exchange: Exchange, rows: seq<Row>)
    requires Lawful(events)
    ensures epochs.Value() == EpochsAfter(events) && exchange.epochs == epochs
    ensures exchange.starts == StartsAfter(events)
    ensures rows == RowsAfter(events)
  {
    hide EpochsAfter, StartsAfter, StartOf, Attached, Claimed, ReportedStatus;
    epochs := new Tracker();
    exchange := new Exchange(epochs);
    rows := [];
    EmptyRun(events);
    var k := 0;
    while k < |events|
      invariant 0 <= k <= |events| && fresh(epochs) && fresh(exchange) && exchange.epochs == epochs
      invariant Lawful(events[..k]) && epochs.Value() == EpochsAfter(events[..k])
      invariant exchange.starts == StartsAfter(events[..k]) && rows == RowsAfter(events[..k])
    {
      EpochsNext(events, k);
      StartsNext(events, k);
      LawfulBefore(events, k + 1);
      assert events[..k + 1][..k] == events[..k];
      match events[k] {
        case Claims(claim) =>
          var status := epochs.TakeClaim(claim.time, claim.address, claim.name);
          rows := rows + [ClaimRow(claim, status)];
        case Announces(key, time) =>
          exchange.Announce(key, time);
        case Completes(key, time) =>
          var name, basis := exchange.Complete(key, time);
          rows := rows + [TransferRow(key, name, basis)];
      }
      k := k + 1;
    }
    assert events[..k] == events;
  }

  lemma EmptyRun(events: seq<Event>)
    ensures EpochsAfter(events[..0]) == EMPTY && StartsAfter(events[..0]) == map[]
  {
  }

  /** `i` is the announcement that the events after it leave open. */
  ghost predicate OpenSince(events: seq<Event>, key: Key, i: nat) {
    && i < |events| && events[i].Announces? && events[i].key == key
    && forall j | i < j < |events| :: events[j].Claims? || events[j].key != key
  }

  lemma {:induction false} StartIsAnnouncement(events: seq<Event>, key: Key)
    ensures key in StartsAfter(events) <==> exists i: nat :: OpenSince(events, key, i)
    ensures forall i: nat | OpenSince(events, key, i)
              :: key in StartsAfter(events)
                 && StartsAfter(events)[key] == StartOf(EpochsAfter(events[..i]), key, events[i].time)
  {
    hide StartOf, EpochsAfter;
    if events != [] {
      var before, last := events[..|events| - 1], events[|events| - 1];
      StartIsAnnouncement(before, key);
      forall i: nat | OpenSince(events, key, i)
        ensures key in StartsAfter(events)
        ensures StartsAfter(events)[key] == StartOf(EpochsAfter(events[..i]), key, events[i].time)
      {
        if i < |before| {
          assert forall j | i < j < |before| :: before[j] == events[j];
          assert OpenSince(before, key, i) && before[..i] == events[..i];
          assert last.Claims? || last.key != key;
        } else {
          assert events[..i] == before;
        }
      }
      if key in StartsAfter(events) {
        if last.Announces? && last.key == key {
          assert OpenSince(events, key, |before|);
        } else {
          var i: nat :| OpenSince(before, key, i);
          assert forall j | i < j < |before| :: before[j] == events[j];
          assert OpenSince(events, key, i);
        }
      }
    }
  }

  lemma {:induction false} ClaimsAppend(events: seq<Event>, later: seq<Event>)
    ensures ClaimsIn(events + later) == ClaimsIn(events) + ClaimsIn(later)
    decreases |later|
  {
    if later == [] {
      assert events + later == events;
    } else {
      var all := events + later;
      assert all[..|all| - 1] == events + later[..|later| - 1];
      ClaimsAppend(events, later[..|later| - 1]);
    }
  }

  /** From event `i` to event `j` nothing rewrote the address. */
  ghost predicate NeverRewritten(events: seq<Event>, a: Address, i: nat, j: nat)
    requires i <= j <= |events|
  {
    forall k | i <= k <= j :: VersionOf(EpochsAfter(events[..k]), a) == VersionOf(EpochsAfter(events[..i]), a)
  }

  lemma VersionsBetween(events: seq<Event>, a: Address, i: nat, k: nat)
    requires i <= k <= |events|
    ensures VersionOf(EpochsAfter(events[..k]), a) >= VersionOf(EpochsAfter(events[..i]), a)
    ensures VersionOf(EpochsAfter(events[..k]), a) == VersionOf(EpochsAfter(events[..i]), a)
            ==> SameState(EpochsAfter(events[..i]), EpochsAfter(events[..k]), a)
  {
    assert events[..k] == events[..i] + events[i..k];
    ClaimsAppend(events[..i], events[i..k]);
    StandingVersion(ClaimsIn(events[..i]), ClaimsIn(events[i..k]), a);
  }

  /** Equal versions at both ends mean no rewrite anywhere between. */
  lemma EqualEndsNeverRewritten(events: seq<Event>, a: Address, i: nat, j: nat)
    requires i <= j <= |events|
    ensures NeverRewritten(events, a, i, j)
            <==> VersionOf(EpochsAfter(events[..j]), a) == VersionOf(EpochsAfter(events[..i]), a)
  {
    if VersionOf(EpochsAfter(events[..j]), a) == VersionOf(EpochsAfter(events[..i]), a) {
      forall k | i <= k <= j
        ensures VersionOf(EpochsAfter(events[..k]), a) == VersionOf(EpochsAfter(events[..i]), a)
      {
        VersionsBetween(events, a, i, k);
        assert events[..j][..k] == events[..k];
        VersionsBetween(events, a, k, j);
      }
    }
  }

  /** No claim between event `i` and event `j` rewrites the address. */
  ghost predicate Untouched(events: seq<Event>, a: Address, i: nat, j: nat)
    requires i <= j <= |events|
  {
    forall k | i <= k < j && events[k].Claims? ::
      !Rewrites(ClaimsIn(events[..k]) + [events[k].claim], |ClaimsIn(events[..k])|, a)
  }

  /** What one event does to a version: a claim that rewrites the address raises it, and nothing else does. */
  lemma VersionNext(events: seq<Event>, a: Address, k: nat)
    requires k < |events|
    ensures var rewrites := events[k].Claims?
                            && Rewrites(ClaimsIn(events[..k]) + [events[k].claim], |ClaimsIn(events[..k])|, a);
            VersionOf(EpochsAfter(events[..k + 1]), a)
            == VersionOf(EpochsAfter(events[..k]), a) + if rewrites then 1 else 0
  {
    hide Claimed, Rewrites, Run;
    EpochsNext(events, k);
    if events[k].Claims? {
      RunMeans(ClaimsIn(events[..k]));
      OneClaim(EpochsAfter(events[..k]), ClaimsIn(events[..k]), events[k].claim, a);
    }
  }

  /** A version stands still exactly while no claim rewrites the address. */
  lemma {:induction false} UntouchedExactly(events: seq<Event>, a: Address, i: nat, j: nat)
    requires i <= j <= |events|
    ensures Untouched(events, a, i, j)
       <==> VersionOf(EpochsAfter(events[..j]), a) == VersionOf(EpochsAfter(events[..i]), a)
    decreases j
  {
    hide EpochsAfter, VersionOf, Rewrites, ClaimsIn;
    if i < j {
      UntouchedExactly(events, a, i, j - 1);
      VersionNext(events, a, j - 1);
      VersionsBetween(events, a, i, j - 1);
    }
  }

  /** When the address was last rewritten, at any time but this one. */
  ghost predicate RewrittenOtherThan(history: seq<Claim>, a: Address, time: nat) {
    exists k: nat | k < |history| :: LastRewrite(history, a, k) && history[k].time != time
  }

  /**
    * A completed transfer carries a NAME exactly when no claim between the announcement and the completion rewrites
    * the sender's address, that NAME resides there alone, and neither end is at the very time of the address's last
    * rewrite; whatever claims and other transfers were interleaved.
    */
  lemma TransferNameExactly(events: seq<Event>, key: Key, i: nat, time: nat, name: Name)
    requires OpenSince(events, key, i)
    ensures key in StartsAfter(events)
    ensures var a, history := key.source, ClaimsIn(events);
            Attached(EpochsAfter(events), StartsAfter(events)[key], key, time).0 == Some(name)
            <==> && Untouched(events, a, i, |events|) && ResidesAlone(history, a, name)
                 && RewrittenOtherThan(history, a, events[i].time) && RewrittenOtherThan(history, a, time)
  {
    hide Untouched, ResidesAlone, Claimed, LastRewrite, Run;
    TransferEnds(events, key, i, time);
    AssociationExactly(ClaimsIn(events), events[i].time, key.source);
    AssociationExactly(ClaimsIn(events), time, key.source);
    LastRewriteOnce(ClaimsIn(events), key.source);
  }

  lemma LastRewriteOnce(history: seq<Claim>, a: Address)
    ensures forall j: nat, k: nat | LastRewrite(history, a, j) && LastRewrite(history, a, k) :: j == k
  {
  }

  /** What is attached compares what an observation at either end would be told after all the events. */
  lemma TransferEnds(events: seq<Event>, key: Key, i: nat, time: nat)
    requires OpenSince(events, key, i)
    ensures key in StartsAfter(events)
    ensures var e, a := EpochsAfter(events), key.source;
            Attached(e, StartsAfter(events)[key], key, time)
            == if Untouched(events, a, i, |events|) && AssociationOf(e, events[i].time, a) == AssociationOf(e, time, a)
               then (AssociationOf(e, time, a).0, Constant(AssociationOf(e, time, a).1)) else (None, Withheld)
  {
    hide Untouched, Run;
    StartIsAnnouncement(events, key);
    UntouchedExactly(events, key.source, i, |events|);
    VersionsBetween(events, key.source, i, |events|);
    assert events[..|events|] == events;
  }

  /**
    * The basis of a transfer announced by event `i` and completed after all the events: no claim yet, an end at the
    * time of the last rewrite, the status that rewrite left, or withheld because the two ends differ.
    */
  ghost predicate TellsBasis(basis: TransferBasis, events: seq<Event>, a: Address, i: nat, time: nat)
    requires i < |events| && events[i].Announces?
  {
    var history := ClaimsIn(events);
    && (basis == Constant(NoPriorClaim)
        <==> Untouched(events, a, i, |events|) && (a == CANNOT_CLAIM_ADDRESS || !EverClaimed(history, a)))
    && forall k: nat | k < |history| && LastRewrite(history, a, k) ::
         && (basis == Constant(SameTimeAsClaim)
             <==> Untouched(events, a, i, |events|) && history[k].time == events[i].time == time)
         && (basis == Withheld
             <==> !Untouched(events, a, i, |events|)
                  || (history[k].time == events[i].time) != (history[k].time == time))
         && (basis.Constant? && basis.basis.Known? ==> basis.basis.status == StatusLeft(history, k, a))
  }

  /** The basis a completed transfer carries, in the same terms. */
  lemma TransferBasisExactly(events: seq<Event>, key: Key, i: nat, time: nat)
    requires OpenSince(events, key, i) && key in StartsAfter(events)
    ensures TellsBasis(Attached(EpochsAfter(events), StartsAfter(events)[key], key, time).1, events, key.source, i,
                       time)
  {
    hide Untouched, ResidesAlone, Claimed, LastRewrite, Run, EverClaimed, StatusLeft;
    TransferEnds(events, key, i, time);
    AssociationExactly(ClaimsIn(events), events[i].time, key.source);
    AssociationExactly(ClaimsIn(events), time, key.source);
    SameNameTold(ClaimsIn(events), events[i].time, time, key.source);
  }

  /** Two observations away from the last rewrite are told the same. */
  lemma SameNameTold(history: seq<Claim>, time: nat, later: nat, a: Address)
    ensures AssociationOf(Run(history), time, a).1 == AssociationOf(Run(history), later, a).1
            ==> AssociationOf(Run(history), time, a) == AssociationOf(Run(history), later, a)
  {
  }

  /** At every moment of such a transfer the sender's address showed the NAME, which resided nowhere else. */
  lemma NamedTransferHeldThroughout(events: seq<Event>, key: Key, i: nat, k: nat, time: nat, name: Name)
    requires OpenSince(events, key, i) && i <= k <= |events| && key in StartsAfter(events)
    requires Attached(EpochsAfter(events), StartsAfter(events)[key], key, time).0 == Some(name)
    ensures Shows(EpochsAfter(events[..k]), key.source, name)
    ensures Residence(ClaimsIn(events[..k]), name) == Some(key.source)
  {
    hide Untouched, Run;
    TransferNameExactly(events, key, i, time, name);
    UntouchedExactly(events, key.source, i, |events|);
    EqualEndsNeverRewritten(events, key.source, i, |events|);
    assert events[..|events|] == events;
    VersionsBetween(events, key.source, k, |events|);
    ShowsExactly(ClaimsIn(events), key.source, name);
    ShowsExactly(ClaimsIn(events[..k]), key.source, name);
  }

  // ---------------------------------------------------------------- every row of the output

  /** How many rows these events emit: one for each claim and each completion. */
  function Emitted(events: seq<Event>): nat {
    if events == [] then 0
    else Emitted(events[..|events| - 1]) + if events[|events| - 1].Announces? then 0 else 1
  }

  /** What the row of event `k` says, in terms of the claims and the announcement before it. */
  ghost predicate RowSays(row: Row, events: seq<Event>, k: nat)
    requires k < |events|
  {
    match events[k]
    case Claims(c) =>
      var history := ClaimsIn(events[..k]) + [c];
      && row.ClaimRow? && row.claim == c
      && (if c.address == CANNOT_CLAIM_ADDRESS then row.status == CannotClaimReported
          else exists j: nat | j < |history| ::
                 LastRewrite(history, c.address, j) && row.status == StatusLeft(history, j, c.address))
    case Announces(_, _) => false
    case Completes(key, time) =>
      && row.TransferRow? && row.key == key
      && exists i: nat :: && OpenSince(events[..k], key, i)
                          && NamesSender(row.name, events[..k], key.source, i, time)
                          && TellsBasis(row.basis, events[..k], key.source, i, time)
  }

  /** The NAME of a transfer announced by event `i` and completed after all the events. */
  ghost predicate NamesSender(name: Option<Name>, events: seq<Event>, a: Address, i: nat, time: nat)
    requires i < |events| && events[i].Announces?
  {
    forall n: Name ::
      name == Some(n) <==> && Untouched(events, a, i, |events|) && ResidesAlone(ClaimsIn(events), a, n)
                           && RewrittenOtherThan(ClaimsIn(events), a, events[i].time)
                           && RewrittenOtherThan(ClaimsIn(events), a, time)
  }

  /** The row an event emits, if any. */
  function RowOf(events: seq<Event>, k: nat): seq<Row>
    requires k < |events| && (events[k].Completes? ==> events[k].key in StartsAfter(events[..k]))
  {
    match events[k]
    case Claims(c) => [ClaimRow(c, ReportedStatus(EpochsAfter(events[..k + 1]), c.address))]
    case Announces(_, _) => []
    case Completes(key, time) =>
      var (name, basis) := Attached(EpochsAfter(events[..k]), StartsAfter(events[..k])[key], key, time);
      [TransferRow(key, name, basis)]
  }

  lemma RowsOne(events: seq<Event>, k: nat)
    requires Lawful(events) && k < |events|
    ensures Lawful(events[..k]) && Lawful(events[..k + 1])
    ensures events[k].Completes? ==> events[k].key in StartsAfter(events[..k])
    ensures RowsAfter(events[..k + 1]) == RowsAfter(events[..k]) + RowOf(events, k)
  {
    hide Attached, EpochsAfter, ReportedStatus, StartsAfter;
    LawfulBefore(events, k);
    LawfulBefore(events, k + 1);
    assert events[..k + 1][..k] == events[..k];
  }

  lemma RowsNext(events: seq<Event>, k: nat)
    requires Lawful(events) && k < |events|
    ensures Lawful(events[..k]) && Lawful(events[..k + 1])
    ensures events[k].Announces? ==> RowsAfter(events[..k + 1]) == RowsAfter(events[..k])
    ensures !events[k].Announces?
            ==> exists row :: RowsAfter(events[..k + 1]) == RowsAfter(events[..k]) + [row] && RowSays(row, events, k)
  {
    hide RowSays, Attached, EpochsAfter, ReportedStatus, StartsAfter, RowsAfter, Lawful;
    RowsOne(events, k);
    match events[k] {
      case Claims(_) =>
        ClaimedSays(events, k);
        assert RowSays(RowOf(events, k)[0], events, k);
      case Announces(_, _) =>
      case Completes(_, _) =>
        CompletedSays(events, k);
        assert RowSays(RowOf(events, k)[0], events, k);
    }
    assert !events[k].Announces? ==> RowOf(events, k) == [RowOf(events, k)[0]];
  }

  lemma ClaimedSays(events: seq<Event>, k: nat)
    requires k < |events| && events[k].Claims?
    ensures var c := events[k].claim;
            RowSays(ClaimRow(c, ReportedStatus(EpochsAfter(events[..k + 1]), c.address)), events, k)
  {
    hide LastRewrite, StatusLeft, Run, EverClaimed;
    var c, history := events[k].claim, ClaimsIn(events[..k]) + [events[k].claim];
    assert events[..k + 1][..k] == events[..k];
    assert ClaimsIn(events[..k + 1]) == history;
    MadeHere(history, c);
    ReportedExactly(history, c.address);
  }

  lemma MadeHere(history: seq<Claim>, c: Claim)
    requires history != [] && history[|history| - 1] == c
    ensures EverClaimed(history, c.address)
  {
  }

  lemma CompletedSays(events: seq<Event>, k: nat)
    requires k < |events| && Lawful(events[..k]) && events[k].Completes? && events[k].key in StartsAfter(events[..k])
    ensures var (name, basis) := Attached(EpochsAfter(events[..k]), StartsAfter(events[..k])[events[k].key],
                                          events[k].key, events[k].time);
            RowSays(TransferRow(events[k].key, name, basis), events, k)
  {
    hide Untouched, ResidesAlone, Attached, LastRewrite, RewrittenOtherThan, EpochsAfter, StartOf, TellsBasis;
    var before, key, time := events[..k], events[k].key, events[k].time;
    StartIsAnnouncement(before, key);
    var i: nat :| OpenSince(before, key, i);
    forall n: Name
      ensures Attached(EpochsAfter(before), StartsAfter(before)[key], key, time).0 == Some(n)
         <==> && Untouched(before, key.source, i, k) && ResidesAlone(ClaimsIn(before), key.source, n)
              && RewrittenOtherThan(ClaimsIn(before), key.source, before[i].time)
              && RewrittenOtherThan(ClaimsIn(before), key.source, time)
    {
      TransferNameExactly(before, key, i, time, n);
    }
    TransferBasisExactly(before, key, i, time);
  }

  /** The rows of a run are one for each claim and completion, in order, and each says what the claims say. */
  lemma {:induction false} RowsExplained(events: seq<Event>, k: nat)
    requires Lawful(events) && k < |events| && !events[k].Announces?
    ensures Emitted(events[..k]) < |RowsAfter(events)| == Emitted(events)
    ensures RowSays(RowsAfter(events)[Emitted(events[..k])], events, k)
  {
    hide RowsAfter, RowSays;
    RowsCounted(events, k);
    RowsCounted(events, k + 1);
    RowsCounted(events, |events|);
    assert events[..|events|] == events && events[..k + 1][..k] == events[..k];
    RowsNext(events, k);
  }

  /** The rows so far are the first of all rows, one for each event that emits. */
  lemma {:induction false} RowsCounted(events: seq<Event>, k: nat)
    requires Lawful(events) && k <= |events|
    ensures Lawful(events[..k]) && RowsAfter(events[..k]) <= RowsAfter(events)
    ensures |RowsAfter(events[..k])| == Emitted(events[..k])
    decreases |events|, k
  {
    hide RowsAfter, RowSays;
    LawfulBefore(events, k);
    if k == 0 {
      NoRows(events);
    } else {
      RowsNext(events[..k], k - 1);
      assert events[..k][..k - 1] == events[..k - 1] && events[..k][..k] == events[..k];
    }
    if k < |events| {
      var before := events[..|events| - 1];
      LawfulBefore(events, |events| - 1);
      RowsCounted(before, k);
      assert before[..k] == events[..k];
      RowsNext(events, |events| - 1);
      assert events[..|events|] == events;
    } else {
      assert events[..k] == events;
      if k > 0 {
        RowsCounted(events[..k - 1], k - 1);
        assert events[..k - 1][..k - 1] == events[..k - 1];
      }
    }
  }

  lemma NoRows(events: seq<Event>)
    ensures Lawful(events[..0]) && RowsAfter(events[..0]) == [] && Emitted(events[..0]) == 0
  {
  }
}
