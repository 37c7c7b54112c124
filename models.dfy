// The race-result record of the regatta app: skippers, the outcome status of a
// boat in one race, and a race holding its finishing order and status map.
// The persistence context is abstracted as a roster snapshot that may fail to
// load.

module Models {
  import opened Sequences

  datatype Option<T> = None | Some(value: T)

  /** Outcome of one boat in one race. */
  datatype RaceStatus = Finished | Dns | Dnf

  /** The raw string a status is stored as. */
  function RawValue(status: RaceStatus): (r: string)
    ensures ParseStatus(r) == Some(status)
  {
    match status
    case Finished => "finished"
    case Dns => "dns"
    case Dnf => "dnf"
  }

  /** The failable initialiser `RaceStatus(rawValue:)`: the inverse of RawValue. */
  function ParseStatus(raw: string): Option<RaceStatus>
  {
    if raw == "finished" then Some(Finished)
    else if raw == "dns" then Some(Dns)
    else if raw == "dnf" then Some(Dnf)
    else None
  }

  datatype Skipper = Skipper(id: string, name: string, sailNumber: string)

  /** What the scoring engine sees of the persistence context: the roster of
      skippers and whether fetching from the store fails. */
  datatype ModelContext = ModelContext(skippers: seq<Skipper>, fetchFails: bool)

  function Ids(skippers: seq<Skipper>): (r: seq<string>)
    ensures |r| == |skippers|
    ensures forall i :: 0 <= i < |r| ==> r[i] == skippers[i].id
  {
    seq(|skippers|, i requires 0 <= i < |skippers| => skippers[i].id)
  }

  /** `a` is obtained from `b` by deleting elements. */
  ghost predicate IsSubsequence(a: seq<string>, b: seq<string>)
    decreases |b|
  {
    if a == [] then true
    else if b == [] then false
    else (a[0] == b[0] && IsSubsequence(a[1..], b[1..])) || IsSubsequence(a, b[1..])
  }

  // ---------------------------------------------------------------------------
  // Status lookup (getStatus) and the status map setFinishingPositions rebuilds
  // ---------------------------------------------------------------------------

  /** `getStatus`: the stored status when there is a parseable entry, otherwise Finished. */
  function StatusOf(statuses: map<string, string>, id: string): (r: RaceStatus)
    ensures id in statuses && ParseStatus(statuses[id]).Some? ==> RawValue(r) == statuses[id]
    ensures id !in statuses || ParseStatus(statuses[id]).None? ==> r == Finished
  {
    if id in statuses then
      match ParseStatus(statuses[id])
      case Some(status) => status
      case None => Finished
    else Finished
  }

  /** Storing a status for one id and reading it back gives that status; every other id reads as before. */
  lemma StatusAfterSet(statuses: map<string, string>, key: string, status: RaceStatus, id: string)
    ensures StatusOf(statuses[key := RawValue(status)], id) == if id == key then status else StatusOf(statuses, id)
  {
  }

  /** The status map `setFinishingPositions` builds from the old one for a new finishing order. */
  function RetainStatuses(statuses: map<string, string>, ids: seq<string>): (r: map<string, string>)
    ensures r.Keys == set id | id in ids
  {
    map id | id in ids :: if id in statuses then statuses[id] else RawValue(Finished)
  }

  /** After the rebuild an id in the new order reads its old status, and every
      other id, including one marked DNS or DNF before, reads Finished. */
  lemma RetainedStatus(statuses: map<string, string>, ids: seq<string>, id: string)
    ensures StatusOf(RetainStatuses(statuses, ids), id) == if id in ids then StatusOf(statuses, id) else Finished
  {
  }

  /** Rebuilding for one more id adds that id's entry. */
  lemma RetainStatusesStep(statuses: map<string, string>, ids: seq<string>, id: string)
    ensures RetainStatuses(statuses, ids + [id])
      == RetainStatuses(statuses, ids)[id := if id in statuses then statuses[id] else RawValue(Finished)]
  {
  }

  /** A raw value written earlier is kept for an id that stays in the finishing order. */
  lemma RetainStatusesKeepsEntry(statuses: map<string, string>, ids: seq<string>, id: string)
    requires id in ids && id in statuses
    ensures RetainStatuses(statuses, ids)[id] == statuses[id]
  {
  }

  // ---------------------------------------------------------------------------
  // Resolving stored ids against the roster (fetchFinishingPositions)
  // ---------------------------------------------------------------------------

  /** `allSkippers.first { $0.id == id }` */
  function FirstWithId(skippers: seq<Skipper>, id: string): (r: Option<Skipper>)
    ensures r.Some? ==> r.value in skippers && r.value.id == id
    ensures r.None? <==> id !in Ids(skippers)
  {
    if skippers == [] then None
    else if skippers[0].id == id then Some(skippers[0])
    else
      assert forall i :: 0 <= i < |skippers| - 1 ==> skippers[1..][i] == skippers[i + 1];
      FirstWithId(skippers[1..], id)
  }

  /** The stored ids that have an entry in the roster, in stored order. */
  function Known(ids: seq<string>, skippers: seq<Skipper>): seq<string>
  {
    if ids == [] then []
    else (if ids[0] in Ids(skippers) then [ids[0]] else []) + Known(ids[1..], skippers)
  }

  /** `compactMap` of the stored ids over the roster. */
  function ResolveIn(ids: seq<string>, skippers: seq<Skipper>): seq<Skipper>
  {
    if ids == [] then []
    else
      (match FirstWithId(skippers, ids[0])
       case Some(skipper) => [skipper]
       case None => [])
      + ResolveIn(ids[1..], skippers)
  }

  /** `fetchFinishingPositions`: the stored ids mapped to roster entries, unknown ids
      dropped; a failing fetch gives the empty sequence. */
  function Resolve(ids: seq<string>, context: ModelContext): (r: seq<Skipper>)
    ensures context.fetchFails ==> r == []
    ensures forall s :: s in r ==> s in context.skippers && s.id in ids
  {
    if context.fetchFails then []
    else
      ResolveInIds(ids, context.skippers);
      ResolveIn(ids, context.skippers)
  }

  lemma {:induction false} ResolveInIds(ids: seq<string>, skippers: seq<Skipper>)
    ensures Ids(ResolveIn(ids, skippers)) == Known(ids, skippers)
    ensures forall s :: s in ResolveIn(ids, skippers) ==> s in skippers && s.id in ids
    decreases |ids|
  {
    if ids != [] {
      ResolveInIds(ids[1..], skippers);
      var head := match FirstWithId(skippers, ids[0]) case Some(skipper) => [skipper] case None => [];
      assert ResolveIn(ids, skippers) == head + ResolveIn(ids[1..], skippers);
      assert Ids(head + ResolveIn(ids[1..], skippers)) == Ids(head) + Ids(ResolveIn(ids[1..], skippers));
    }
  }

  lemma {:induction false} KnownIsSubsequence(ids: seq<string>, skippers: seq<Skipper>)
    ensures IsSubsequence(Known(ids, skippers), ids)
    ensures |Known(ids, skippers)| <= |ids|
    decreases |ids|
  {
    if ids != [] {
      KnownIsSubsequence(ids[1..], skippers);
      var rest := Known(ids[1..], skippers);
      if ids[0] in Ids(skippers) {
        assert Known(ids, skippers) == [ids[0]] + rest;
        assert ([ids[0]] + rest)[1..] == rest;
      } else {
        assert Known(ids, skippers) == rest;
        if rest != [] {
          assert IsSubsequence(rest, ids[1..]);
        }
      }
    }
  }

  lemma {:induction false} KnownMembership(ids: seq<string>, skippers: seq<Skipper>, id: string)
    ensures id in Known(ids, skippers) <==> id in ids && id in Ids(skippers)
    decreases |ids|
  {
    if ids != [] {
      KnownMembership(ids[1..], skippers, id);
      assert ids == [ids[0]] + ids[1..];
    }
  }

  lemma {:induction false} KnownDistinct(ids: seq<string>, skippers: seq<Skipper>)
    requires Distinct(ids)
    ensures Distinct(Known(ids, skippers))
    decreases |ids|
  {
    if ids != [] {
      assert Distinct(ids[1..]) by {
        forall i, j | 0 <= i < |ids| - 1 && 0 <= j < |ids| - 1 && i != j
          ensures ids[1..][i] != ids[1..][j]
        {
          assert ids[1..][i] == ids[i + 1] && ids[1..][j] == ids[j + 1];
        }
      }
      KnownDistinct(ids[1..], skippers);
      KnownMembership(ids[1..], skippers, ids[0]);
      assert ids[0] !in ids[1..] by {
        forall i | 0 <= i < |ids| - 1 ensures ids[1..][i] != ids[0] {
          assert ids[1..][i] == ids[i + 1];
        }
      }
    }
  }

  /** The resolved order is the stored order with the ids missing from the roster
      removed: a subsequence of the stored ids and no longer than them. */
  lemma ResolveKeepsStoredOrder(ids: seq<string>, context: ModelContext)
    requires !context.fetchFails
    ensures Ids(Resolve(ids, context)) == Known(ids, context.skippers)
    ensures IsSubsequence(Ids(Resolve(ids, context)), ids)
    ensures |Resolve(ids, context)| <= |ids|
    ensures forall id :: id in Ids(Resolve(ids, context)) <==> id in ids && id in Ids(context.skippers)
  {
    ResolveInIds(ids, context.skippers);
    KnownIsSubsequence(ids, context.skippers);
    forall id ensures id in Known(ids, context.skippers) <==> id in ids && id in Ids(context.skippers) {
      KnownMembership(ids, context.skippers, id);
    }
  }

  /** No data is lost when a skipper is missing from the roster for a while:
      whenever the roster holds the skipper, a stored id resolves to it again. */
  lemma ResolveReincludes(ids: seq<string>, context: ModelContext, skipper: Skipper)
    requires !context.fetchFails && Distinct(Ids(context.skippers))
    requires skipper in context.skippers && skipper.id in ids
    ensures skipper in Resolve(ids, context)
  {
    ResolveKeepsStoredOrder(ids, context);
    var k :| 0 <= k < |context.skippers| && context.skippers[k] == skipper;
    assert skipper.id in Ids(context.skippers) by {
      assert Ids(context.skippers)[k] == skipper.id;
    }
    var r := Resolve(ids, context);
    var j :| 0 <= j < |r| && Ids(r)[j] == skipper.id;
    assert r[j] in context.skippers;
    var k' :| 0 <= k' < |context.skippers| && context.skippers[k'] == r[j];
  }

  /** With distinct stored ids the resolved skippers have distinct ids. */
  lemma ResolveDistinct(ids: seq<string>, context: ModelContext)
    requires Distinct(ids)
    ensures Distinct(Ids(Resolve(ids, context)))
  {
    if !context.fetchFails {
      ResolveKeepsStoredOrder(ids, context);
      KnownDistinct(ids, context.skippers);
    }
  }

  // ---------------------------------------------------------------------------
  // The race record
  // ---------------------------------------------------------------------------

  /** A snapshot of a race's two stored fields. */
  datatype RaceRecord = RaceRecord(finishingIds: seq<string>, statuses: map<string, string>)

  class Race {
    var finishingIds: seq<string>
    var statuses: map<string, string>

    /** `init(finishingPositions:)`; `Dictionary(uniqueKeysWithValues:)` traps on a repeated id. */
    constructor (finishingPositions: seq<Skipper>)
      requires Distinct(Ids(finishingPositions))
      ensures finishingIds == Ids(finishingPositions)
      ensures statuses.Keys == set id | id in finishingIds
      ensures forall id :: id in statuses ==> statuses[id] == RawValue(Finished)
    {
      finishingIds := Ids(finishingPositions);
      statuses := map id | id in Ids(finishingPositions) :: RawValue(Finished);
    }

    /** `setFinishingPositions`: replaces the order and rebuilds the status map,
        keeping the entries of ids still present and dropping all others. */
    method SetFinishingPositions(skippers: seq<Skipper>)
      modifies this
      ensures finishingIds == Ids(skippers)
      ensures statuses == RetainStatuses(old(statuses), Ids(skippers))
    {
      finishingIds := Ids(skippers);
      var newStatuses: map<string, string> := map[];
      for k := 0 to |skippers|
        invariant finishingIds == Ids(skippers) && statuses == old(statuses)
        invariant newStatuses == RetainStatuses(statuses, Ids(skippers[..k]))
      {
        var id := skippers[k].id;
        assert Ids(skippers[..k + 1]) == Ids(skippers[..k]) + [id];
        RetainStatusesStep(statuses, Ids(skippers[..k]), id);
        newStatuses := newStatuses[id := if id in statuses then statuses[id] else RawValue(Finished)];
      }
      assert skippers[..|skippers|] == skippers;
      statuses := newStatuses;
    }

    /** `fetchFinishingPositions`: the stored order resolved against the roster;
        nothing when the fetch fails, else the stored ids the roster knows, in order. */
    function FetchFinishingPositions(context: ModelContext): (r: seq<Skipper>)
      reads this
      ensures context.fetchFails ==> r == []
      ensures !context.fetchFails ==> Ids(r) == Known(finishingIds, context.skippers)
      ensures |r| <= |finishingIds|
    {
      if context.fetchFails then []
      else
        ResolveKeepsStoredOrder(finishingIds, context);
        Resolve(finishingIds, context)
    }

    /** `setStatus`: overwrites the one entry for the skipper's id. */
    method SetStatus(status: RaceStatus, skipper: Skipper)
      modifies this
      ensures statuses == old(statuses)[skipper.id := RawValue(status)]
      ensures finishingIds == old(finishingIds)
      ensures GetStatus(skipper) == status
      ensures forall id :: id != skipper.id ==> StatusOf(statuses, id) == StatusOf(old(statuses), id)
    {
      statuses := statuses[skipper.id := RawValue(status)];
      forall id ensures StatusOf(statuses, id) == if id == skipper.id then status else StatusOf(old(statuses), id) {
        StatusAfterSet(old(statuses), skipper.id, status, id);
      }
    }

    /** `getStatus`: the stored status of the skipper, or finished when there is
        no entry or the entry does not parse. */
    function GetStatus(skipper: Skipper): (r: RaceStatus)
      reads this
      ensures skipper.id in statuses && ParseStatus(statuses[skipper.id]).Some? ==> RawValue(r) == statuses[skipper.id]
      ensures skipper.id !in statuses || ParseStatus(statuses[skipper.id]).None? ==> r == Finished
    {
      StatusOf(statuses, skipper.id)
    }

    function Record(): RaceRecord
      reads this
    {
      RaceRecord(finishingIds, statuses)
    }
  }

  /** The snapshots of a sequence of races. */
  function Records(races: seq<Race>): (r: seq<RaceRecord>)
    reads races
    ensures |r| == |races|
    ensures forall i :: 0 <= i < |races| ==> r[i] == races[i].Record()
  {
    seq(|races|, i reads races requires 0 <= i < |races| => races[i].Record())
  }

  /** The edit screen's Done action: record a status, then save an order that
      contains the skipper; the status survives the re-save. */
  method ResaveKeepsStatus(race: Race, status: RaceStatus, skipper: Skipper, order: seq<Skipper>)
    requires skipper in order
    modifies race
    ensures race.finishingIds == Ids(order)
    ensures race.GetStatus(skipper) == status
  {
    race.SetStatus(status, skipper);
    race.SetFinishingPositions(order);
    RetainedStatus(old(race.statuses)[skipper.id := RawValue(status)], Ids(order), skipper.id);
    var k :| 0 <= k < |order| && order[k] == skipper;
    assert Ids(order)[k] == skipper.id;
  }
}
