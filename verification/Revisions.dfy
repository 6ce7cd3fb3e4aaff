/** Revision channels over whole histories: replays and echoes add nothing, the channel holds each
    record ever written once, and when the current view can be trusted. */
module Revisions {
  import opened Orders
  import opened Reducers

  /** One write the channel's reducer sees: new work, or something it was handed before. */
  datatype Event = Written(records: seq<Item>) | Repeated(records: seq<Item>)

  function Channel(events: seq<Event>): seq<Item> {
    if events == [] then []
    else AppendRevision(Channel(events[..|events| - 1]), events[|events| - 1].records)
  }

  /** Everything nodes set out to write, in order, replays and echoes left out. */
  function Work(events: seq<Event>): seq<Item> {
    if events == [] then []
    else
      var e := events[|events| - 1];
      Work(events[..|events| - 1]) + (if e.Written? then e.records else [])
  }

  /** A replay repeats an earlier update and an echo repeats an earlier value of the channel; either
      way every record in it had reached the channel. */
  ghost predicate History(events: seq<Event>) {
    forall i, x :: 0 <= i < |events| && events[i].Repeated? && x in events[i].records ==> x in Channel(events[..i])
  }

  /** Under any interleaving of replays and echoes the channel is what the work alone would have left:
      exactly the distinct records ever written, each once, in order of first writing. */
  lemma {:induction false} ChannelIsTheWork(events: seq<Event>)
    requires History(events)
    ensures Channel(events) == AppendRevision([], Work(events))
    ensures Distinct(Channel(events)) && forall x :: x in Channel(events) <==> x in Work(events)
  {
    RevisionGrows([], Work(events));
    if events != [] {
      var n := |events| - 1;
      var e := events[n];
      forall i, x | 0 <= i < n && events[..n][i].Repeated? && x in events[..n][i].records ensures x in Channel(events[..n][..i]) {
        assert events[..n][..i] == events[..i] && events[..n][i] == events[i];
      }
      ChannelIsTheWork(events[..n]);
      if e.Written? {
        RevisionSplits([], Work(events[..n]), e.records);
      } else {
        assert Work(events) == Work(events[..n]);
        RevisionIgnoresKnown(Channel(events[..n]), e.records);
      }
    }
  }

  // -- the current view --------------------------------------------------------------------------

  /** The record's id, when the attribute is set. */
  function IdIn(item: Item, attr: string): Option<string> {
    if attr in item.attrs && item.attrs[attr] != "" then Some(item.attrs[attr]) else None
  }

  /** The last entry per id. */
  function LatestById(revisions: seq<Item>, attr: string): map<string, Item> {
    if revisions == [] then map[]
    else
      var before := LatestById(revisions[..|revisions| - 1], attr);
      var last := revisions[|revisions| - 1];
      if IdIn(last, attr).Some? then before[IdIn(last, attr).value := last] else before
  }

  predicate CarriesId(item: Item, attr: string, id: string) { id != "" && attr in item.attrs && item.attrs[attr] == id }

  /** The view holds exactly the ids some entry carries, each with the last entry that carries it. */
  lemma {:induction false} LatestByIdMeans(revisions: seq<Item>, attr: string, id: string)
    ensures id in LatestById(revisions, attr) <==> exists k :: 0 <= k < |revisions| && CarriesId(revisions[k], attr, id)
    ensures id in LatestById(revisions, attr) ==> exists k ::
      && 0 <= k < |revisions| && CarriesId(revisions[k], attr, id) && LatestById(revisions, attr)[id] == revisions[k]
      && forall j :: k < j < |revisions| ==> !CarriesId(revisions[j], attr, id)
  {
    hide CarriesId, IdIn;
    if revisions != [] {
      var n := |revisions| - 1;
      LatestByIdMeans(revisions[..n], attr, id);
      assert forall k :: 0 <= k < n ==> revisions[..n][k] == revisions[k];
      CarriesIff(revisions[n], attr, id);
    }
  }

  lemma CarriesIff(item: Item, attr: string, id: string)
    ensures CarriesId(item, attr, id) <==> IdIn(item, attr) == Some(id)
  {
  }

  method LatestByIdLoop(revisions: seq<Item>, attr: string) returns (out: map<string, Item>)
    ensures out == LatestById(revisions, attr)
  {
    out := map[];
    var i := 0;
    assert revisions[..0] == [];
    while i < |revisions|
      invariant 0 <= i <= |revisions| && out == LatestById(revisions[..i], attr)
    {
      assert revisions[..i + 1][..i] == revisions[..i];
      var id := IdIn(revisions[i], attr);
      if id.Some? { out := out[id.value := revisions[i]]; }
      i := i + 1;
    }
    assert revisions[..i] == revisions;
  }

  predicate Travelled(item: Item) {
    "status" in item.attrs && item.attrs["status"] in {"en_route", "on_site", "completed", "incomplete", "failed_access"}
  }

  /** Distinct work orders a crew actually travelled to. */
  function TruckRolls(revisions: seq<Item>): nat {
    var view := LatestById(revisions, "work_order_id");
    |set id | id in view && Travelled(view[id])|
  }

  /** The channel after writing these records one by one. */
  function Stored(writes: seq<Item>): seq<Item> { AppendRevision([], writes) }

  /** Writing `x` would put back a record that a different revision of its id has since replaced. */
  ghost predicate Reverts(writes: seq<Item>, attr: string, x: Item) {
    var id := IdIn(x, attr);
    id.Some? && x in writes && !(id.value in LatestById(writes, attr) && LatestById(writes, attr)[id.value] == x)
  }

  ghost predicate NeverReverts(writes: seq<Item>, attr: string) {
    forall n :: 0 <= n < |writes| ==> !Reverts(writes[..n], attr, writes[n])
  }

  /** Reading the stored channel gives the last write of each id. */
  ghost predicate Current(writes: seq<Item>, attr: string) { LatestById(Stored(writes), attr) == LatestById(writes, attr) }

  ghost predicate AlwaysCurrent(writes: seq<Item>, attr: string) {
    forall n :: 0 <= n <= |writes| ==> Current(writes[..n], attr)
  }

  lemma LatestOne(writes: seq<Item>, attr: string, x: Item)
    ensures LatestById(writes + [x], attr) ==
      if IdIn(x, attr).Some? then LatestById(writes, attr)[IdIn(x, attr).value := x] else LatestById(writes, attr)
  {
    assert (writes + [x])[..|writes|] == writes;
  }

  lemma StoredOne(writes: seq<Item>, x: Item)
    ensures Stored(writes + [x]) == if x in writes then Stored(writes) else Stored(writes) + [x]
  {
    assert (writes + [x])[..|writes|] == writes;
    RevisionGrows([], writes);
  }

  /** One write: the view stays current exactly when the write does not revert. */
  lemma OneWriteStaysCurrent(writes: seq<Item>, attr: string, x: Item)
    requires Current(writes, attr)
    ensures Current(writes + [x], attr) <==> !Reverts(writes, attr, x)
  {
    hide LatestById, Stored, IdIn;
    LatestOne(writes, attr, x);
    StoredOne(writes, x);
    LatestOne(Stored(writes), attr, x);
    if x in writes && IdIn(x, attr).Some? {
      var view, id := LatestById(writes, attr), IdIn(x, attr).value;
      assert view[id := x] == view <==> id in view && view[id] == x by {
        assert id in view[id := x] && view[id := x][id] == x;
      }
    }
  }

  /** The view is the last write per id, throughout the history, exactly when no write reverts. */
  lemma {:induction false} ViewIsCurrentIff(writes: seq<Item>, attr: string)
    ensures AlwaysCurrent(writes, attr) <==> NeverReverts(writes, attr)
  {
    hide Current, Reverts;
    if writes == [] {
      NothingIsCurrent(attr);
      assert writes[..0] == [];
    } else {
      var n := |writes| - 1;
      var before := writes[..n];
      ViewIsCurrentIff(before, attr);
      assert forall k :: 0 <= k <= n ==> before[..k] == writes[..k];
      assert writes[..n + 1] == writes == before + [writes[n]] && before[..n] == before;
      assert AlwaysCurrent(writes, attr) <==> AlwaysCurrent(before, attr) && Current(writes, attr);
      assert NeverReverts(writes, attr) <==> NeverReverts(before, attr) && !Reverts(before, attr, writes[n]);
      if AlwaysCurrent(before, attr) {
        assert Current(before[..n], attr);
        OneWriteStaysCurrent(before, attr, writes[n]);
      }
    }
  }

  /** Only a crew that set out counts as a truck roll, whatever came of the visit. */
  lemma TravelledIff(item: Item)
    ensures Travelled(item) <==> "status" in item.attrs && var status := item.attrs["status"];
      status == "en_route" || status == "on_site" || status == "completed" || status == "incomplete" || status == "failed_access"
  {
  }

  /** Replays and echoes move no view: under any interleaving of them the view is, at every point of the
      history, the last write per id of the work alone, and the truck-roll count the number of work
      orders whose last write travelled, as long as the work itself never reverts. */
  lemma ViewsFollowTheWork(events: seq<Event>, attr: string)
    requires History(events) && NeverReverts(Work(events), attr)
    ensures LatestById(Channel(events), attr) == LatestById(Work(events), attr)
    ensures attr == "work_order_id" ==>
      var view := LatestById(Work(events), attr);
      TruckRolls(Channel(events)) == |set id | id in view && Travelled(view[id])|
  {
    hide LatestById, Stored, Travelled;
    var work := Work(events);
    ChannelIsTheWork(events);
    ViewIsCurrentIff(work, attr);
    assert work[..|work|] == work;
    assert Current(work[..|work|], attr);
    StoredIs(work);
  }

  lemma StoredIs(writes: seq<Item>)
    ensures Stored(writes) == AppendRevision([], writes)
  {
  }

  lemma NothingIsCurrent(attr: string)
    ensures Current([], attr)
  {
  }
}
