/**
  How a board is rebuilt from what the persistence layer stored: a snapshot
  of the whole board plus a per-element log of `{id, data}` rows.
  */
module Snapshot {
  import opened Elements
  import opened Validator

  /** One stored row. `data` is `None` when the row is missing or has no
      (truthy) `data` field. */
  datatype LogEntry = LogEntry(id: string, data: Option<Element>)

  /** The row carries data for `id`. */
  predicate Supplies(e: LogEntry, id: string) {
    e.id == id && e.data.Some?
  }

  /** The snapshot with the rows applied in order, later rows overwriting
      earlier ones; rows without data are skipped. */
  function Overlay(b: map<string, Element>, entries: seq<LogEntry>): map<string, Element>
    decreases |entries|
  {
    if entries == [] then b
    else
      var prior := Overlay(b, entries[..|entries| - 1]);
      var e := entries[|entries| - 1];
      if e.data.Some? then prior[e.id := e.data.value] else prior
  }

  /** Every stored element validated. */
  function ValidateAll(cfg: Config, m: map<string, Element>): (r: map<string, Element>)
    ensures r.Keys == m.Keys
    ensures forall k :: k in r ==> r[k] == Normalize(cfg, m[k])
  {
    map k | k in m :: Normalize(cfg, m[k])
  }

  /** The board `load` builds: empty without a snapshot, otherwise the
      snapshot overlaid by the log, every element validated. */
  function Reconstruct(cfg: Config, snapshot: Option<map<string, Element>>, entries: seq<LogEntry>)
    : map<string, Element>
  {
    match snapshot
    case None => map[]
    case Some(b) => ValidateAll(cfg, Overlay(b, entries))
  }

  /** An id is on the overlaid board when the snapshot or some row supplies it. */
  lemma {:induction false} OverlayKeys(b: map<string, Element>, entries: seq<LogEntry>, id: string)
    ensures id in Overlay(b, entries) <==>
      id in b || exists i :: 0 <= i < |entries| && Supplies(entries[i], id)
    decreases |entries|
  {
    if entries != [] {
      var n := |entries| - 1;
      var front := entries[..n];
      OverlayKeys(b, front, id);
      if exists i :: 0 <= i < |entries| && Supplies(entries[i], id) {
        var i :| 0 <= i < |entries| && Supplies(entries[i], id);
        if i < n {
          assert Supplies(front[i], id);
        }
      }
    }
  }

  /** The element of an id is that of the last row supplying it. */
  lemma {:induction false} OverlayLastRow(b: map<string, Element>, entries: seq<LogEntry>, id: string, i: nat)
    requires i < |entries| && Supplies(entries[i], id)
    requires forall j :: i < j < |entries| ==> !Supplies(entries[j], id)
    ensures id in Overlay(b, entries) && Overlay(b, entries)[id] == entries[i].data.value
    decreases |entries|
  {
    var n := |entries| - 1;
    if i < n {
      var front := entries[..n];
      OverlayLastRow(b, front, id, i);
    }
  }

  /** An id no row supplies keeps the snapshot's element, or stays absent. */
  lemma {:induction false} OverlayUnsupplied(b: map<string, Element>, entries: seq<LogEntry>, id: string)
    requires forall i :: 0 <= i < |entries| ==> !Supplies(entries[i], id)
    ensures id in Overlay(b, entries) <==> id in b
    ensures id in b ==> Overlay(b, entries)[id] == b[id]
    decreases |entries|
  {
    if entries != [] {
      var n := |entries| - 1;
      var front := entries[..n];
      assert !Supplies(entries[n], id);
      OverlayUnsupplied(b, front, id);
    }
  }

  /** Without a stored snapshot the log is ignored and the board is empty. */
  lemma LoadWithoutSnapshot(cfg: Config, entries: seq<LogEntry>)
    ensures Reconstruct(cfg, None, entries) == map[]
  {
  }

  /** Every element of a loaded board follows the policy. */
  lemma LoadedConforms(cfg: Config, snapshot: Option<map<string, Element>>, entries: seq<LogEntry>)
    ensures forall k :: k in Reconstruct(cfg, snapshot, entries) ==>
      Conforms(cfg, Reconstruct(cfg, snapshot, entries)[k])
  {
    forall k | k in Reconstruct(cfg, snapshot, entries)
      ensures Conforms(cfg, Reconstruct(cfg, snapshot, entries)[k])
    {
      NormalizeConforms(cfg, Overlay(snapshot.value, entries)[k]);
    }
  }

  /** With a snapshot, the loaded board holds exactly the ids the snapshot or
      a data row supplies, each element being the validated last supply. */
  lemma LoadOverlaysLog(cfg: Config, b: map<string, Element>, entries: seq<LogEntry>, id: string)
    ensures id in Reconstruct(cfg, Some(b), entries) <==>
      id in b || exists i :: 0 <= i < |entries| && Supplies(entries[i], id)
    ensures forall i :: (0 <= i < |entries| && Supplies(entries[i], id) &&
        forall j :: i < j < |entries| ==> !Supplies(entries[j], id)) ==>
      Reconstruct(cfg, Some(b), entries)[id] == Normalize(cfg, entries[i].data.value)
    ensures (forall i :: 0 <= i < |entries| ==> !Supplies(entries[i], id)) && id in b ==>
      Reconstruct(cfg, Some(b), entries)[id] == Normalize(cfg, b[id])
  {
    OverlayKeys(b, entries, id);
    forall i | 0 <= i < |entries| && Supplies(entries[i], id) &&
        forall j :: i < j < |entries| ==> !Supplies(entries[j], id)
      ensures Reconstruct(cfg, Some(b), entries)[id] == Normalize(cfg, entries[i].data.value)
    {
      OverlayLastRow(b, entries, id, i);
    }
    if forall i :: 0 <= i < |entries| ==> !Supplies(entries[i], id) {
      OverlayUnsupplied(b, entries, id);
    }
  }

  /** Saving a board of validated elements as the snapshot and loading it
      back, with no log rows, gives the same board. */
  lemma ReloadRoundTrip(cfg: Config, b: map<string, Element>)
    requires forall k :: k in b ==> Conforms(cfg, b[k])
    ensures Reconstruct(cfg, Some(b), []) == b
  {
    forall k | k in b ensures Normalize(cfg, b[k]) == b[k] {
      ConformingIsFixpoint(cfg, b[k]);
    }
  }
}
