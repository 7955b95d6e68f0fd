/**
  The per-board store: one mutable map from element id to element. Every
  write to the persistence layer is recorded, in order, in the ghost log.
  */
module Board {
  import opened Elements
  import opened Validator
  import opened Ordering
  import opened Operations
  import opened Snapshot

  /** The keys of the map, every key once, in an order the model leaves open. */
  method KeysOf(m: map<string, Element>) returns (ids: seq<string>)
    ensures Distinct(ids)
    ensures forall k :: k in ids <==> k in m
  {
    ids := [];
    var remaining := m.Keys;
    while remaining != {}
      invariant remaining <= m.Keys
      invariant Distinct(ids)
      invariant forall k :: k in ids <==> k in m && k !in remaining
      decreases remaining
    {
      var k :| k in remaining;
      ids := ids + [k];
      remaining := remaining - {k};
    }
  }

  class BoardData {
    const name: string
    const cfg: Config
    var board: map<string, Element>
    ghost var log: seq<Event>

    constructor (name: string, cfg: Config)
      ensures this.name == name && this.cfg == cfg
      ensures board == map[] && log == []
    {
      this.name := name;
      this.cfg := cfg;
      board := map[];
      log := [];
    }

    /** Rewrites an element to follow the board's policy. */
    method Validate(item: Element) returns (r: Element)
      ensures r == Normalize(cfg, item)
      decreases item
    {
      r := item;
      if item.size.Present? {
        var n := if item.size.value.Some? && item.size.value.value != 0 then item.size.value.value else 1;
        n := ClampInt(n, 1, 50);
        r := r.(size := Present(Some(n)));
      }
      if item.x.Present? || item.y.Present? {
        var x := if item.x.Present? && item.x.value.Some? then item.x.value.value else 0.0;
        x := ClampReal(x, 0.0, cfg.maxBoardSizeX as real);
        x := RoundTenth(x);
        var y := if item.y.Present? && item.y.value.Some? then item.y.value.value else 0.0;
        y := ClampReal(y, 0.0, cfg.maxBoardSizeY as real);
        y := RoundTenth(y);
        r := r.(x := Present(Some(x)), y := Present(Some(y)));
      }
      if item.opacity.Present? {
        var o := if item.opacity.value.Some? then ClampReal(item.opacity.value.value, 0.1, 1.0) else 1.0;
        if o == 1.0 {
          r := r.(opacity := Absent);
        } else {
          r := r.(opacity := Present(Some(o)));
        }
      }
      if item.children.Present? {
        ghost var kept := Kept(cfg, item.children.value);
        var kids := if item.children.value.Items? then item.children.value.elems else [];
        if |kids| > cfg.maxChildren {
          kids := kids[..cfg.maxChildren];
        }
        var i := 0;
        while i < |kids|
          invariant 0 <= i <= |kids| == |kept|
          invariant forall j :: 0 <= j < i ==> kids[j] == Normalize(cfg, kept[j])
          invariant forall j :: i <= j < |kids| ==> kids[j] == kept[j]
        {
          assert kept[i] in item.children.value.elems;
          var c := Validate(kids[i]);
          kids := kids[i := c];
          i := i + 1;
        }
        assert kids == seq(|kept|, j requires 0 <= j < |kept| => Normalize(cfg, kept[j]));
        r := r.(children := Present(Items(kids)));
      }
    }

    /** Stores `data`, stamped with the time `now` and validated, at `id`. */
    method Set(id: string, data: Element, now: int)
      modifies this
      ensures board == old(board)[id := Normalize(cfg, Stamp(data, now))]
      ensures Conforms(cfg, board[id]) && board[id].time == Present(now)
      ensures log == old(log) + [AddData(id, board[id])]
    {
      var d := Stamp(data, now);
      d := Validate(d);
      board := board[id := d];
      log := log + [AddData(id, d)];
      SetStoresValidated(cfg, data, now);
    }

    /** Appends `child` to the element at `parentId` and validates that
      element again; false, with nothing changed, when there is none. */
    method AddChild(parentId: string, child: Element) returns (added: bool)
      modifies this
      ensures added <==> parentId in old(board)
      ensures !added ==> board == old(board) && log == old(log)
      ensures added ==>
        && board == old(board)[parentId := AppendChild(cfg, old(board)[parentId], child)]
        && log == old(log) + [UpdateData(parentId, board[parentId])]
        && Conforms(cfg, board[parentId])
    {
      if parentId !in board {
        return false;
      }
      var obj := board[parentId];
      if obj.children.Present? && obj.children.value.Items? {
        obj := obj.(children := Present(Items(obj.children.value.elems + [child])));
      } else {
        obj := obj.(children := Present(Items([child])));
        assert ChildList(board[parentId]) + [child] == [child];
      }
      assert obj == WithChild(board[parentId], child);
      obj := Validate(obj);
      board := board[parentId := obj];
      log := log + [UpdateData(parentId, obj)];
      NormalizeConforms(cfg, WithChild(old(board)[parentId], child));
      return true;
    }

    /** Merges `data` (without its `type` and `tool`) into the element at
      `id`; stores the patch itself when there is no element or `create` is
      set. Nothing is validated or stamped. */
    method Update(id: string, data: Element, create: bool)
      modifies this
      ensures create || id !in old(board) ==>
        board == old(board)[id := Strip(data)] && log == old(log) + [AddData(id, Strip(data))]
      ensures !create && id in old(board) ==>
        && board == old(board)[id := Merge(old(board)[id], Strip(data))]
        && log == old(log) + [UpdateData(id, board[id])]
    {
      var patch := Strip(data);
      var existed := id in board;
      if existed {
        board := board[id := Merge(board[id], patch)];
      }
      if create || !existed {
        board := board[id := patch];
        log := log + [AddData(id, patch)];
      } else {
        log := log + [UpdateData(id, board[id])];
      }
    }

    /** Removes the element at `id`, if any, and the stored row. */
    method Delete(id: string)
      modifies this
      ensures board == old(board) - {id}
      ensures id !in old(board) ==> board == old(board)
      ensures log == old(log) + [DeleteData(id)]
    {
      board := board - {id};
      log := log + [DeleteData(id)];
    }

    /** The element at `id`, if any. */
    function Get(id: string): (r: Option<Element>)
      reads this
      ensures r.Some? <==> id in board
      ensures r.Some? ==> r.value == board[id]
    {
      if id in board then Some(board[id]) else None
    }

    /** The stored elements whose key sorts after `since` (all of them when
      `since` is missing or empty), in key iteration order; `order` lists
      those keys. */
    method GetAll(since: Option<string>) returns (results: seq<Element>, ghost order: seq<string>)
      ensures |results| == |SelectedKeys(board, since)|
      ensures forall k :: k in SelectedKeys(board, since) ==> board[k] in results
      ensures forall e :: e in results ==> exists k :: k in SelectedKeys(board, since) && board[k] == e
      ensures |results| == |order| && Distinct(order)
      ensures forall k :: k in order <==> k in board && Selected(since, k)
      ensures forall i :: 0 <= i < |order| ==> order[i] in board && results[i] == board[order[i]]
    {
      results, order := [], [];
      var remaining := board.Keys;
      while remaining != {}
        invariant remaining <= board.Keys
        invariant |results| == |order| && Distinct(order)
        invariant forall k :: k in order <==> k in board && k !in remaining && Selected(since, k)
        invariant forall i :: 0 <= i < |order| ==> order[i] in board && results[i] == board[order[i]]
        decreases remaining
      {
        var k :| k in remaining;
        if since.None? || since.value == [] || StringLess(since.value, k) {
          results := results + [board[k]];
          order := order + [k];
        }
        remaining := remaining - {k};
      }
      assert Members(order) == SelectedKeys(board, since);
      DistinctCardinality(order);
      forall e | e in results ensures exists k :: k in SelectedKeys(board, since) && board[k] == e {
        var i :| 0 <= i < |results| && results[i] == e;
        assert order[i] in SelectedKeys(board, since);
      }
      forall k | k in SelectedKeys(board, since) ensures board[k] in results {
        var i :| 0 <= i < |order| && order[i] == k;
        assert results[i] == board[k];
      }
    }

    /** Evicts the elements with the smallest `time | 0` keys until at most
      `maxItemCount` remain. Nothing is sent to the persistence layer. */
    method Clean()
      modifies this
      ensures log == old(log)
      ensures board.Keys <= old(board).Keys
      ensures forall k :: k in board ==> board[k] == old(board)[k]
      ensures |old(board)| <= cfg.maxItemCount || cfg.maxItemCount == 0 ==> board == old(board)
      ensures |old(board)| > cfg.maxItemCount > 0 ==> |board| == cfg.maxItemCount
      ensures forall k, j :: k in board && j in old(board) && j !in board ==>
        TimeKey(old(board)[j]) <= TimeKey(board[k])
    {
      var ids := KeysOf(board);
      var toDestroy := Evicted(cfg, board, ids);
      var i := 0;
      while i < |toDestroy|
        invariant 0 <= i <= |toDestroy|
        invariant board == old(board) - Members(toDestroy[..i])
        invariant log == old(log)
      {
        assert Members(toDestroy[..i + 1]) == Members(toDestroy[..i]) + {toDestroy[i]} by {
          assert toDestroy[..i + 1] == toDestroy[..i] + [toDestroy[i]];
        }
        board := board - {toDestroy[i]};
        i := i + 1;
      }
      assert toDestroy[..i] == toDestroy;
      EvictionKeepsLargestTimeKeys(cfg, old(board), ids);
    }

    /** Empties the board and purges every stored row. */
    method ClearAll()
      modifies this
      ensures board == map[]
      ensures log == old(log) + [DeleteAllData]
    {
      log := log + [DeleteAllData];
      board := map[];
    }

    /** Rebuilds a board from the stored snapshot (if any) and log rows. */
    static method Load(name: string, cfg: Config, snapshot: Option<map<string, Element>>,
                       entries: seq<LogEntry>)
      returns (b: BoardData)
      ensures fresh(b) && b.name == name && b.cfg == cfg
      ensures b.board == Reconstruct(cfg, snapshot, entries)
      ensures b.log == []
    {
      b := new BoardData(name, cfg);
      if snapshot.None? {
        return;
      }
      var m := snapshot.value;
      var i := 0;
      while i < |entries|
        invariant 0 <= i <= |entries|
        invariant m == Overlay(snapshot.value, entries[..i])
        invariant b.log == []
      {
        assert entries[..i + 1][..i] == entries[..i];
        if entries[i].data.Some? {
          m := m[entries[i].id := entries[i].data.value];
        }
        i := i + 1;
      }
      assert entries[..i] == entries;
      var validated := m;
      var remaining := m.Keys;
      while remaining != {}
        invariant remaining <= m.Keys == validated.Keys
        invariant forall k :: k in m && k !in remaining ==> validated[k] == Normalize(cfg, m[k])
        invariant forall k :: k in remaining ==> validated[k] == m[k]
        invariant b.log == []
        decreases remaining
      {
        var k :| k in remaining;
        var v := b.Validate(validated[k]);
        validated := validated[k := v];
        remaining := remaining - {k};
      }
      b.board := validated;
    }
  }
}
