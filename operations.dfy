/**
  What each board operation does to one element or to the whole map, as
  functions, with the properties the store promises about them. The class
  in module Board performs these operations step by step.
  */
module Operations {
  import opened Elements
  import opened Validator
  import opened Ordering

  /** A write sent to the persistence layer. */
  datatype Event =
    | AddData(id: string, data: Element)     // db.addDataToBoard
    | UpdateData(id: string, data: Element)  // db.updateBoardData
    | DeleteData(id: string)                 // db.deleteBoardData
    | DeleteAllData                          // db.deleteAllBoardData

  // ---------------------------------------------------------------------------
  // set

  /** Stamps the element with the time `now` (server/boardData.js:48). */
  function Stamp(data: Element, now: int): Element {
    data.(time := Present(now))
  }

  /** The element `set` stores carries the time of the call, follows the
      policy and keeps the payload it was given. */
  lemma SetStoresValidated(cfg: Config, data: Element, now: int)
    ensures Normalize(cfg, Stamp(data, now)).time == Present(now)
    ensures Conforms(cfg, Normalize(cfg, Stamp(data, now)))
    ensures Normalize(cfg, Stamp(data, now)).payload == data.payload
  {
    NormalizeConforms(cfg, Stamp(data, now));
  }

  /** An element `{size: 200, x: -5, y: 99999}` is stored with size 50,
      x 0 and y at the board's lower edge. */
  lemma SetClampsScenario(cfg: Config, now: int)
    requires cfg.maxBoardSizeY <= 99999
    ensures var d := EmptyElement.(size := Present(Some(200)), x := Present(Some(-5.0)),
                                   y := Present(Some(99999.0)));
      var r := Normalize(cfg, Stamp(d, now));
      r.size == Present(Some(50)) && r.x == Present(Some(0.0)) &&
      r.y == Present(Some(cfg.maxBoardSizeY as real))
  {
    var m := cfg.maxBoardSizeY as real;
    assert OnTenthGrid(m) by {
      assert 10.0 * m == (10 * cfg.maxBoardSizeY) as real;
    }
  }

  // ---------------------------------------------------------------------------
  // update

  /** The patch without its framing fields `type` and `tool`
      (server/boardData.js:94-95). */
  function Strip(patch: Element): (r: Element)
    ensures "type" !in r.payload && "tool" !in r.payload
    ensures forall k :: k in patch.payload && k != "type" && k != "tool" ==>
      k in r.payload && r.payload[k] == patch.payload[k]
    ensures r.payload.Keys <= patch.payload.Keys
    ensures r.(payload := patch.payload) == patch
  {
    patch.(payload := patch.payload - {"type", "tool"})
  }

  /** A field of the patch when it has one, else the stored field. */
  function Pick<T>(patch: Field<T>, stored: Field<T>): Field<T> {
    if patch.Present? then patch else stored
  }

  /** A shallow merge: every field of the patch overwrites the stored one
      (server/boardData.js:98-100). */
  function Merge(obj: Element, patch: Element): Element {
    Element(Pick(patch.size, obj.size), Pick(patch.x, obj.x), Pick(patch.y, obj.y),
            Pick(patch.opacity, obj.opacity), Pick(patch.children, obj.children),
            Pick(patch.time, obj.time), obj.payload + patch.payload)
  }

  /** Every field the patch has overwrites the stored one; every field it
      lacks is left as it was. */
  lemma MergeOverwrites(obj: Element, patch: Element)
    ensures var r := Merge(obj, patch);
      && (patch.size.Present? ==> r.size == patch.size) && (patch.size.Absent? ==> r.size == obj.size)
      && (patch.x.Present? ==> r.x == patch.x) && (patch.x.Absent? ==> r.x == obj.x)
      && (patch.y.Present? ==> r.y == patch.y) && (patch.y.Absent? ==> r.y == obj.y)
      && (patch.opacity.Present? ==> r.opacity == patch.opacity)
      && (patch.opacity.Absent? ==> r.opacity == obj.opacity)
      && (patch.children.Present? ==> r.children == patch.children)
      && (patch.children.Absent? ==> r.children == obj.children)
      && (patch.time.Present? ==> r.time == patch.time) && (patch.time.Absent? ==> r.time == obj.time)
      && r.payload.Keys == obj.payload.Keys + patch.payload.Keys
      && (forall k :: k in patch.payload ==> r.payload[k] == patch.payload[k])
      && (forall k :: k in obj.payload && k !in patch.payload ==> r.payload[k] == obj.payload[k])
  {
  }

  /** Two updates in a row have the effect of one update with the second
      patch merged over the first. */
  lemma MergeComposes(obj: Element, p: Element, q: Element)
    ensures Merge(Merge(obj, p), q) == Merge(obj, Merge(p, q))
  {
    assert (obj.payload + p.payload) + q.payload == obj.payload + (p.payload + q.payload);
  }

  /** Sending the same patch again changes nothing. */
  lemma MergeIdempotent(obj: Element, p: Element)
    ensures Merge(Merge(obj, p), p) == Merge(obj, p)
  {
    assert (obj.payload + p.payload) + p.payload == obj.payload + p.payload;
  }

  /** `update` does not validate: a merge can store an element that breaks
      the policy, here a size of 200. */
  lemma MergeMayBreakPolicy(cfg: Config, obj: Element)
    ensures !Conforms(cfg, Merge(obj, EmptyElement.(size := Present(Some(200)))))
  {
  }

  // ---------------------------------------------------------------------------
  // addChild

  /** The children of an element that owns an array of them, else none. */
  function ChildList(e: Element): seq<Element> {
    if e.children.Present? && e.children.value.Items? then e.children.value.elems else []
  }

  /** The child appended to the children array, or a new array holding only
      the child when the field is not an array (server/boardData.js:79-80). */
  function WithChild(parent: Element, child: Element): Element {
    parent.(children := Present(Items(ChildList(parent) + [child])))
  }

  /** The parent as `addChild` leaves it: the child appended, then the whole
      parent validated again. */
  function AppendChild(cfg: Config, parent: Element, child: Element): Element {
    Normalize(cfg, WithChild(parent, child))
  }

  /** Each child validated, in order. */
  function ValidateEach(cfg: Config, cs: seq<Element>): seq<Element>
  {
    seq(|cs|, i requires 0 <= i < |cs| => Normalize(cfg, cs[i]))
  }

  /** On a validated parent, the child is validated and appended while there
      is room, and dropped once the parent holds `maxChildren` children; all
      other fields are kept. */
  lemma AppendToConformingParent(cfg: Config, parent: Element, child: Element)
    requires Conforms(cfg, parent)
    ensures var r := AppendChild(cfg, parent, child);
      && r.(children := parent.children) == parent
      && (|ChildList(parent)| < cfg.maxChildren ==>
            r.children == Present(Items(ChildList(parent) + [Normalize(cfg, child)])))
      && (|ChildList(parent)| >= cfg.maxChildren ==>
            r.children == Present(Items(ChildList(parent))))
      && Conforms(cfg, r)
  {
    var w := WithChild(parent, child);
    var kids := ChildList(parent);
    var r := Normalize(cfg, w);
    NormalizeConforms(cfg, w);
    ConformingIsFixpoint(cfg, parent);
    assert Normalize(cfg, parent) == parent;
    forall i | 0 <= i < |kids| ensures Normalize(cfg, kids[i]) == kids[i] {
      ConformingIsFixpoint(cfg, kids[i]);
    }
    var kept := Kept(cfg, Items(kids + [child]));
    var out := r.children.value.elems;
    if |kids| < cfg.maxChildren {
      assert kept == kids + [child];
      assert out == kids + [Normalize(cfg, child)];
    } else {
      assert kept == kids;
      assert out == kids;
    }
  }

  /** `addChild` called once per child, in arrival order. */
  function AppendAll(cfg: Config, parent: Element, cs: seq<Element>): Element
    decreases |cs|
  {
    if cs == [] then parent else AppendAll(cfg, AppendChild(cfg, parent, cs[0]), cs[1..])
  }

  /** Validating a non-empty list of children validates its head, then its tail. */
  lemma ValidateEachCons(cfg: Config, cs: seq<Element>)
    requires cs != []
    ensures ValidateEach(cfg, cs) == [Normalize(cfg, cs[0])] + ValidateEach(cfg, cs[1..])
  {
    var l := ValidateEach(cfg, cs);
    var r := [Normalize(cfg, cs[0])] + ValidateEach(cfg, cs[1..]);
    forall i | 0 <= i < |l| ensures l[i] == r[i] {
      if i > 0 {
        assert cs[1..][i - 1] == cs[i];
      }
    }
  }

  /** Capping `kids + ([head] + tail)` at `m` equals capping `next + tail`
      at `m`, where `next` is `kids` with the head appended when there is
      room and dropped otherwise. */
  lemma CapAfterAppend(kids: seq<Element>, head: Element, next: seq<Element>, tail: seq<Element>, m: nat)
    requires |kids| <= m
    requires next == if |kids| < m then kids + [head] else kids
    ensures var all := kids + ([head] + tail);
      var all' := next + tail;
      all'[..if |all'| < m then |all'| else m] == all[..if |all| < m then |all| else m]
  {
  }

  /** One `addChild` on a validated parent: the parent stays validated, its
      children are an array, and capping its children followed by the
      remaining newcomers gives the same prefix as capping the original
      children followed by all newcomers. */
  lemma AppendStep(cfg: Config, parent: Element, cs: seq<Element>)
    requires Conforms(cfg, parent) && cs != []
    ensures var next := AppendChild(cfg, parent, cs[0]);
      var all := ChildList(parent) + ValidateEach(cfg, cs);
      var n := if |all| < cfg.maxChildren then |all| else cfg.maxChildren;
      var all' := ChildList(next) + ValidateEach(cfg, cs[1..]);
      var n' := if |all'| < cfg.maxChildren then |all'| else cfg.maxChildren;
      && Conforms(cfg, next)
      && next.children == Present(Items(ChildList(next)))
      && all'[..n'] == all[..n]
  {
    var kids := ChildList(parent);
    var next := AppendChild(cfg, parent, cs[0]);
    AppendToConformingParent(cfg, parent, cs[0]);
    ValidateEachCons(cfg, cs);
    CapAfterAppend(kids, Normalize(cfg, cs[0]), ChildList(next), ValidateEach(cfg, cs[1..]), cfg.maxChildren);
  }

  /** Appending children one by one to a validated parent keeps it
      validated and leaves every field but `_children` as it was. */
  lemma {:induction false} AppendAllKeepsFields(cfg: Config, parent: Element, cs: seq<Element>)
    requires Conforms(cfg, parent)
    ensures var r := AppendAll(cfg, parent, cs);
      Conforms(cfg, r) && r.(children := parent.children) == parent
    decreases |cs|
  {
    if cs != [] {
      AppendToConformingParent(cfg, parent, cs[0]);
      AppendAllKeepsFields(cfg, AppendChild(cfg, parent, cs[0]), cs[1..]);
    }
  }

  /** Appending children one by one to a validated parent keeps exactly the
      first `maxChildren` of its children followed by the new ones, in
      arrival order. */
  lemma {:induction false} AppendAllKeepsArrivalPrefix(cfg: Config, parent: Element, cs: seq<Element>)
    requires Conforms(cfg, parent) && cs != []
    ensures var all := ChildList(parent) + ValidateEach(cfg, cs);
      var n := if |all| < cfg.maxChildren then |all| else cfg.maxChildren;
      AppendAll(cfg, parent, cs).children == Present(Items(all[..n]))
    decreases |cs|
  {
    var next := AppendChild(cfg, parent, cs[0]);
    var rest := cs[1..];
    AppendStep(cfg, parent, cs);
    if rest != [] {
      AppendAllKeepsArrivalPrefix(cfg, next, rest);
    } else {
      assert ChildList(next) + ValidateEach(cfg, rest) == ChildList(next);
    }
  }

  // ---------------------------------------------------------------------------
  // clean

  /** JavaScript's bitwise truncation: the value modulo 2^32, read as a
      signed 32-bit integer. */
  function ToInt32(t: int): (r: int)
    ensures -0x8000_0000 <= r < 0x8000_0000
    ensures (t - r) % 0x1_0000_0000 == 0
    ensures -0x8000_0000 <= t < 0x8000_0000 ==> r == t
  {
    var m := t % 0x1_0000_0000;
    if m >= 0x8000_0000 then m - 0x1_0000_0000 else m
  }

  /** The sort key of `clean`: the truncated time, 0 when there is none
      (server/boardData.js:189). */
  function TimeKey(e: Element): int {
    match e.time
    case Absent => 0
    case Present(t) => ToInt32(t)
  }

  /** The key is a truncation, not the time: an element stamped one
      millisecond later than another can sort before it. */
  lemma TimeKeyWraps()
    ensures var older := EmptyElement.(time := Present(0x7FFF_FFFF));
      var newer := EmptyElement.(time := Present(0x8000_0000));
      TimeKey(newer) < TimeKey(older)
  {
  }

  function TimeKeys(board: map<string, Element>): (key: map<string, int>)
    ensures forall k :: k in board ==> KeyOf(key, k) == TimeKey(board[k])
  {
    map k | k in board :: TimeKey(board[k])
  }

  /** The time an element was stamped with, 0 when it has none: the key that
      "remove old elements" calls for. */
  function StampedTime(e: Element): int {
    match e.time
    case Absent => 0
    case Present(t) => t
  }

  function StampedTimes(board: map<string, Element>): (key: map<string, int>)
    ensures forall k :: k in board ==> KeyOf(key, k) == StampedTime(board[k])
  {
    map k | k in board :: StampedTime(board[k])
  }

  /** All but the `maxItemCount` ids with the largest keys, when there are
      more than `maxItemCount` ids; none with a cap of 0, since a slice up
      to minus zero is empty (server/boardData.js:187-190). */
  function EvictedBy(cfg: Config, ids: seq<string>, key: map<string, int>): seq<string> {
    if |ids| <= cfg.maxItemCount || cfg.maxItemCount == 0 then []
    else SortBy(ids, key)[..|ids| - cfg.maxItemCount]
  }

  /** The ids `clean` evicts as written: sorted by `time | 0`. */
  function Evicted(cfg: Config, board: map<string, Element>, ids: seq<string>): seq<string> {
    EvictedBy(cfg, ids, TimeKeys(board))
  }

  /** The ids `clean` is meant to evict: sorted by the stamped time itself. */
  function EvictedOldest(cfg: Config, board: map<string, Element>, ids: seq<string>): seq<string> {
    EvictedBy(cfg, ids, StampedTimes(board))
  }

  function Members(s: seq<string>): set<string> {
    set x | x in s
  }

  /** The evicted ids are among `ids`, each once, `|ids| - maxItemCount` of them. */
  lemma EvictedIds(cfg: Config, ids: seq<string>, key: map<string, int>)
    requires Distinct(ids)
    requires |ids| > cfg.maxItemCount > 0
    ensures Members(EvictedBy(cfg, ids, key)) <= Members(ids)
    ensures |Members(EvictedBy(cfg, ids, key))| == |ids| - cfg.maxItemCount
  {
    var sorted := SortBy(ids, key);
    SortByOrdered(ids, key);
    var ev := sorted[..|ids| - cfg.maxItemCount];
    assert EvictedBy(cfg, ids, key) == ev;
    assert Distinct(ev);
    DistinctCardinality(ev);
    forall x | x in ev ensures x in ids {
      assert x in multiset(sorted);
    }
  }

  /** Every id the eviction keeps has a key at least that of every id it evicts. */
  lemma EvictedAreOldest(cfg: Config, ids: seq<string>, key: map<string, int>, k: string, j: string)
    requires k in ids && k !in EvictedBy(cfg, ids, key)
    requires j in EvictedBy(cfg, ids, key)
    ensures j in ids && KeyOf(key, j) <= KeyOf(key, k)
  {
    var sorted := SortBy(ids, key);
    SortByOrdered(ids, key);
    var d := |ids| - cfg.maxItemCount;
    var ev := sorted[..d];
    assert EvictedBy(cfg, ids, key) == ev;
    assert k in multiset(sorted);
    var a :| 0 <= a < |sorted| && sorted[a] == k;
    var b :| 0 <= b < d && ev[b] == j;
    assert sorted[b] == j;
    assert j in multiset(sorted);
    forall c | 0 <= c < d ensures sorted[c] != k {
      assert ev[c] == sorted[c];
    }
  }

  /** With ids listing the board's keys once each, eviction by `key` keeps
      exactly `maxItemCount` elements when there were more, each retained
      id's key at least that of each evicted one, and touches nothing
      otherwise. */
  lemma EvictionKeepsLargestKeys(cfg: Config, board: map<string, Element>, ids: seq<string>,
                                 key: map<string, int>)
    requires Distinct(ids)
    requires forall x :: x in ids <==> x in board
    ensures var r := board - Members(EvictedBy(cfg, ids, key));
      && (|board| <= cfg.maxItemCount || cfg.maxItemCount == 0 ==> r == board)
      && (|board| > cfg.maxItemCount > 0 ==> |r| == cfg.maxItemCount)
      && (forall k, j :: k in r && j in board && j !in r ==> KeyOf(key, j) <= KeyOf(key, k))
  {
    var ev := EvictedBy(cfg, ids, key);
    var r := board - Members(ev);
    assert Members(ids) == board.Keys;
    DistinctCardinality(ids);
    assert |ids| == |board|;
    if |ids| > cfg.maxItemCount && cfg.maxItemCount != 0 {
      EvictedIds(cfg, ids, key);
      assert r.Keys == board.Keys - Members(ev);
      forall k, j | k in r && j in board && j !in r
        ensures KeyOf(key, j) <= KeyOf(key, k)
      {
        EvictedAreOldest(cfg, ids, key, k, j);
      }
    } else {
      assert Members(ev) == {};
      assert r == board;
    }
  }

  /** `clean` as written keeps the elements with the largest `time | 0`. */
  lemma EvictionKeepsLargestTimeKeys(cfg: Config, board: map<string, Element>, ids: seq<string>)
    requires Distinct(ids)
    requires forall x :: x in ids <==> x in board
    ensures var r := board - Members(Evicted(cfg, board, ids));
      && (|board| <= cfg.maxItemCount || cfg.maxItemCount == 0 ==> r == board)
      && (|board| > cfg.maxItemCount > 0 ==> |r| == cfg.maxItemCount)
      && (forall k, j :: k in r && j in board && j !in r ==> TimeKey(board[j]) <= TimeKey(r[k]))
  {
    EvictionKeepsLargestKeys(cfg, board, ids, TimeKeys(board));
  }

  /** Because of the wrap, `clean` as written can evict the newer of two
      elements and keep the older one. */
  lemma CleanAsWrittenEvictsNewer()
    ensures var older := EmptyElement.(time := Present(0x7FFF_FFFF));
      var newer := EmptyElement.(time := Present(0x8000_0000));
      var board := map["a" := older, "b" := newer];
      var cfg := Config(1, 1, 1, 1);
      && Evicted(cfg, board, ["a", "b"]) == ["b"]
      && board - Members(Evicted(cfg, board, ["a", "b"])) == map["a" := older]
  {
  }

  /** `clean` by stamped time: exactly `maxItemCount` elements remain when
      there were more, and every retained element was stamped no earlier
      than every evicted one. */
  lemma EvictionKeepsNewest(cfg: Config, board: map<string, Element>, ids: seq<string>)
    requires Distinct(ids)
    requires forall x :: x in ids <==> x in board
    ensures var r := board - Members(EvictedOldest(cfg, board, ids));
      && (|board| <= cfg.maxItemCount || cfg.maxItemCount == 0 ==> r == board)
      && (|board| > cfg.maxItemCount > 0 ==> |r| == cfg.maxItemCount)
      && (forall k, j :: k in r && j in board && j !in r ==> StampedTime(board[j]) <= StampedTime(r[k]))
  {
    EvictionKeepsLargestKeys(cfg, board, ids, StampedTimes(board));
  }

  // ---------------------------------------------------------------------------
  // getAll

  /** Every key when no (or an empty) id is given, otherwise the keys that
      sort strictly after it (server/boardData.js:135). */
  predicate Selected(since: Option<string>, k: string) {
    since.None? || since.value == [] || StringLess(since.value, k)
  }

  /** The keys `getAll` selects. */
  function SelectedKeys(board: map<string, Element>, since: Option<string>): set<string> {
    set k | k in board && Selected(since, k)
  }

  /** A key is never after itself, so catching up from an id never repeats
      that element; and catching up from a later id selects fewer keys. */
  lemma SelectedExcludesAndNarrows(since: string, later: string, k: string)
    requires since != [] && (since == later || StringLess(since, later))
    ensures !Selected(Some(since), since)
    ensures Selected(Some(later), k) ==> Selected(Some(since), k)
  {
    StringLessIrreflexive(since);
    if StringLess(later, k) && since != later {
      StringLessTransitive(since, later, k);
    }
  }
}
