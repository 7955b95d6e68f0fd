/**
  The board's policy for element fields, and the normalisation that
  `BoardData.prototype.validate` applies to an element (in place, in the
  source; as a function of the element here).
  */
module Validator {
  import opened Elements

  /** Clamps an integer to [lo, hi] (server/boardData.js:208). */
  function ClampInt(v: int, lo: int, hi: int): (r: int)
    requires lo <= hi
    ensures lo <= r <= hi
    ensures lo <= v <= hi ==> r == v
    ensures v < lo ==> r == lo
    ensures hi < v ==> r == hi
  {
    var m := if v < lo then lo else v;
    if hi < m then hi else m
  }

  /** Clamps a (non-NaN) number to [lo, hi] (server/boardData.js:212, 215, 219). */
  function ClampReal(v: real, lo: real, hi: real): (r: real)
    requires lo <= hi
    ensures lo <= r <= hi
    ensures lo <= v <= hi ==> r == v
    ensures v < lo ==> r == lo
    ensures hi < v ==> r == hi
  {
    var m := if v < lo then lo else v;
    if hi < m then hi else m
  }

  /** The number is a whole number of tenths. */
  predicate OnTenthGrid(v: real) {
    (10.0 * v).Floor as real == 10.0 * v
  }

  /** Rounds to the nearest tenth, halves upwards (server/boardData.js:213). */
  function RoundTenth(v: real): (r: real)
    ensures OnTenthGrid(r)
    ensures v - 0.05 < r <= v + 0.05
    ensures OnTenthGrid(v) ==> r == v
  {
    var k := (10.0 * v + 0.5).Floor;
    assert 10.0 * (k as real / 10.0) == k as real;
    assert OnTenthGrid(v) ==> k == (10.0 * v).Floor;
    k as real / 10.0
  }

  /** Rounding a number of the range [0, max] stays in that range when max is whole. */
  lemma RoundTenthInRange(v: real, max: nat)
    requires 0.0 <= v <= max as real
    ensures 0.0 <= RoundTenth(v) <= max as real
  {
    var k := (10.0 * v + 0.5).Floor;
    assert k as real <= 10.0 * (max as real) + 0.5;
    assert k <= 10 * max;
  }

  /** The size coercion: NaN and 0 become 1, then the value is clamped to
      [1, 50] (server/boardData.js:207-208). */
  function NormalizeSize(f: Field<Option<int>>): Field<Option<int>>
  {
    match f
    case Absent => Absent
    case Present(p) =>
      var n := if p == None || p == Some(0) then 1 else p.value;
      Present(Some(ClampInt(n, 1, 50)))
  }

  /** A coordinate: NaN becomes 0, then the value is clamped to [0, max] and
      rounded to tenths (server/boardData.js:211-216). A field the object
      does not own parses as NaN. */
  function Coordinate(f: Field<Option<real>>, max: nat): Option<real>
  {
    var v := if f.Present? && f.value.Some? then f.value.value else 0.0;
    Some(RoundTenth(ClampReal(v, 0.0, max as real)))
  }

  /** Opacity clamped to [0.1, 1], with NaN read as 1, and the field deleted
      when the result is 1 (server/boardData.js:218-221). */
  function NormalizeOpacity(f: Field<Option<real>>): Field<Option<real>>
  {
    match f
    case Absent => Absent
    case Present(p) =>
      var o := if p.None? then 1.0 else ClampReal(p.value, 0.1, 1.0);
      if o == 1.0 then Absent else Present(Some(o))
  }

  /** The children an array keeps: its first `maxChildren` entries. */
  function Kept(cfg: Config, c: Children): seq<Element>
  {
    var kids := if c.Items? then c.elems else [];
    if |kids| > cfg.maxChildren then kids[..cfg.maxChildren] else kids
  }

  /** What `validate` makes of an element: it coerces size, position and
      opacity, replaces a non-array `_children` by `[]`, cuts the array to
      `maxChildren` entries and then validates each remaining child. */
  function Normalize(cfg: Config, e: Element): Element
    decreases e
  {
    var positioned := e.x.Present? || e.y.Present?;
    e.(size := NormalizeSize(e.size),
       x := if positioned then Present(Coordinate(e.x, cfg.maxBoardSizeX)) else e.x,
       y := if positioned then Present(Coordinate(e.y, cfg.maxBoardSizeY)) else e.y,
       opacity := NormalizeOpacity(e.opacity),
       children :=
         match e.children
         case Absent => Absent
         case Present(c) =>
           var kept := Kept(cfg, c);
           assert forall i :: 0 <= i < |kept| ==> kept[i] in c.elems;
           Present(Items(seq(|kept|, i requires 0 <= i < |kept| => Normalize(cfg, kept[i])))))
  }

  // ---------------------------------------------------------------------------
  // The policy: what a validated element satisfies.

  predicate SizeConforms(f: Field<Option<int>>) {
    f.Present? ==> f.value.Some? && 1 <= f.value.value <= 50
  }

  predicate CoordinateConforms(f: Field<Option<real>>, max: nat) {
    f.Present? && f.value.Some? && 0.0 <= f.value.value <= max as real && OnTenthGrid(f.value.value)
  }

  predicate PositionConforms(cfg: Config, e: Element) {
    (e.x.Absent? && e.y.Absent?) ||
    (CoordinateConforms(e.x, cfg.maxBoardSizeX) && CoordinateConforms(e.y, cfg.maxBoardSizeY))
  }

  predicate OpacityConforms(f: Field<Option<real>>) {
    f.Present? ==> f.value.Some? && 0.1 <= f.value.value < 1.0
  }

  /** The element and all its descendants follow the board's policy. */
  predicate Conforms(cfg: Config, e: Element)
    decreases e
  {
    && SizeConforms(e.size)
    && PositionConforms(cfg, e)
    && OpacityConforms(e.opacity)
    && match e.children
       case Absent => true
       case Present(c) =>
         && c.Items?
         && |c.elems| <= cfg.maxChildren
         && forall i :: 0 <= i < |c.elems| ==> Conforms(cfg, c.elems[i])
  }

  // ---------------------------------------------------------------------------
  // Properties of the normalisation.

  /** A field the element has keeps a size in [1, 50]: NaN and 0 become 1,
      every other integer is clamped. An element without size gains none. */
  lemma NormalizedSize(cfg: Config, e: Element)
    ensures Normalize(cfg, e).size.Present? <==> e.size.Present?
    ensures e.size.Present? ==>
      Normalize(cfg, e).size.value.Some? && 1 <= Normalize(cfg, e).size.value.value <= 50
    ensures e.size == Present(None) || e.size == Present(Some(0)) ==>
      Normalize(cfg, e).size == Present(Some(1))
    ensures forall n :: e.size == Present(Some(n)) && n != 0 ==>
      Normalize(cfg, e).size == Present(Some(if n < 1 then 1 else if n > 50 then 50 else n))
  {
  }

  /** When either coordinate is present, both are afterwards: each clamped to
      the board, rounded to tenths, and 0 for a value that does not parse. */
  lemma NormalizedPosition(cfg: Config, e: Element)
    ensures e.x.Absent? && e.y.Absent? ==> Normalize(cfg, e).x.Absent? && Normalize(cfg, e).y.Absent?
    ensures e.x.Present? || e.y.Present? ==>
      && CoordinateConforms(Normalize(cfg, e).x, cfg.maxBoardSizeX)
      && CoordinateConforms(Normalize(cfg, e).y, cfg.maxBoardSizeY)
    ensures e.x.Present? || e.y.Present? ==>
      (e.x.Absent? || e.x.value.None? ==> Normalize(cfg, e).x == Present(Some(0.0)))
    ensures e.x.Present? || e.y.Present? ==>
      (e.y.Absent? || e.y.value.None? ==> Normalize(cfg, e).y == Present(Some(0.0)))
    ensures forall v :: e.x == Present(Some(v)) ==>
      var c := ClampReal(v, 0.0, cfg.maxBoardSizeX as real);
      c - 0.05 < Normalize(cfg, e).x.value.value <= c + 0.05
    ensures forall v :: e.y == Present(Some(v)) ==>
      var c := ClampReal(v, 0.0, cfg.maxBoardSizeY as real);
      c - 0.05 < Normalize(cfg, e).y.value.value <= c + 0.05
  {
    if e.x.Present? || e.y.Present? {
      var vx := if e.x.Present? && e.x.value.Some? then e.x.value.value else 0.0;
      var vy := if e.y.Present? && e.y.value.Some? then e.y.value.value else 0.0;
      RoundTenthInRange(ClampReal(vx, 0.0, cfg.maxBoardSizeX as real), cfg.maxBoardSizeX);
      RoundTenthInRange(ClampReal(vy, 0.0, cfg.maxBoardSizeY as real), cfg.maxBoardSizeY);
    }
  }

  /** Opacity is clamped to [0.1, 1] and deleted when it is NaN or 1; an
      element without opacity gains none. */
  lemma NormalizedOpacity(cfg: Config, e: Element)
    ensures e.opacity.Absent? ==> Normalize(cfg, e).opacity.Absent?
    ensures e.opacity == Present(None) ==> Normalize(cfg, e).opacity.Absent?
    ensures forall v :: e.opacity == Present(Some(v)) ==>
      Normalize(cfg, e).opacity ==
        (if v >= 1.0 then Absent else Present(Some(if v < 0.1 then 0.1 else v)))
    ensures OpacityConforms(Normalize(cfg, e).opacity)
  {
  }

  /** A non-array `_children` becomes `[]`; an array keeps its first
      `min(length, maxChildren)` entries in order, each validated. */
  lemma NormalizedChildren(cfg: Config, e: Element)
    ensures e.children.Absent? ==> Normalize(cfg, e).children.Absent?
    ensures e.children == Present(NotArray) ==> Normalize(cfg, e).children == Present(Items([]))
    ensures forall s :: e.children == Present(Items(s)) ==>
      var r := Normalize(cfg, e).children;
      && r.Present? && r.value.Items?
      && |r.value.elems| == (if |s| < cfg.maxChildren then |s| else cfg.maxChildren)
      && forall i :: 0 <= i < |r.value.elems| ==> r.value.elems[i] == Normalize(cfg, s[i])
  {
  }

  /** Time and the opaque payload pass through untouched. */
  lemma NormalizeKeepsTimeAndPayload(cfg: Config, e: Element)
    ensures Normalize(cfg, e).time == e.time
    ensures Normalize(cfg, e).payload == e.payload
  {
  }

  /** Every validated element follows the policy, recursively. */
  lemma {:induction false} NormalizeConforms(cfg: Config, e: Element)
    ensures Conforms(cfg, Normalize(cfg, e))
    decreases e
  {
    NormalizedPosition(cfg, e);
    var r := Normalize(cfg, e);
    if e.children.Present? {
      var kept := Kept(cfg, e.children.value);
      forall i | 0 <= i < |kept|
        ensures Conforms(cfg, r.children.value.elems[i])
      {
        assert kept[i] in e.children.value.elems;
        NormalizeConforms(cfg, kept[i]);
      }
    }
  }

  /** An element that follows the policy is left as it is. */
  lemma {:induction false} ConformingIsFixpoint(cfg: Config, e: Element)
    requires Conforms(cfg, e)
    ensures Normalize(cfg, e) == e
    decreases e
  {
    var r := Normalize(cfg, e);
    if e.x.Present? || e.y.Present? {
      assert r.x == e.x;
      assert r.y == e.y;
    }
    if e.children.Present? {
      var s := e.children.value.elems;
      assert Kept(cfg, e.children.value) == s;
      forall i | 0 <= i < |s|
        ensures r.children.value.elems[i] == s[i]
      {
        ConformingIsFixpoint(cfg, s[i]);
      }
      assert r.children.value.elems == s;
    }
  }

  /** Validating twice is the same as validating once. */
  lemma NormalizeIdempotent(cfg: Config, e: Element)
    ensures Normalize(cfg, Normalize(cfg, e)) == Normalize(cfg, e)
  {
    NormalizeConforms(cfg, e);
    ConformingIsFixpoint(cfg, Normalize(cfg, e));
  }
}
