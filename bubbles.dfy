/**
 * The bookkeeping of the bubbles component: the vote tally and the registry of one circle
 * body per genre key. A vote replaces the clicked body by one with the same position, its
 * kicked velocity and the radius of its new count; the export writes the CSV text, zeroes
 * the tally and replaces every body by one of the base radius. The physics engine, the
 * random kick and the drawing are outside the model: the kick vector, the hit body and the
 * spawn positions and velocities are inputs.
 */
module Bubbles {
  import opened Common
  import opened Genres
  import Tally
  import TextFit

  datatype Vec = Vec(x: real, y: real)

  function Add(a: Vec, b: Vec): Vec { Vec(a.x + b.x, a.y + b.y) }

  /**
   * A circle body as the component reads and writes it: Matter.js's `position`,
   * `velocity`, `circleRadius`, `label` (here `key`, the genre key) and `render.fillStyle`.
   */
  datatype Body = Body(position: Vec, velocity: Vec, circleRadius: real, key: string, fill: string)

  const BASE_RADIUS: real := 30.0

  /** `b.circleRadius || BASE_RADIUS`. */
  function EffectiveRadius(b: Body): real
  {
    if b.circleRadius == 0.0 then BASE_RADIUS else b.circleRadius
  }

  /** Squared distance between two positions. */
  function Dist2(a: Vec, b: Vec): real
  {
    (b.x - a.x) * (b.x - a.x) + (b.y - a.y) * (b.y - a.y)
  }

  /**
   * `nearestOther(b)`: visits the bodies in `order` (the order `Object.values(bodyMap)`
   * gives), skips the clicked one, and keeps the first body at the least squared distance.
   * `None` when there is no other body.
   */
  method NearestOther(bodyMap: map<string, Body>, order: seq<string>, key: string) returns (best: Option<string>)
    requires key in bodyMap
    requires forall i :: 0 <= i < |order| ==> order[i] in bodyMap
    ensures best.None? <==> forall i :: 0 <= i < |order| ==> order[i] == key
    ensures best.Some? ==> exists i :: (
      && 0 <= i < |order| && order[i] == best.value && best.value != key
      && (forall j :: 0 <= j < |order| && order[j] != key ==>
            Dist2(bodyMap[key].position, bodyMap[best.value].position) <= Dist2(bodyMap[key].position, bodyMap[order[j]].position))
      && (forall j :: 0 <= j < i && order[j] != key ==>
            Dist2(bodyMap[key].position, bodyMap[best.value].position) < Dist2(bodyMap[key].position, bodyMap[order[j]].position)))
  {
    var here := bodyMap[key].position;
    best := None;
    var bestD2: real := 0.0;
    ghost var at := 0;
    var n := 0;
    while n < |order|
      invariant 0 <= n <= |order|
      invariant best.None? <==> forall i :: 0 <= i < n ==> order[i] == key
      invariant best.Some? ==> (
        && 0 <= at < n && order[at] == best.value && best.value != key
        && bestD2 == Dist2(here, bodyMap[best.value].position)
        && (forall j :: 0 <= j < n && order[j] != key ==> bestD2 <= Dist2(here, bodyMap[order[j]].position))
        && (forall j :: 0 <= j < at && order[j] != key ==> bestD2 < Dist2(here, bodyMap[order[j]].position)))
    {
      var o := order[n];
      if o != key {
        var d2 := Dist2(here, bodyMap[o].position);
        if best.None? || d2 < bestD2 {
          bestD2 := d2;
          best := Some(o);
          at := n;
        }
      }
      n := n + 1;
    }
  }

  /** The afterRender loop's choice for one body: the label of its genre fitted to its radius. */
  predicate LayoutOf(catalog: seq<Genre>, key: string, b: Body, measure: (int, string) -> real, font: int, lines: seq<string>)
  {
    TextFit.Chosen(LabelOf(catalog, key), EffectiveRadius(b), measure, font, lines)
  }

  class Board {
    const catalog: seq<Genre>
    /** `radiusForVotes`, whose square root the model does not compute. */
    const radiusForVotes: int -> real
    /** `votesRef.current`. */
    var votes: Tally.Votes
    /** `bodyMapRef.current`: genre key to its current body. */
    var bodyMap: map<string, Body>

    /**
     * Exactly one body per catalog key, labelled with its key, filled with its genre's
     * colour, and with the radius of its key's current count.
     */
    ghost predicate Valid()
      reads this
    {
      && bodyMap.Keys == KeySet(catalog)
      && forall k :: k in bodyMap ==>
           && bodyMap[k].key == k
           && bodyMap[k].fill == ColorOf(catalog, k)
           && bodyMap[k].circleRadius == radiusForVotes(Tally.VoteOf(votes, k))
    }

    /**
     * Mounting: the tally read from storage, and one body per genre in catalog order at the
     * given spawn position and velocity, sized by its stored count.
     */
    constructor (catalog: seq<Genre>, stored: Tally.Votes, spawn: seq<(Vec, Vec)>, radiusForVotes: int -> real)
      requires DistinctKeys(catalog)
      requires forall i :: 0 <= i < |catalog| ==> catalog[i].color != ""
      requires |spawn| == |catalog|
      ensures Valid()
      ensures this.catalog == catalog && this.radiusForVotes == radiusForVotes && votes == stored
      ensures forall i :: 0 <= i < |catalog| ==>
        bodyMap[catalog[i].key] == Body(spawn[i].0, spawn[i].1, radiusForVotes(Tally.VoteOf(stored, catalog[i].key)),
                                        catalog[i].key, catalog[i].color)
    {
      this.catalog := catalog;
      this.radiusForVotes := radiusForVotes;
      votes := stored;
      var m := SpawnBodies(catalog, stored, spawn, radiusForVotes);
      bodyMap := m;
      new;
      forall k | k in bodyMap
        ensures bodyMap[k].key == k && bodyMap[k].fill == ColorOf(catalog, k)
        ensures bodyMap[k].circleRadius == radiusForVotes(Tally.VoteOf(votes, k))
      {
        var j :| 0 <= j < |catalog| && catalog[j].key == k;
        FindDistinct(catalog, j);
      }
    }

    /** The bodies `makeBody` creates, one per genre in catalog order, keyed by genre key. */
    static method SpawnBodies(catalog: seq<Genre>, stored: Tally.Votes, spawn: seq<(Vec, Vec)>, radiusForVotes: int -> real)
      returns (m: map<string, Body>)
      requires DistinctKeys(catalog)
      requires |spawn| == |catalog|
      ensures m.Keys == KeySet(catalog)
      ensures forall i :: 0 <= i < |catalog| ==>
        m[catalog[i].key] == Body(spawn[i].0, spawn[i].1, radiusForVotes(Tally.VoteOf(stored, catalog[i].key)),
                                  catalog[i].key, catalog[i].color)
    {
      m := map[];
      var i := 0;
      while i < |catalog|
        invariant 0 <= i <= |catalog|
        invariant m.Keys == KeySet(catalog[..i])
        invariant forall j :: 0 <= j < i ==>
          m[catalog[j].key] == Body(spawn[j].0, spawn[j].1, radiusForVotes(Tally.VoteOf(stored, catalog[j].key)),
                                    catalog[j].key, catalog[j].color)
      {
        var g := catalog[i];
        var radius := radiusForVotes(Tally.VoteOf(stored, g.key));
        m := m[g.key := Body(spawn[i].0, spawn[i].1, radius, g.key, g.color)];
        KeySetPrefix(catalog, i);
        i := i + 1;
      }
      assert catalog[..|catalog|] == catalog;
    }

    /**
     * Mounting with the shipped catalog: its keys are distinct and every genre has a colour,
     * so the board starts out valid.
     */
    static method MountGenres(stored: Tally.Votes, spawn: seq<(Vec, Vec)>, radiusForVotes: int -> real) returns (board: Board)
      requires |spawn| == |GENRES|
      ensures fresh(board) && board.Valid()
      ensures board.catalog == GENRES && board.votes == stored
      ensures board.bodyMap.Keys == KeySet(GENRES) && |board.bodyMap| == 15
    {
      GenresWellFormed();
      board := new Board(GENRES, stored, spawn, radiusForVotes);
      KeyCount(GENRES);
    }

    /**
     * The `mousedown` handler. With no body under the pointer nothing changes. Otherwise the
     * hit body's velocity gets the kick added, the key's count goes up by one and every
     * other count stays, and the body is replaced by one at the same position, with the
     * kicked velocity, the same key and the radius of the new count; no other body changes.
     */
    method OnMouseDown(hit: Option<string>, kick: Vec)
      requires Valid()
      requires hit.Some? ==> hit.value in bodyMap
      modifies this
      ensures Valid()
      ensures hit.None? ==> votes == old(votes) && bodyMap == old(bodyMap)
      ensures hit.Some? ==> bodyMap[hit.value].fill == old(bodyMap)[hit.value].fill
      ensures hit.Some? ==>
        && votes == Tally.Increment(old(votes), hit.value)
        && bodyMap.Keys == old(bodyMap).Keys
        && bodyMap[hit.value] == Body(old(bodyMap)[hit.value].position,
                                      Add(old(bodyMap)[hit.value].velocity, kick),
                                      radiusForVotes(Tally.VoteOf(old(votes), hit.value) + 1),
                                      hit.value, ColorOf(catalog, hit.value))
        && forall k :: k in bodyMap && k != hit.value ==> bodyMap[k] == old(bodyMap)[k]
    {
      if hit.None? {
        return;
      }
      var key := hit.value;
      var b := bodyMap[key];
      // 1) movement: kickTowardNearest adds the kick to the body's velocity
      b := b.(velocity := Add(b.velocity, kick));
      // 2) votes
      var next := Tally.Increment(votes, key);
      votes := next;
      // 3) resize: replace the body, carrying position and velocity over
      var newRadius := radiusForVotes(next[key]);
      var newBody := Body(b.position, b.velocity, newRadius, key, ColorOf(catalog, key));
      bodyMap := bodyMap[key := newBody];
      forall k | k in bodyMap
        ensures bodyMap[k].key == k && bodyMap[k].fill == ColorOf(catalog, k)
        ensures bodyMap[k].circleRadius == radiusForVotes(Tally.VoteOf(votes, k))
      {
        if k != key {
          assert bodyMap[k] == old(bodyMap)[k];
        }
      }
    }

    /**
     * `exportCSV`: gives the CSV text of the tally as it was, then zeroes every catalog key
     * (dropping any other key) and replaces every body by one at the same position, with
     * the same velocity and key and the radius of zero votes.
     */
    method ExportCsv() returns (csv: string)
      requires Valid()
      modifies this
      ensures Valid()
      ensures csv == Tally.ExportCsv(catalog, old(votes))
      ensures votes == Tally.Zeroed(catalog)
      ensures bodyMap.Keys == old(bodyMap).Keys
      ensures forall k :: k in bodyMap ==> bodyMap[k] == Shrunk(old(bodyMap)[k], k)
      ensures forall k :: k in bodyMap ==> bodyMap[k].fill == old(bodyMap)[k].fill
    {
      csv := Tally.ExportCsv(catalog, votes);
      // RESET votes
      var zeroed := Tally.Zeroed(catalog);
      votes := zeroed;
      ShrinkAll();
      forall k | k in bodyMap
        ensures bodyMap[k].key == k && bodyMap[k].circleRadius == radiusForVotes(Tally.VoteOf(votes, k))
      {
        assert k in zeroed;
      }
    }

    /** The loop of `exportCSV` that replaces every body by its shrunk copy; the tally is left alone. */
    method ShrinkAll()
      modifies this
      ensures votes == old(votes)
      ensures bodyMap.Keys == old(bodyMap).Keys
      ensures forall k :: k in bodyMap ==> bodyMap[k] == Shrunk(old(bodyMap)[k], k)
    {
      var prev := bodyMap;
      var remaining := prev.Keys;
      while remaining != {}
        invariant remaining <= prev.Keys
        invariant votes == old(votes)
        invariant bodyMap.Keys == prev.Keys
        invariant forall k :: k in prev && k !in remaining ==> bodyMap[k] == Shrunk(prev[k], k)
        invariant forall k :: k in remaining ==> bodyMap[k] == prev[k]
        decreases remaining
      {
        var key :| key in remaining;
        bodyMap := bodyMap[key := Shrunk(bodyMap[key], key)];
        remaining := remaining - {key};
      }
    }

    /**
     * The body that replaces `b` under `key` on the reset: same position, velocity and
     * key, the radius of zero votes and the genre's colour.
     */
    function Shrunk(b: Body, key: string): Body
    {
      Body(b.position, b.velocity, radiusForVotes(0), key, ColorOf(catalog, key))
    }

    /**
     * The font search of the `afterRender` handler, body by body: each body's label is
     * fitted to its radius (the drawing itself is left out).
     */
    method LabelLayouts(measure: (int, string) -> real) returns (layouts: map<string, (int, seq<string>)>)
      ensures layouts.Keys == bodyMap.Keys
      ensures forall k :: k in layouts ==>
        LayoutOf(catalog, k, bodyMap[k], measure, layouts[k].0, layouts[k].1)
    {
      layouts := map[];
      var remaining := bodyMap.Keys;
      while remaining != {}
        invariant remaining <= bodyMap.Keys
        invariant layouts.Keys == bodyMap.Keys - remaining
        invariant forall k :: k in layouts ==>
          LayoutOf(catalog, k, bodyMap[k], measure, layouts[k].0, layouts[k].1)
        decreases remaining
      {
        var key :| key in remaining;
        var b := bodyMap[key];
        var font, lines := TextFit.FitFont(LabelOf(catalog, key), EffectiveRadius(b), measure);
        layouts := layouts[key := (font, lines)];
        remaining := remaining - {key};
      }
    }
  }
}
