/** The snake board: every cell carries a player and a countdown; no body is stored anywhere. */
module Snake {

  const SIDE: nat := 32
  const CELLS: nat := 1024
  const FRUIT: int := -1
  const SNAKE_LENGTH: nat := 5

  /** `struct block`. A board is 32 rows of 32 of them, row after row as C lays them out. */
  datatype Cell = Cell(uid: int, count: int)

  function Index(x: int, y: int): int {
    SIDE * x + y
  }

  /** A move of the head: the cell it went to and the length written there. */
  datatype Stamp = Stamp(pos: int, len: nat)

  // The moves of a player so far, oldest first. `drawn` is 1 between the redraw of an iteration and
  // the player's move in it, 0 otherwise. Age counts the redraws a stamp has seen.
  function Age(trail: seq<Stamp>, k: nat, drawn: nat): int {
    |trail| - 1 - k + drawn
  }

  predicate Shown(trail: seq<Stamp>, k: int, drawn: nat) {
    0 <= k < |trail| && Age(trail, k, drawn) <= trail[k].len
  }

  // Neighbours on the board, up, down, left or right.
  predicate Adjacent(c: int, d: int) {
    || (c / SIDE == d / SIDE && (c % SIDE == d % SIDE + 1 || d % SIDE == c % SIDE + 1))
    || (c % SIDE == d % SIDE && (c / SIDE == d / SIDE + 1 || d / SIDE == c / SIDE + 1))
  }

  ghost predicate TrailStep(trail: seq<Stamp>, k: int)
    requires 0 < k < |trail|
  {
    && trail[k - 1].len <= trail[k].len <= trail[k - 1].len + 1
    && Adjacent(trail[k - 1].pos, trail[k].pos)
  }

  // Heads moved cell by cell over the board, and the length grew by at most one at a time.
  ghost predicate TrailOk(trail: seq<Stamp>) {
    && trail != []
    && (forall k :: 0 <= k < |trail| ==> 0 <= trail[k].pos < CELLS && SNAKE_LENGTH <= trail[k].len)
    && (forall k :: 0 < k < |trail| ==> TrailStep(trail, k))
  }

  // Cell `c` is a head position of this player that has not expired.
  ghost predicate OnBody(trail: seq<Stamp>, c: int, drawn: nat) {
    exists k :: Shown(trail, k, drawn) && trail[k].pos == c
  }

  // The timer board refines the trail: exactly the unexpired head positions carry the player, each
  // with what is left of its countdown.
  ghost predicate Body(b: seq<Cell>, uid: int, trail: seq<Stamp>, drawn: nat) {
    && |b| == CELLS && TrailOk(trail)
    && (forall k :: Shown(trail, k, drawn) ==> b[trail[k].pos] == Cell(uid, trail[k].len - Age(trail, k, drawn)))
    && (forall c :: 0 <= c < CELLS && b[c].uid == uid ==> OnBody(trail, c, drawn))
  }

  // Cells without a player have no countdown, and there are no cells but these kinds.
  ghost predicate CellsOk(b: seq<Cell>) {
    && |b| == CELLS
    && forall c :: 0 <= c < CELLS ==>
      0 <= b[c].count && (b[c].uid == 0 || b[c].uid == FRUIT ==> b[c].count == 0)
  }

  ghost predicate OneFruit(b: seq<Cell>) {
    |b| == CELLS && exists f :: FruitOnlyAt(b, f)
  }

  ghost predicate FruitOnlyAt(b: seq<Cell>, f: int)
    requires |b| == CELLS
  {
    0 <= f < CELLS && forall c :: 0 <= c < CELLS ==> (b[c].uid == FRUIT <==> c == f)
  }

  // ---------- the snake as a queue ----------

  lemma {:induction false} LensGrow(trail: seq<Stamp>, k: nat, l: nat)
    requires TrailOk(trail) && k <= l < |trail|
    ensures trail[k].len <= trail[l].len
    decreases l
  {
    if k < l {
      LensGrow(trail, k, l - 1);
      assert TrailStep(trail, l);
    }
  }

  // What is shown is a contiguous run of moves up to the latest one.
  lemma ShownIsSuffix(trail: seq<Stamp>, k: nat, l: nat, drawn: nat)
    requires TrailOk(trail) && Shown(trail, k, drawn) && k <= l < |trail|
    ensures Shown(trail, l, drawn)
  {
    LensGrow(trail, k, l);
  }

  // Index of the oldest move still shown.
  function TailFrom(trail: seq<Stamp>, drawn: nat, k: nat): (r: nat)
    requires k <= |trail|
    ensures k <= r <= |trail|
    ensures r < |trail| ==> Shown(trail, r, drawn)
    ensures forall j :: k <= j < r ==> !Shown(trail, j, drawn)
    decreases |trail| - k
  {
    if k == |trail| || Shown(trail, k, drawn) then k else TailFrom(trail, drawn, k + 1)
  }

  // The body as a queue of cells, tail first, head last.
  function Queue(trail: seq<Stamp>, drawn: nat): seq<int> {
    Positions(trail, TailFrom(trail, drawn, 0))
  }

  function Positions(trail: seq<Stamp>, t: nat): (q: seq<int>)
    requires t <= |trail|
    ensures |q| == |trail| - t && forall i :: 0 <= i < |q| ==> q[i] == trail[t + i].pos
  {
    seq(|trail| - t, i requires 0 <= i < |trail| - t => trail[t + i].pos)
  }

  ghost predicate Distinct(q: seq<int>) {
    forall i, j :: 0 <= i < j < |q| ==> q[i] != q[j]
  }

  ghost predicate Path(q: seq<int>) {
    forall i :: 0 < i < |q| ==> AdjacentAt(q, i)
  }

  ghost predicate AdjacentAt(q: seq<int>, i: int)
    requires 0 < i < |q|
  {
    Adjacent(q[i - 1], q[i])
  }

  // On the board the player's cells are those of the queue: a simple path of neighbouring cells
  // that ends at the head and is at most one cell longer than the length.
  lemma BoardIsQueue(b: seq<Cell>, uid: int, trail: seq<Stamp>, drawn: nat)
    requires Body(b, uid, trail, drawn) && drawn <= 1
    ensures
      var q := Queue(trail, drawn);
      var last := trail[|trail| - 1];
      && q != [] && q[|q| - 1] == last.pos && |q| + drawn <= last.len + 1
      && Distinct(q) && Path(q)
      && forall c :: 0 <= c < CELLS ==> (b[c].uid == uid <==> c in q)
  {
    var t := TailFrom(trail, drawn, 0);
    var q := Queue(trail, drawn);
    var n := |trail|;
    assert Shown(trail, n - 1, drawn);
    LensGrow(trail, t, n - 1);
    forall i | 0 <= i < |q|
      ensures Shown(trail, t + i, drawn) && q[i] == trail[t + i].pos
    {
      ShownIsSuffix(trail, t, t + i, drawn);
    }
    QueuePath(trail, drawn);
    QueueDistinct(b, uid, trail, drawn);
    forall c | 0 <= c < CELLS
      ensures b[c].uid == uid <==> c in q
    {
      if b[c].uid == uid {
        var k :| Shown(trail, k, drawn) && trail[k].pos == c;
        assert q[k - t] == c;
      }
    }
  }

  lemma QueuePath(trail: seq<Stamp>, drawn: nat)
    requires TrailOk(trail)
    ensures Path(Queue(trail, drawn))
  {
    var t := TailFrom(trail, drawn, 0);
    var q := Queue(trail, drawn);
    forall i | 0 < i < |q|
      ensures AdjacentAt(q, i)
    {
      assert TrailStep(trail, t + i);
    }
  }

  // Two cells of the body differ: the countdown of the later one is higher.
  lemma QueueDistinct(b: seq<Cell>, uid: int, trail: seq<Stamp>, drawn: nat)
    requires Body(b, uid, trail, drawn)
    ensures Distinct(Queue(trail, drawn))
  {
    var t := TailFrom(trail, drawn, 0);
    var q := Queue(trail, drawn);
    forall i, j | 0 <= i < j < |q|
      ensures q[i] != q[j]
    {
      ShownIsSuffix(trail, t, t + i, drawn);
      ShownIsSuffix(trail, t, t + j, drawn);
      LensGrow(trail, t + i, t + j);
    }
  }

  // A move ages every earlier one by one redraw.
  lemma ShownAfterMove(trail: seq<Stamp>, s: Stamp, k: nat)
    requires k < |trail|
    ensures Shown(trail + [s], k, 0) <==> Age(trail, k, 0) < trail[k].len
  {
    assert (trail + [s])[k] == trail[k];
  }

  lemma TailIs(trail: seq<Stamp>, drawn: nat, t: nat)
    requires t <= |trail| && (t < |trail| ==> Shown(trail, t, drawn))
    requires forall j :: 0 <= j < t ==> !Shown(trail, j, drawn)
    ensures TailFrom(trail, drawn, 0) == t
  {
    hide Shown, TailFrom;
  }

  // At most the oldest cell expires in a move.
  lemma TailStep(trail: seq<Stamp>, s: Stamp)
    requires TrailOk(trail + [s]) && trail != []
    ensures
      var t := TailFrom(trail, 0, 0);
      t < |trail| && TailFrom(trail + [s], 0, 0) == if Age(trail, t, 0) < trail[t].len then t else t + 1
  {
    hide TrailOk, TailFrom, Shown, Age;
    var t := TailFrom(trail, 0, 0);
    LatestShown(trail, s);
    ShownAfterMove(trail, s, t);
    forall j | 0 <= j < t
      ensures !Shown(trail + [s], j, 0)
    {
      ExpiredStays(trail, s, j);
    }
    if Shown(trail + [s], t, 0) {
      TailIs(trail + [s], 0, t);
    } else {
      NextIsShown(trail, s, t);
      TailIs(trail + [s], 0, t + 1);
    }
  }

  lemma LatestShown(trail: seq<Stamp>, s: Stamp)
    requires TrailOk(trail + [s]) && trail != []
    ensures Shown(trail, |trail| - 1, 0)
  {
    assert (trail + [s])[|trail| - 1] == trail[|trail| - 1];
  }

  lemma ExpiredStays(trail: seq<Stamp>, s: Stamp, k: nat)
    requires k < |trail| && !Shown(trail, k, 0)
    ensures !Shown(trail + [s], k, 0)
  {
    ShownAfterMove(trail, s, k);
  }

  lemma NextIsShown(trail: seq<Stamp>, s: Stamp, t: nat)
    requires TrailOk(trail + [s]) && t < |trail| && Shown(trail, t, 0)
    ensures Shown(trail + [s], t + 1, 0)
  {
    var next := trail + [s];
    assert next[t] == trail[t];
    LensGrow(next, t, t + 1);
  }

  // A move puts the new head behind the queue; the front leaves it exactly when its countdown has
  // run out, and nothing else does.
  lemma QueueStep(trail: seq<Stamp>, s: Stamp)
    requires TrailOk(trail + [s]) && trail != []
    ensures
      var t := TailFrom(trail, 0, 0);
      && t < |trail| && Queue(trail, 0) != []
      && Queue(trail + [s], 0) == (if Age(trail, t, 0) < trail[t].len then Queue(trail, 0) else Queue(trail, 0)[1..]) + [s.pos]
  {
    hide *;
    TailStep(trail, s);
    var t := TailFrom(trail, 0, 0);
    if Age(trail, t, 0) < trail[t].len { QueueGrows(trail, s, t); } else { QueueMoves(trail, s, t); }
  }

  lemma QueueGrows(trail: seq<Stamp>, s: Stamp, t: nat)
    requires t < |trail| && TailFrom(trail, 0, 0) == t == TailFrom(trail + [s], 0, 0)
    ensures Queue(trail, 0) != [] && Queue(trail + [s], 0) == Queue(trail, 0) + [s.pos]
  {
    hide TailFrom;
    PositionsStep(trail, s, t);
  }

  lemma QueueMoves(trail: seq<Stamp>, s: Stamp, t: nat)
    requires t < |trail| && TailFrom(trail, 0, 0) == t && TailFrom(trail + [s], 0, 0) == t + 1
    ensures Queue(trail, 0) != [] && Queue(trail + [s], 0) == Queue(trail, 0)[1..] + [s.pos]
  {
    hide TailFrom, Positions;
    PositionsStep(trail, s, t);
    PositionsStep(trail, s, t + 1);
  }

  lemma PositionsStep(trail: seq<Stamp>, s: Stamp, t: nat)
    requires t <= |trail|
    ensures Positions(trail + [s], t) == Positions(trail, t) + [s.pos]
    ensures t < |trail| ==> Positions(trail, t) != [] && Positions(trail, t)[1..] == Positions(trail, t + 1)
  {
  }
}
