/** The steps of the snake game on its board of countdowns: redraw, and a player's move. */
module SnakeSteps {
  import opened Bytes
  import opened Snake

  // ---------- the steps on the board ----------

  // What the redraw does to a cell.
  function Redrawn(c: Cell): Cell {
    if c.count > 0 then c.(count := c.count - 1)
    else if c.uid != FRUIT then c.(uid := 0)
    else c
  }

  function Redraw(b: seq<Cell>): (r: seq<Cell>)
    ensures |r| == |b| && forall i :: 0 <= i < |b| ==> r[i] == Redrawn(b[i])
  {
    seq(|b|, i requires 0 <= i < |b| => Redrawn(b[i]))
  }

  lemma RedrawBody(b: seq<Cell>, uid: int, trail: seq<Stamp>)
    requires Body(b, uid, trail, 0) && uid > 0
    ensures Body(Redraw(b), uid, trail, 1)
  {
    var b' := Redraw(b);
    forall k | Shown(trail, k, 1)
      ensures b'[trail[k].pos] == Cell(uid, trail[k].len - Age(trail, k, 1))
    {
      assert Shown(trail, k, 0);
    }
    forall c | 0 <= c < CELLS && b'[c].uid == uid
      ensures OnBody(trail, c, 1)
    {
      var k :| Shown(trail, k, 0) && trail[k].pos == c;
      assert b[trail[k].pos].count == trail[k].len - Age(trail, k, 0);
      assert Shown(trail, k, 1);
    }
  }

  lemma RedrawBoard(b: seq<Cell>)
    requires CellsOk(b)
    ensures CellsOk(Redraw(b))
    ensures OneFruit(b) ==> OneFruit(Redraw(b))
  {
    if OneFruit(b) {
      var f :| FruitOnlyAt(b, f);
      assert FruitOnlyAt(Redraw(b), f);
    }
  }

  // The mover's stamp on a cell that was not its own or another snake's.
  lemma StampBody(b: seq<Cell>, uid: int, trail: seq<Stamp>, c: int, len: nat)
    requires Body(b, uid, trail, 1) && uid > 0 && 0 <= c < CELLS && b[c].uid != uid
    requires var last := trail[|trail| - 1]; last.len <= len <= last.len + 1 && Adjacent(last.pos, c)
    ensures Body(b[c := Cell(uid, len)], uid, trail + [Stamp(c, len)], 0)
  {
    var b' := b[c := Cell(uid, len)];
    var next := trail + [Stamp(c, len)];
    assert forall k :: 0 < k < |trail| ==> TrailStep(trail, k);
    forall k | 0 < k < |next|
      ensures TrailStep(next, k)
    {
      assert k < |trail| ==> TrailStep(trail, k);
    }
    forall k | Shown(next, k, 0)
      ensures b'[next[k].pos] == Cell(uid, next[k].len - Age(next, k, 0))
    {
      if k < |trail| { assert Shown(trail, k, 1); }
    }
    forall d | 0 <= d < CELLS && b'[d].uid == uid
      ensures OnBody(next, d, 0)
    {
      if d == c {
        assert Shown(next, |trail|, 0);
      } else {
        var k :| Shown(trail, k, 1) && trail[k].pos == d;
        assert Shown(next, k, 0) && next[k].pos == d;
      }
    }
  }

  // A cell that is not this player's, rewritten to something that is not either.
  lemma OtherBody(b: seq<Cell>, uid: int, trail: seq<Stamp>, drawn: nat, c: int, cell: Cell)
    requires Body(b, uid, trail, drawn) && 0 <= c < CELLS && b[c].uid != uid && cell.uid != uid
    ensures Body(b[c := cell], uid, trail, drawn)
  {
  }

  // ---------- players ----------

  /** The four keys of a player. */
  datatype Controller = Controller(up: int, down: int, left: int, right: int) {
    predicate Valid() {
      && up != down && up != left && up != right && down != left && down != right && left != right
      && up != 0 && down != 0 && left != 0 && right != 0
    }

    predicate Has(key: int) {
      key == up || key == down || key == left || key == right
    }
  }

  // Where the head goes; coordinates are unsigned 64-bit.
  function MovedX(x: nat, keys: Controller, dir: int): nat {
    if dir == keys.up then x
    else if dir == keys.right then (x + 1) % U64
    else if dir == keys.down then x
    else if dir == keys.left then (x + U64 - 1) % U64
    else x
  }

  function MovedY(y: nat, keys: Controller, dir: int): nat {
    if dir == keys.up then (y + U64 - 1) % U64
    else if dir == keys.right then y
    else if dir == keys.down then (y + 1) % U64
    else y
  }

  // The direction after a key: none or the opposite one changes nothing.
  function Turned(keys: Controller, headDir: int, dir: int): int {
    if dir == 0
      || (dir == keys.up && headDir == keys.down) || (dir == keys.down && headDir == keys.up)
      || (dir == keys.left && headDir == keys.right) || (dir == keys.right && headDir == keys.left)
    then headDir else dir
  }

  // On the board, a move goes to a neighbouring cell, never straight back.
  lemma MoveIsAdjacent(x: nat, y: nat, keys: Controller, dir: int)
    requires x < SIDE && y < SIDE && keys.Valid() && keys.Has(dir)
    ensures
      var x', y' := MovedX(x, keys, dir), MovedY(y, keys, dir);
      x' < SIDE && y' < SIDE ==> Adjacent(Index(x, y), Index(x', y')) && 0 <= Index(x', y') < CELLS
  {
    IndexParts(x, y);
    var x', y' := MovedX(x, keys, dir), MovedY(y, keys, dir);
    if x' < SIDE && y' < SIDE { IndexParts(x', y'); }
  }

  lemma IndexParts(x: nat, y: nat)
    requires x < SIDE && y < SIDE
    ensures Index(x, y) / SIDE == x && Index(x, y) % SIDE == y && 0 <= Index(x, y) < CELLS
  {
  }

  // ---------- fruit ----------

  // A fruit eaten and stamped over, and a new one on an empty cell.
  lemma NewFruit(b: seq<Cell>, head: int, f: int, uid: int, len: nat)
    requires OneFruit(b) && CellsOk(b) && 0 <= head < CELLS && 0 <= f < CELLS && f != head && uid > 0
    requires b[head].uid == FRUIT && b[f].uid == 0
    ensures
      var b' := b[head := Cell(uid, len)][f := b[f].(uid := FRUIT)];
      OneFruit(b') && CellsOk(b')
  {
    var b' := b[head := Cell(uid, len)][f := b[f].(uid := FRUIT)];
    var old_f :| FruitOnlyAt(b, old_f);
    assert FruitOnlyAt(b', f);
  }

  lemma SameFruit(b: seq<Cell>, head: int, uid: int, len: nat)
    requires OneFruit(b) && CellsOk(b) && 0 <= head < CELLS && uid > 0 && b[head].uid != FRUIT
    ensures OneFruit(b[head := Cell(uid, len)]) && CellsOk(b[head := Cell(uid, len)])
  {
    var f :| FruitOnlyAt(b, f);
    assert FruitOnlyAt(b[head := Cell(uid, len)], f);
  }

  // ---------- a player's move ----------

  /** What a move changes in a player. */
  datatype Head = Head(x: nat, y: nat, dir: int, len: nat, alive: bool)

  // Cell index behind board[x][y], as the address arithmetic wraps around.
  function FlatIndex(x: nat, y: nat): nat {
    (SIDE * x + y) % 0x2000_0000_0000_0000
  }

  predicate Carries(b: seq<Cell>, c: int, uid: int) {
    0 <= c < |b| && b[c].uid == uid
  }

  // Is the cell the head is about to enter on the board and free of snakes?
  predicate Enters(b: seq<Cell>, x: nat, y: nat)
    requires |b| == CELLS
  {
    x < SIDE && y < SIDE && (b[Index(x, y)].uid == 0 || b[Index(x, y)].uid == FRUIT)
  }

  // All cells of the player are emptied, and no others change.
  function Emptied(b: seq<Cell>, uid: int): (r: seq<Cell>)
    ensures |r| == |b| && forall c :: 0 <= c < |b| ==> r[c] == if b[c].uid == uid then Cell(0, 0) else b[c]
  {
    seq(|b|, c requires 0 <= c < |b| => if b[c].uid == uid then Cell(0, 0) else b[c])
  }

  // A write to board[x][y], which may lie outside the board.
  function Stamped(b: seq<Cell>, at: nat, cell: Cell): (r: seq<Cell>)
    ensures |r| == |b|
  {
    if at < |b| then b[at := cell] else b
  }

  // As much of the random sequence as is looked at: a column and a row of the board for each try.
  type Rolls = seq<(nat, nat)>

  predicate ValidRolls(rolls: Rolls) {
    forall i :: 0 <= i < |rolls| ==> rolls[i].0 < SIDE && rolls[i].1 < SIDE
  }

  // Try `i` hits an empty cell, and no try before it does.
  ghost predicate FirstTry(b: seq<Cell>, rolls: Rolls, i: int)
    requires |b| == CELLS && ValidRolls(rolls)
  {
    && 0 <= i < |rolls| && b[Index(rolls[i].0, rolls[i].1)].uid == 0
    && forall j :: 0 <= j < i ==> b[Index(rolls[j].0, rolls[j].1)].uid != 0
  }

  // The cell that `food` settles on: the first empty one that is tried.
  function FirstEmpty(b: seq<Cell>, rolls: Rolls): (r: Option<nat>)
    requires |b| == CELLS && ValidRolls(rolls)
    ensures r.Some? ==> r.value < CELLS && b[r.value].uid == 0
    ensures r.Some? ==> exists i :: FirstTry(b, rolls, i) && r.value == Index(rolls[i].0, rolls[i].1)
    ensures r.None? <==> forall i :: 0 <= i < |rolls| ==> b[Index(rolls[i].0, rolls[i].1)].uid != 0
  {
    if rolls == [] then None
    else if b[Index(rolls[0].0, rolls[0].1)].uid == 0 then
      assert FirstTry(b, rolls, 0);
      Some(Index(rolls[0].0, rolls[0].1))
    else
      assert forall i :: 0 < i < |rolls| ==> rolls[i] == rolls[1..][i - 1];
      assert forall i :: FirstTry(b, rolls[1..], i) ==> FirstTry(b, rolls, i + 1);
      FirstEmpty(b, rolls[1..])
  }

  // The head enters the fruit, and every try for a new place hits a cell in use: the search goes on
  // beyond `rolls`.
  predicate NoPlace(b: seq<Cell>, x: nat, y: nat, rolls: Rolls)
    requires |b| == CELLS && ValidRolls(rolls)
  {
    Enters(b, x, y) && b[Index(x, y)].uid == FRUIT && forall i :: 0 <= i < |rolls| ==> b[Index(rolls[i].0, rolls[i].1)].uid != 0
  }

  // What `check_collision` makes of the head when it runs against a wall or a snake.
  ghost function Collided(b: seq<Cell>, h: Head, uid: int, x: nat, y: nat): Head {
    if exists d :: Carries(b, d, uid) then h.(x := U64 - 1, y := U64 - 1, len := 0, alive := false)
    else h.(x := x, y := y, alive := false)
  }

  // A move to (x, y) of a player, dead or alive: into a free cell, onto the fruit with the next one
  // at the first empty cell that is tried, or against a wall or a snake. In the last case its cells
  // are cleared, and its stamp goes where its head coordinates lead then. None while the search for
  // a place for the fruit goes on.
  ghost function MoveTo(b: seq<Cell>, h: Head, uid: int, x: nat, y: nat, rolls: Rolls): (r: Option<(seq<Cell>, Head)>)
    requires |b| == CELLS && ValidRolls(rolls)
    ensures r.Some? ==> |r.value.0| == CELLS
    ensures r.None? <==> NoPlace(b, x, y, rolls)
  {
    var c := Index(x, y);
    if NoPlace(b, x, y, rolls) then None
    else if Enters(b, x, y) && b[c].uid == 0 then
      Some((b[c := Cell(uid, h.len)], h.(x := x, y := y)))
    else if Enters(b, x, y) then
      var spot := FirstEmpty(b, rolls).value;
      Some((b[c := Cell(uid, h.len + 1)][spot := b[spot].(uid := FRUIT)], h.(x := x, y := y, len := h.len + 1)))
    else
      var h' := Collided(b, h, uid, x, y);
      Some((Stamped(Emptied(b, uid), FlatIndex(h'.x, h'.y), Cell(uid, h'.len)), h'))
  }

  // `update_position`: turn, move, check, stamp.
  ghost function StepBy(b: seq<Cell>, h: Head, uid: int, keys: Controller, key: int, rolls: Rolls): (r: Option<(seq<Cell>, Head)>)
    requires |b| == CELLS && ValidRolls(rolls)
    ensures r.Some? ==> |r.value.0| == CELLS
    ensures
      var dir := Turned(keys, h.dir, key);
      r.None? <==> NoPlace(b, MovedX(h.x, keys, dir), MovedY(h.y, keys, dir), rolls)
  {
    var dir := Turned(keys, h.dir, key);
    MoveTo(b, h.(dir := dir), uid, MovedX(h.x, keys, dir), MovedY(h.y, keys, dir), rolls)
  }

  // ---------- what a move keeps ----------

  // The move stamps no cell that is the fruit or belongs to one of `guarded`: it enters a free cell
  // or the fruit, or it leaves the board because the player has cells to clear, or it lands outside
  // or on a cell of another kind.
  predicate Harmless(b: seq<Cell>, uid: int, x: nat, y: nat, guarded: set<int>)
    requires |b| == CELLS
  {
    || Enters(b, x, y) || (exists d :: 0 <= d < |b| && Carries(b, d, uid)) || CELLS <= FlatIndex(x, y)
    || b[FlatIndex(x, y)].uid !in guarded
  }

  // Without cells to clear, a move against a wall or a snake is the stamp alone.
  lemma StampOnly(b: seq<Cell>, h: Head, uid: int, x: nat, y: nat, rolls: Rolls, b': seq<Cell>, h': Head)
    requires |b| == CELLS && ValidRolls(rolls) && MoveTo(b, h, uid, x, y, rolls) == Some((b', h'))
    requires !Enters(b, x, y) && !exists d :: Carries(b, d, uid)
    ensures h' == h.(x := x, y := y, alive := false) && b' == Stamped(b, FlatIndex(x, y), Cell(uid, h.len))
  {
    forall c | 0 <= c < CELLS
      ensures b[c].uid != uid
    {
      assert !Carries(b, c, uid);
    }
    assert Emptied(b, uid) == b;
  }

  // With cells to clear, it is the clearing alone.
  lemma ClearOnly(b: seq<Cell>, h: Head, uid: int, x: nat, y: nat, rolls: Rolls, b': seq<Cell>, h': Head, d: int)
    requires |b| == CELLS && ValidRolls(rolls) && MoveTo(b, h, uid, x, y, rolls) == Some((b', h')) && !Enters(b, x, y) && Carries(b, d, uid)
    ensures b' == Emptied(b, uid) && h' == h.(x := U64 - 1, y := U64 - 1, len := 0, alive := false)
  {
    FarAway();
  }

  lemma FarAway()
    ensures FlatIndex(U64 - 1, U64 - 1) >= CELLS
  {
    assert SIDE * (U64 - 1) + (U64 - 1) == 263 * 0x2000_0000_0000_0000 + (0x2000_0000_0000_0000 - 33);
  }

  lemma MoveKeepsCells(b: seq<Cell>, h: Head, uid: int, x: nat, y: nat, rolls: Rolls, b': seq<Cell>, h': Head)
    requires CellsOk(b) && uid > 0 && ValidRolls(rolls) && MoveTo(b, h, uid, x, y, rolls) == Some((b', h'))
    ensures CellsOk(b')
  {
  }

  // One fruit stays on the board exactly when the move does not stamp it.
  lemma FruitKeptIff(b: seq<Cell>, h: Head, uid: int, x: nat, y: nat, rolls: Rolls, b': seq<Cell>, h': Head)
    requires CellsOk(b) && OneFruit(b) && uid > 0 && ValidRolls(rolls) && MoveTo(b, h, uid, x, y, rolls) == Some((b', h'))
    ensures OneFruit(b') <==> Harmless(b, uid, x, y, {FRUIT})
  {
    if Enters(b, x, y) {
      var c := Index(x, y);
      if b[c].uid == 0 { SameFruit(b, c, uid, h.len); } else { NewFruit(b, c, FirstEmpty(b, rolls).value, uid, h'.len); }
    } else if d :| Carries(b, d, uid) {
      ClearOnly(b, h, uid, x, y, rolls, b', h', d);
      var f :| FruitOnlyAt(b, f);
      assert FruitOnlyAt(b', f);
    } else {
      StampOnly(b, h, uid, x, y, rolls, b', h');
      StampFruitIff(b, FlatIndex(x, y), Cell(uid, h.len));
    }
  }

  lemma StampFruitIff(b: seq<Cell>, at: nat, cell: Cell)
    requires OneFruit(b) && cell.uid > 0
    ensures OneFruit(Stamped(b, at, cell)) <==> CELLS <= at || b[at].uid != FRUIT
  {
    var f :| FruitOnlyAt(b, f);
    var b' := Stamped(b, at, cell);
    if at != f {
      assert FruitOnlyAt(b', f);
    } else {
      forall g
        ensures !FruitOnlyAt(b', g)
      {
        assert b'[f].uid != FRUIT && (0 <= g < CELLS && g != f ==> b'[g].uid != FRUIT);
      }
    }
  }

  // Another player's snake stays on the board exactly when the move does not stamp it.
  lemma BodyKeptIff(b: seq<Cell>, h: Head, uid: int, x: nat, y: nat, rolls: Rolls, b': seq<Cell>, h': Head, uid2: int, trail2: seq<Stamp>, drawn2: nat)
    requires |b| == CELLS && uid > 0 && ValidRolls(rolls) && MoveTo(b, h, uid, x, y, rolls) == Some((b', h'))
    requires Body(b, uid2, trail2, drawn2) && uid2 > 0 && uid2 != uid
    ensures Body(b', uid2, trail2, drawn2) <==> Harmless(b, uid, x, y, {uid2})
  {
    if Enters(b, x, y) {
      var c := Index(x, y);
      IndexParts(x, y);
      OtherBody(b, uid2, trail2, drawn2, c, Cell(uid, h'.len));
      if b[c].uid != 0 {
        var spot := FirstEmpty(b, rolls).value;
        OtherBody(b[c := Cell(uid, h'.len)], uid2, trail2, drawn2, spot, b[spot].(uid := FRUIT));
      }
    } else if d :| Carries(b, d, uid) {
      ClearOnly(b, h, uid, x, y, rolls, b', h', d);
      EmptiedBody(b, uid, uid2, trail2, drawn2);
    } else {
      StampOnly(b, h, uid, x, y, rolls, b', h');
      StampBodyIff(b, FlatIndex(x, y), Cell(uid, h.len), uid2, trail2, drawn2);
    }
  }

  lemma StampBodyIff(b: seq<Cell>, at: nat, cell: Cell, uid2: int, trail2: seq<Stamp>, drawn2: nat)
    requires Body(b, uid2, trail2, drawn2) && cell.uid != uid2
    ensures Body(Stamped(b, at, cell), uid2, trail2, drawn2) <==> CELLS <= at || b[at].uid != uid2
  {
    if at < CELLS {
      if b[at].uid != uid2 {
        OtherBody(b, uid2, trail2, drawn2, at, cell);
      } else {
        assert OnBody(trail2, at, drawn2);
      }
    }
  }

  lemma EmptiedBody(b: seq<Cell>, uid: int, uid2: int, trail2: seq<Stamp>, drawn2: nat)
    requires Body(b, uid2, trail2, drawn2) && uid2 > 0 && uid2 != uid
    ensures Body(Emptied(b, uid), uid2, trail2, drawn2)
  {
  }

  // A living player's move keeps fruit and all other snakes: it has cells of its own.
  lemma LivingIsHarmless(b: seq<Cell>, uid: int, trail: seq<Stamp>, x: nat, y: nat, guarded: set<int>)
    requires Body(b, uid, trail, 1)
    ensures Harmless(b, uid, x, y, guarded)
  {
    assert Shown(trail, |trail| - 1, 1);
    assert Carries(b, trail[|trail| - 1].pos, uid);
  }

  // A living player that survives its move is shown in full afterwards, its new head last.
  lemma LivingMove(b: seq<Cell>, h: Head, uid: int, x: nat, y: nat, rolls: Rolls, b': seq<Cell>, h': Head, trail: seq<Stamp>)
    requires |b| == CELLS && uid > 0 && ValidRolls(rolls) && MoveTo(b, h, uid, x, y, rolls) == Some((b', h')) && Enters(b, x, y)
    requires Body(b, uid, trail, 1) && trail[|trail| - 1].len == h.len && Adjacent(trail[|trail| - 1].pos, Index(x, y))
    ensures Body(b', uid, trail + [Stamp(Index(x, y), h'.len)], 0)
  {
    var c := Index(x, y);
    IndexParts(x, y);
    StampBody(b, uid, trail, c, h'.len);
    if b[c].uid != 0 {
      var spot := FirstEmpty(b, rolls).value;
      OtherBody(b[c := Cell(uid, h'.len)], uid, trail + [Stamp(c, h'.len)], 0, spot, b[spot].(uid := FRUIT));
    }
  }

  // Two moves of one player in one round: the first stamp is a move old but has its full countdown,
  // so the board does not show the player's trail.
  lemma TwoMovesPerRedraw(b: seq<Cell>, h: Head, uid: int, trail: seq<Stamp>, x1: nat, y1: nat, rolls1: Rolls, b1: seq<Cell>, h1: Head,
      g1: Head, x2: nat, y2: nat, rolls2: Rolls, b2: seq<Cell>, h2: Head)
    requires |b| == CELLS && uid > 0 && Body(b, uid, trail, 1) && trail[|trail| - 1].len == h.len
    requires ValidRolls(rolls1) && MoveTo(b, h, uid, x1, y1, rolls1) == Some((b1, h1)) && Enters(b, x1, y1)
    requires ValidRolls(rolls2) && MoveTo(b1, g1, uid, x2, y2, rolls2) == Some((b2, h2)) && Enters(b1, x2, y2)
    ensures !Body(b2, uid, trail + [Stamp(Index(x1, y1), h1.len)] + [Stamp(Index(x2, y2), h2.len)], 0)
  {
    var c1, c2 := Index(x1, y1), Index(x2, y2);
    IndexParts(x1, y1);
    IndexParts(x2, y2);
    var next := trail + [Stamp(c1, h1.len)] + [Stamp(c2, h2.len)];
    assert next[|trail|] == Stamp(c1, h1.len);
    assert b1[c1] == Cell(uid, h1.len) && b2[c1] == Cell(uid, h1.len);
    assert Shown(next, |trail|, 0);
  }

  // A snake that died facing right, with the only fruit in the last cell of row 0: two rounds later
  // its head coordinates are 1, -1, its stamp lands there, and there is no fruit.
  lemma DeadSnakeTakesFruit(b: seq<Cell>, uid: int, keys: Controller)
    requires CellsOk(b) && FruitOnlyAt(b, Index(0, 31)) && uid > 0 && keys.Valid()
    requires !exists d :: Carries(b, d, uid)
    ensures
      var h := Head(U64 - 1, U64 - 1, keys.right, 0, false);
      var h1, b1 := h.(x := 0), Redraw(b);
      var h2, b2 := h.(x := 1), Redraw(b1)[Index(0, 31) := Cell(uid, 0)];
      && StepBy(Redraw(b), h, uid, keys, 0, []) == Some((b1, h1))
      && StepBy(Redraw(b1), h1, uid, keys, 0, []) == Some((b2, h2))
      && !OneFruit(b2)
  {
    var h := Head(U64 - 1, U64 - 1, keys.right, 0, false);
    var b1 := Redraw(b);
    NotCarried(b, uid);
    NotCarried(b1, uid);
    assert SIDE * 0 + (U64 - 1) == 7 * 0x2000_0000_0000_0000 + (0x2000_0000_0000_0000 - 1);
    assert SIDE * 1 + (U64 - 1) == 8 * 0x2000_0000_0000_0000 + 31;
    NothingCleared(b1, uid);
    NothingCleared(Redraw(b1), uid);
    assert FruitOnlyAt(Redraw(b1), Index(0, 31));
    StampFruitIff(Redraw(b1), Index(0, 31), Cell(uid, 0));
  }

  lemma NothingCleared(b: seq<Cell>, uid: int)
    requires |b| == CELLS && !exists d :: Carries(b, d, uid)
    ensures Emptied(b, uid) == b
  {
    forall c | 0 <= c < CELLS
      ensures b[c].uid != uid
    {
      assert !Carries(b, c, uid);
    }
  }

  lemma NotCarried(b: seq<Cell>, uid: int)
    requires !(exists d :: Carries(b, d, uid)) && uid > 0
    ensures !exists d :: Carries(Redraw(b), d, uid)
  {
    forall d | 0 <= d < |b|
      ensures !Carries(Redraw(b), d, uid)
    {
      assert !Carries(b, d, uid);
    }
  }

  // While both play, each has a snake of its own: a simple path ending at its head, no cell of
  // which is shared.
  lemma SnakesApart(b: seq<Cell>, uid1: int, trail1: seq<Stamp>, uid2: int, trail2: seq<Stamp>, c: int)
    requires Body(b, uid1, trail1, 0) && Body(b, uid2, trail2, 0) && uid1 != uid2 && c in Queue(trail1, 0)
    ensures c !in Queue(trail2, 0)
  {
    BoardIsQueue(b, uid1, trail1, 0);
    BoardIsQueue(b, uid2, trail2, 0);
    QueueOnBoard(trail1, 0);
  }

  lemma QueueOnBoard(trail: seq<Stamp>, drawn: nat)
    requires TrailOk(trail)
    ensures forall c :: c in Queue(trail, drawn) ==> 0 <= c < CELLS
  {
  }

  // ---------- where a step goes ----------

  // One cell on: up lowers y, left lowers x.
  predicate GoesOn(keys: Controller, dir: int, x: int, y: int, x': int, y': int) {
    && (dir == keys.up ==> x' == x && y' == y - 1) && (dir == keys.down ==> x' == x && y' == y + 1)
    && (dir == keys.left ==> x' == x - 1 && y' == y) && (dir == keys.right ==> x' == x + 1 && y' == y)
  }

  // No key, or the one against the direction of travel.
  predicate Ignored(keys: Controller, dir: int, key: int) {
    || key == 0
    || (dir == keys.up && key == keys.down) || (dir == keys.down && key == keys.up)
    || (dir == keys.left && key == keys.right) || (dir == keys.right && key == keys.left)
  }

  // A head on the board that goes in one of the four directions, and one of its keys or none.
  predicate Steerable(h: Head, keys: Controller, key: int) {
    h.x < SIDE && h.y < SIDE && keys.Valid() && keys.Has(h.dir) && (key == 0 || keys.Has(key))
  }

  // A player that is on the board before and after a step went one cell straight on, or one cell in
  // the direction of the key, if there is one that is not ignored.
  lemma StepGoesOn(b: seq<Cell>, h: Head, uid: int, keys: Controller, key: int, rolls: Rolls, h': Head)
    requires |b| == CELLS && ValidRolls(rolls) && StepBy(b, h, uid, keys, key, rolls).Some?
    requires h' == StepBy(b, h, uid, keys, key, rolls).value.1 && h'.alive
    requires Steerable(h, keys, key)
    ensures h'.x < SIDE && h'.y < SIDE && h'.dir == if Ignored(keys, h.dir, key) then h.dir else key
    ensures GoesOn(keys, h'.dir, h.x, h.y, h'.x, h'.y)
  {
  }

  // What a living player meets at (x, y), one step on: it survives exactly on an empty cell or the
  // fruit, which makes it one longer; otherwise all its cells are emptied.
  lemma StepOutcome(b: seq<Cell>, h: Head, uid: int, keys: Controller, key: int, rolls: Rolls, b': seq<Cell>, h': Head, x: int, y: int)
    requires |b| == CELLS && uid > 0 && ValidRolls(rolls) && StepBy(b, h, uid, keys, key, rolls) == Some((b', h'))
    requires h.alive && Steerable(h, keys, key) && Carries(b, 32 * h.x + h.y, uid)
    requires GoesOn(keys, if Ignored(keys, h.dir, key) then h.dir else key, h.x, h.y, x, y)
    ensures h'.alive <==> 0 <= x < 32 && 0 <= y < 32 && b[32 * x + y].uid in {0, -1}
    ensures h'.alive ==>
      && h'.x == x && h'.y == y && h'.len == h.len + (if b[32 * x + y].uid == -1 then 1 else 0)
      && b'[32 * x + y] == Cell(uid, h'.len)
    ensures !h'.alive ==> h'.len == 0 && forall c :: 0 <= c < CELLS ==> b'[c] == if b[c].uid == uid then Cell(0, 0) else b[c]
  {
    var dir := Turned(keys, h.dir, key);
    var nx, ny := MovedX(h.x, keys, dir), MovedY(h.y, keys, dir);
    NextCell(h, keys, key, x, y);
    hide MovedX, MovedY, Turned, FlatIndex, GoesOn, Ignored;
    if !Enters(b, nx, ny) {
      ClearOnly(b, h.(dir := dir), uid, nx, ny, rolls, b', h', 32 * h.x + h.y);
    }
  }

  // The cell the head moves to: (x, y), or off the board if that is.
  lemma NextCell(h: Head, keys: Controller, key: int, x: int, y: int)
    requires Steerable(h, keys, key) && GoesOn(keys, if Ignored(keys, h.dir, key) then h.dir else key, h.x, h.y, x, y)
    ensures
      var dir := Turned(keys, h.dir, key);
      var nx, ny := MovedX(h.x, keys, dir), MovedY(h.y, keys, dir);
      if 0 <= x < 32 && 0 <= y < 32 then nx == x && ny == y else nx >= SIDE || ny >= SIDE
  {
  }

  // ---------- the same for a step by key ----------

  lemma OnBoardIndex(x: nat, y: nat)
    ensures x < SIDE && y < SIDE ==> FlatIndex(x, y) == Index(x, y) && 0 <= Index(x, y) < CELLS
  {
  }

  // Board and head after `check_collision` at (x, y), the board as far as the search for a new place
  // for the fruit has got.
  ghost function CheckedBoard(b: seq<Cell>, uid: int, x: nat, y: nat, rolls: Rolls): (r: seq<Cell>)
    requires |b| == CELLS && ValidRolls(rolls)
    ensures |r| == CELLS
  {
    var c := Index(x, y);
    if !Enters(b, x, y) then Emptied(b, uid)
    else if b[c].uid == 0 then b
    else
      var b1 := b[c := b[c].(uid := uid)];
      match FirstEmpty(b, rolls) case None => b1 case Some(spot) => b1[spot := b[spot].(uid := FRUIT)]
  }

  ghost function CheckedHead(b: seq<Cell>, h: Head, uid: int, x: nat, y: nat): Head
    requires |b| == CELLS
  {
    if !Enters(b, x, y) then Collided(b, h, uid, x, y)
    else if b[Index(x, y)].uid == 0 then h.(x := x, y := y)
    else h.(x := x, y := y, len := h.len + 1)
  }

  lemma NoPlaceIs(b: seq<Cell>, x: nat, y: nat, rolls: Rolls)
    requires |b| == CELLS && ValidRolls(rolls)
    ensures NoPlace(b, x, y, rolls) <==> Enters(b, x, y) && b[Index(x, y)].uid == FRUIT && FirstEmpty(b, rolls).None?
  {
  }

  // The eaten fruit's cell taken, and the next fruit placed as far as there is a place for it.
  lemma EatenBoard(b: seq<Cell>, uid: int, x: nat, y: nat, rolls: Rolls)
    requires |b| == CELLS && ValidRolls(rolls) && uid > 0 && Enters(b, x, y) && b[Index(x, y)].uid == FRUIT
    ensures
      var c := Index(x, y);
      var b1 := b[c := b[c].(uid := uid)];
      && FirstEmpty(b1, rolls) == FirstEmpty(b, rolls)
      && CheckedBoard(b, uid, x, y, rolls) ==
         (if FirstEmpty(b1, rolls).Some? then b1[FirstEmpty(b1, rolls).value := b1[FirstEmpty(b1, rolls).value].(uid := FRUIT)] else b1)
  {
    SameSearch(b, Index(x, y), uid, rolls);
  }

  lemma CheckedElsewhere(b: seq<Cell>, h: Head, uid: int, x: nat, y: nat, rolls: Rolls)
    requires |b| == CELLS && ValidRolls(rolls)
    ensures !Enters(b, x, y) ==> CheckedBoard(b, uid, x, y, rolls) == Emptied(b, uid) && CheckedHead(b, h, uid, x, y) == Collided(b, h, uid, x, y)
    ensures Enters(b, x, y) && b[Index(x, y)].uid == 0 ==> CheckedBoard(b, uid, x, y, rolls) == b && CheckedHead(b, h, uid, x, y) == h.(x := x, y := y)
    ensures Enters(b, x, y) && b[Index(x, y)].uid != 0 ==> CheckedHead(b, h, uid, x, y) == h.(x := x, y := y, len := h.len + 1)
  {
    hide Collided, Emptied;
  }

  // The stamp behind it completes the move.
  lemma CheckedMove(b: seq<Cell>, h: Head, uid: int, x: nat, y: nat, rolls: Rolls)
    requires |b| == CELLS && ValidRolls(rolls) && uid > 0 && !NoPlace(b, x, y, rolls)
    ensures
      var h' := CheckedHead(b, h, uid, x, y);
      MoveTo(b, h, uid, x, y, rolls) == Some((Stamped(CheckedBoard(b, uid, x, y, rolls), FlatIndex(h'.x, h'.y), Cell(uid, h'.len)), h'))
  {
    OnBoardIndex(x, y);
    hide FlatIndex, Collided;
    if Enters(b, x, y) && b[Index(x, y)].uid != 0 {
      OverAndOver(b, Index(x, y), b[Index(x, y)].(uid := uid), Cell(uid, h.len + 1), FirstEmpty(b, rolls).value);
    }
  }

  lemma OverAndOver(b: seq<Cell>, c: int, first: Cell, second: Cell, spot: int)
    requires 0 <= c < |b| && 0 <= spot < |b| && c != spot
    ensures b[c := first][spot := b[spot].(uid := FRUIT)][c := second] == b[c := second][spot := b[spot].(uid := FRUIT)]
  {
  }

  // The eater's cell does not count as empty before or after it is taken.
  lemma {:induction false} SameSearch(b: seq<Cell>, c: int, uid: int, rolls: Rolls)
    requires |b| == CELLS && ValidRolls(rolls) && 0 <= c < CELLS && b[c].uid == FRUIT && uid > 0
    ensures FirstEmpty(b[c := b[c].(uid := uid)], rolls) == FirstEmpty(b, rolls)
    decreases |rolls|
  {
    if rolls != [] {
      SameSearch(b, c, uid, rolls[1..]);
    }
  }

  lemma StepKeepsIff(b: seq<Cell>, h: Head, uid: int, keys: Controller, key: int, rolls: Rolls, b': seq<Cell>, h': Head)
    requires CellsOk(b) && OneFruit(b) && uid > 0 && ValidRolls(rolls) && StepBy(b, h, uid, keys, key, rolls) == Some((b', h'))
    ensures CellsOk(b')
    ensures
      var dir := Turned(keys, h.dir, key);
      OneFruit(b') <==> Harmless(b, uid, MovedX(h.x, keys, dir), MovedY(h.y, keys, dir), {FRUIT})
  {
    hide MoveTo, CellsOk, OneFruit, Harmless, Turned, MovedX, MovedY;
    CellCount(b);
    var dir := Turned(keys, h.dir, key);
    var x, y := MovedX(h.x, keys, dir), MovedY(h.y, keys, dir);
    MoveKeepsCells(b, h.(dir := dir), uid, x, y, rolls, b', h');
    FruitKeptIff(b, h.(dir := dir), uid, x, y, rolls, b', h');
  }

  lemma CellCount(b: seq<Cell>)
    requires CellsOk(b)
    ensures |b| == CELLS
  {
  }

  lemma StepKeepsBodyIff(b: seq<Cell>, h: Head, uid: int, keys: Controller, key: int, rolls: Rolls, b': seq<Cell>, h': Head,
      uid2: int, trail2: seq<Stamp>, drawn2: nat)
    requires |b| == CELLS && uid > 0 && ValidRolls(rolls) && StepBy(b, h, uid, keys, key, rolls) == Some((b', h'))
    requires Body(b, uid2, trail2, drawn2) && uid2 > 0 && uid2 != uid
    ensures
      var dir := Turned(keys, h.dir, key);
      Body(b', uid2, trail2, drawn2) <==> Harmless(b, uid, MovedX(h.x, keys, dir), MovedY(h.y, keys, dir), {uid2})
  {
    hide MoveTo, Body, Harmless, Turned, MovedX, MovedY;
    var dir := Turned(keys, h.dir, key);
    BodyKeptIff(b, h.(dir := dir), uid, MovedX(h.x, keys, dir), MovedY(h.y, keys, dir), rolls, b', h', uid2, trail2, drawn2);
  }

  lemma HarmlessParts(b: seq<Cell>, uid: int, x: nat, y: nat, guarded: set<int>)
    requires |b| == CELLS && FRUIT in guarded
    ensures Harmless(b, uid, x, y, guarded) <==> forall g :: g in guarded ==> Harmless(b, uid, x, y, {g})
  {
    assert Harmless(b, uid, x, y, guarded) ==> Harmless(b, uid, x, y, {FRUIT});
  }

  // A player that lives after its step entered a free cell or the fruit next to its old head.
  lemma LivingStep(b: seq<Cell>, h: Head, uid: int, keys: Controller, key: int, rolls: Rolls, b': seq<Cell>, h': Head, trail: seq<Stamp>)
    requires |b| == CELLS && uid > 0 && ValidRolls(rolls) && StepBy(b, h, uid, keys, key, rolls) == Some((b', h')) && h'.alive
    requires Body(b, uid, trail, 1) && trail[|trail| - 1] == Stamp(Index(h.x, h.y), h.len)
    requires h.x < SIDE && h.y < SIDE && keys.Valid() && keys.Has(h.dir) && (key == 0 || keys.Has(key))
    ensures h'.x < SIDE && h'.y < SIDE && keys.Has(h'.dir)
    ensures Body(b', uid, trail + [Stamp(Index(h'.x, h'.y), h'.len)], 0)
  {
    hide Body, MovedX, MovedY, FlatIndex, Adjacent;
    var dir := Turned(keys, h.dir, key);
    var x, y := MovedX(h.x, keys, dir), MovedY(h.y, keys, dir);
    MoveIsAdjacent(h.x, h.y, keys, dir);
    LivingMove(b, h.(dir := dir), uid, x, y, rolls, b', h', trail);
  }

  lemma TwoSteps(b: seq<Cell>, h: Head, uid: int, keys: Controller, key1: int, rolls1: Rolls, b1: seq<Cell>, h1: Head,
      key2: int, rolls2: Rolls, b2: seq<Cell>, h2: Head, trail: seq<Stamp>)
    requires |b| == CELLS && uid > 0 && Body(b, uid, trail, 1) && trail[|trail| - 1].len == h.len
    requires ValidRolls(rolls1) && StepBy(b, h, uid, keys, key1, rolls1) == Some((b1, h1))
    requires ValidRolls(rolls2) && StepBy(b1, h1, uid, keys, key2, rolls2) == Some((b2, h2))
    requires h2.alive
    ensures !Body(b2, uid, trail + [Stamp(Index(h1.x, h1.y), h1.len)] + [Stamp(Index(h2.x, h2.y), h2.len)], 0)
  {
    hide Body, MovedX, MovedY, FlatIndex, Turned;
    var dir1 := Turned(keys, h.dir, key1);
    var dir2 := Turned(keys, h1.dir, key2);
    TwoMovesPerRedraw(b, h.(dir := dir1), uid, trail, MovedX(h.x, keys, dir1), MovedY(h.y, keys, dir1), rolls1, b1, h1,
      h1.(dir := dir2), MovedX(h1.x, keys, dir2), MovedY(h1.y, keys, dir2), rolls2, b2, h2);
  }
}
