/** Rounds and whole games of snake on values: what the game loop makes of board, players, keys and
    random numbers, and what it keeps. */
module SnakeRounds {
  import opened Bytes
  import opened Snake
  import opened SnakeSteps

  /** A player with all its moves so far. */
  datatype Side = Side(uid: int, keys: Controller, head: Head, trail: seq<Stamp>)

  /** One player, two, or two that are one struct. */
  datatype Players = One(p: Side) | Two(p: Side, q: Side) | Shared(p: Side)

  datatype World = World(board: seq<Cell>, players: Players)

  /** The key read in a round, and the random numbers for a new fruit of either player. */
  datatype Input = Input(ch: int, rolls1: Rolls, rolls2: Rolls) {
    predicate Valid() {
      ValidRolls(rolls1) && ValidRolls(rolls2)
    }
  }

  // ---------- rounds ----------

  function KeyFor(keys: Controller, ch: int): int {
    if keys.Has(ch) then ch else 0
  }

  // One player's part of `move_player`; None while it looks for a place for a new fruit.
  ghost function Turn(b: seq<Cell>, s: Side, ch: int, rolls: Rolls): (r: Option<(seq<Cell>, Side)>)
    requires |b| == CELLS && ValidRolls(rolls)
    ensures r.Some? ==> |r.value.0| == CELLS && r.value.1.uid == s.uid && r.value.1.keys == s.keys
  {
    var m := StepBy(b, s.head, s.uid, s.keys, KeyFor(s.keys, ch), rolls);
    if m.None? then None
    else
      var h := m.value.1;
      Some((m.value.0, s.(head := h, trail := if h.alive then s.trail + [Stamp(Index(h.x, h.y), h.len)] else s.trail)))
  }

  // A living player on the board goes where its key says, or on if the key is not one of its own or
  // against its direction, and meets what is there.
  lemma TurnMeaning(b: seq<Cell>, s: Side, ch: int, rolls: Rolls, x: int, y: int)
    requires |b| == CELLS && ValidRolls(rolls) && Turn(b, s, ch, rolls).Some?
    requires s.uid > 0 && s.head.alive && s.keys.Valid() && s.keys.Has(s.head.dir) && s.head.x < 32 && s.head.y < 32
    requires Carries(b, 32 * s.head.x + s.head.y, s.uid)
    requires GoesOn(s.keys, if !s.keys.Has(ch) || Ignored(s.keys, s.head.dir, ch) then s.head.dir else ch, s.head.x, s.head.y, x, y)
    ensures
      var (b', s') := Turn(b, s, ch, rolls).value;
      if 0 <= x < 32 && 0 <= y < 32 && b[32 * x + y].uid in {0, -1} then
        var len := s.head.len + (if b[32 * x + y].uid == -1 then 1 else 0);
        && s'.head.alive && s'.head.x == x && s'.head.y == y && s'.head.len == len && b'[32 * x + y] == Cell(s.uid, len)
        && s'.trail == s.trail + [Stamp(32 * x + y, len)]
      else
        && !s'.head.alive && s'.trail == s.trail
        && forall c :: 0 <= c < CELLS ==> b'[c] == if b[c].uid == s.uid then Cell(0, 0) else b[c]
  {
    var key := KeyFor(s.keys, ch);
    var m := StepBy(b, s.head, s.uid, s.keys, key, rolls).value;
    hide StepBy, GoesOn;
    assert Ignored(s.keys, s.head.dir, key) <==> !s.keys.Has(ch) || Ignored(s.keys, s.head.dir, ch);
    StepOutcome(b, s.head, s.uid, s.keys, key, rolls, m.0, m.1, x, y);
  }

  /** The world after a round, or the player whose fruit search does not end. */
  datatype RoundResult = Stuck(player: nat) | Next(world: World)

  predicate SamePlayers(players: Players, before: Players) {
    && players.p.uid == before.p.uid && players.One? == before.One? && players.Two? == before.Two?
    && (players.Two? && before.Two? ==> players.q.uid == before.q.uid)
  }

  // One round of the game loop: redraw, then every player moves, dead ones too.
  ghost function Round(w: World, input: Input): (r: RoundResult)
    requires |w.board| == CELLS && input.Valid()
    ensures r.Next? ==> |r.world.board| == CELLS && SamePlayers(r.world.players, w.players)
    ensures r.Stuck? ==> r.player == 1 || r.player == 2
  {
    var m := Turn(Redraw(w.board), w.players.p, input.ch, input.rolls1);
    if m.None? then Stuck(1)
    else match w.players
      case One(p) => Next(World(m.value.0, One(m.value.1)))
      case Two(p, q) =>
        var n := Turn(m.value.0, q, input.ch, input.rolls2);
        if n.None? then Stuck(2) else Next(World(n.value.0, Two(m.value.1, n.value.1)))
      case Shared(p) =>
        var n := Turn(m.value.0, m.value.1, input.ch, input.rolls2);
        if n.None? then Stuck(2) else Next(World(n.value.0, Shared(n.value.1)))
  }

  // The head enters the fruit and no try finds a new place.
  predicate TurnStuck(b: seq<Cell>, s: Side, ch: int, rolls: Rolls)
    requires |b| == CELLS && ValidRolls(rolls)
  {
    var dir := Turned(s.keys, s.head.dir, KeyFor(s.keys, ch));
    NoPlace(b, MovedX(s.head.x, s.keys, dir), MovedY(s.head.y, s.keys, dir), rolls)
  }

  // A round ends unless the first or the second mover's fruit search does not.
  lemma RoundStuckIff(w: World, input: Input)
    requires |w.board| == CELLS && input.Valid()
    ensures
      var b, p := Redraw(w.board), w.players.p;
      var m := Turn(b, p, input.ch, input.rolls1);
      && (Round(w, input) == Stuck(1) <==> TurnStuck(b, p, input.ch, input.rolls1))
      && (m.Some? && !w.players.One? ==>
        (Round(w, input) == Stuck(2) <==> TurnStuck(m.value.0, if w.players.Two? then w.players.q else m.value.1, input.ch, input.rolls2)))
      && (w.players.One? ==> Round(w, input) != Stuck(2))
  {
  }

  predicate Living(players: Players) {
    players.p.head.alive || (players.Two? && players.q.head.alive)
  }

  predicate AllAlive(players: Players) {
    players.p.head.alive && (players.Two? ==> players.q.head.alive)
  }

  predicate ValidInputs(inputs: seq<Input>) {
    forall i :: 0 <= i < |inputs| ==> inputs[i].Valid()
  }

  /** Where a game stands: rounds played, the world at the last round boundary, and the player whose
      fruit search does not end, or 0. */
  datatype End = End(rounds: nat, world: World, stuck: nat)

  // The game loop, while somebody lives.
  ghost function Played(w: World, inputs: seq<Input>): (e: End)
    requires |w.board| == CELLS && ValidInputs(inputs)
    ensures e.rounds <= |inputs| && |e.world.board| == CELLS
    ensures e.rounds < |inputs| && e.stuck == 0 ==>
      !e.world.players.p.head.alive && (e.world.players.Two? ==> !e.world.players.q.head.alive)
    ensures e.rounds > 0 ==> w.players.p.head.alive || (w.players.Two? && w.players.q.head.alive)
    decreases |inputs|
  {
    if inputs == [] || !Living(w.players) then End(0, w, 0)
    else
      var r := Round(w, inputs[0]);
      if r.Stuck? then End(0, w, r.player)
      else
        var e := Played(r.world, inputs[1..]);
        End(e.rounds + 1, e.world, e.stuck)
  }

  lemma PlayedNext(w: World, inputs: seq<Input>)
    requires |w.board| == CELLS && ValidInputs(inputs) && inputs != [] && Living(w.players)
    ensures
      var r := Round(w, inputs[0]);
      if r.Stuck? then Played(w, inputs) == End(0, w, r.player)
      else
        var e := Played(r.world, inputs[1..]);
        Played(w, inputs) == End(e.rounds + 1, e.world, e.stuck)
  {
  }

  lemma PlayedOut(w: World, inputs: seq<Input>)
    requires |w.board| == CELLS && ValidInputs(inputs) && (inputs == [] || !Living(w.players))
    ensures Played(w, inputs) == End(0, w, 0)
  {
  }

  // ---------- invariants ----------

  // The board shows the player, if it lives, its head last.
  ghost predicate SideOk(b: seq<Cell>, s: Side, drawn: nat) {
    && s.uid > 0 && s.keys.Valid()
    && (s.head.alive ==>
      && Body(b, s.uid, s.trail, drawn) && s.head.x < SIDE && s.head.y < SIDE && s.keys.Has(s.head.dir)
      && s.trail[|s.trail| - 1] == Stamp(Index(s.head.x, s.head.y), s.head.len))
  }

  ghost predicate BoardOk(b: seq<Cell>) {
    CellsOk(b) && OneFruit(b)
  }

  // One fruit, and every living player is shown.
  ghost predicate WorldOk(w: World) {
    && BoardOk(w.board) && SideOk(w.board, w.players.p, 0)
    && (w.players.Two? ==> w.players.q.uid != w.players.p.uid && SideOk(w.board, w.players.q, 0))
  }

  // What a player must not stamp: the fruit, and the other player while it lives.
  function Guard(other: Side): set<int> {
    if other.head.alive then {FRUIT, other.uid} else {FRUIT}
  }

  predicate HarmlessTurn(b: seq<Cell>, s: Side, ch: int, guarded: set<int>)
    requires |b| == CELLS
  {
    var dir := Turned(s.keys, s.head.dir, KeyFor(s.keys, ch));
    Harmless(b, s.uid, MovedX(s.head.x, s.keys, dir), MovedY(s.head.y, s.keys, dir), guarded)
  }

  // A living player is shown after its turn if it survives, and its turn is harmless.
  lemma OwnTurn(b: seq<Cell>, s: Side, ch: int, rolls: Rolls, guarded: set<int>)
    requires |b| == CELLS && ValidRolls(rolls) && SideOk(b, s, 1)
    ensures Turn(b, s, ch, rolls).Some? ==> SideOk(Turn(b, s, ch, rolls).value.0, Turn(b, s, ch, rolls).value.1, 0)
    ensures s.head.alive ==> HarmlessTurn(b, s, ch, guarded)
  {
    hide Body, StepBy, Turned, MovedX, MovedY, Harmless;
    var key := KeyFor(s.keys, ch);
    if s.head.alive {
      var dir := Turned(s.keys, s.head.dir, key);
      LivingIsHarmless(b, s.uid, s.trail, MovedX(s.head.x, s.keys, dir), MovedY(s.head.y, s.keys, dir), guarded);
    }
    var m := StepBy(b, s.head, s.uid, s.keys, key, rolls);
    if m.Some? {
      DeadStaysDead(b, s.head, s.uid, s.keys, key, rolls);
      if m.value.1.alive { LivingStep(b, s.head, s.uid, s.keys, key, rolls, m.value.0, m.value.1, s.trail); }
    }
  }

  lemma DeadStaysDead(b: seq<Cell>, h: Head, uid: int, keys: Controller, key: int, rolls: Rolls)
    requires |b| == CELLS && ValidRolls(rolls)
    ensures var m := StepBy(b, h, uid, keys, key, rolls); m.Some? && m.value.1.alive ==> h.alive
  {
  }

  // The fruit stays the only one exactly when the turn does not stamp it.
  lemma TurnFruitIff(b: seq<Cell>, s: Side, ch: int, rolls: Rolls)
    requires BoardOk(b) && s.uid > 0 && |b| == CELLS && ValidRolls(rolls) && Turn(b, s, ch, rolls).Some?
    ensures BoardOk(Turn(b, s, ch, rolls).value.0) <==> HarmlessTurn(b, s, ch, {FRUIT})
  {
    hide CellsOk, OneFruit, StepBy, Harmless, Turned, MovedX, MovedY;
    var m := StepBy(b, s.head, s.uid, s.keys, KeyFor(s.keys, ch), rolls);
    StepKeepsIff(b, s.head, s.uid, s.keys, KeyFor(s.keys, ch), rolls, m.value.0, m.value.1);
  }

  // Fruit and the other player are kept exactly when the turn stamps neither.
  lemma TurnKeepsIff(b: seq<Cell>, s: Side, ch: int, rolls: Rolls, other: Side, drawn: nat)
    requires BoardOk(b) && s.uid > 0 && |b| == CELLS && ValidRolls(rolls) && Turn(b, s, ch, rolls).Some?
    requires SideOk(b, other, drawn) && other.uid != s.uid
    ensures
      var b' := Turn(b, s, ch, rolls).value.0;
      BoardOk(b') && SideOk(b', other, drawn) <==> HarmlessTurn(b, s, ch, Guard(other))
  {
    TurnFruitIff(b, s, ch, rolls);
    hide CellsOk, OneFruit, StepBy, Harmless, Turned, MovedX, MovedY, Body, BoardOk;
    var m := StepBy(b, s.head, s.uid, s.keys, KeyFor(s.keys, ch), rolls);
    if other.head.alive {
      StepKeepsBodyIff(b, s.head, s.uid, s.keys, KeyFor(s.keys, ch), rolls, m.value.0, m.value.1, other.uid, other.trail, drawn);
    }
    var dir := Turned(s.keys, s.head.dir, KeyFor(s.keys, ch));
    HarmlessParts(b, s.uid, MovedX(s.head.x, s.keys, dir), MovedY(s.head.y, s.keys, dir), Guard(other));
  }

  // The redraw keeps everything, one redraw older.
  lemma RedrawOk(w: World)
    requires WorldOk(w)
    ensures |w.board| == CELLS && BoardOk(Redraw(w.board)) && SideOk(Redraw(w.board), w.players.p, 1)
    ensures w.players.Two? ==> SideOk(Redraw(w.board), w.players.q, 1)
  {
    CellCount(w.board);
    RedrawBoard(w.board);
    hide Body, CellsOk, OneFruit;
    if w.players.p.head.alive { RedrawBody(w.board, w.players.p.uid, w.players.p.trail); }
    if w.players.Two? && w.players.q.head.alive { RedrawBody(w.board, w.players.q.uid, w.players.q.trail); }
  }

  // ---------- one round ----------

  // In a round of two, what holds between the two moves.
  ghost predicate MidOk(w: World, input: Input)
    requires |w.board| == CELLS && input.Valid()
  {
    var m := Turn(Redraw(w.board), w.players.p, input.ch, input.rolls1);
    w.players.Two? && m.Some? ==>
      BoardOk(m.value.0) && SideOk(m.value.0, m.value.1, 0) && SideOk(m.value.0, w.players.q, 1)
  }

  // No move of the round stamps the fruit or the other player. Board, heads and inputs decide it.
  ghost predicate HarmlessRound(w: World, input: Input)
    requires |w.board| == CELLS && input.Valid()
  {
    var b := Redraw(w.board);
    var m := Turn(b, w.players.p, input.ch, input.rolls1);
    if w.players.Two? then
      && HarmlessTurn(b, w.players.p, input.ch, Guard(w.players.q))
      && (m.Some? ==> HarmlessTurn(m.value.0, w.players.q, input.ch, Guard(m.value.1)))
    else HarmlessTurn(b, w.players.p, input.ch, {FRUIT})
  }

  // A round keeps the invariants, after each of its moves, exactly when it is harmless.
  lemma RoundKeepsIff(w: World, input: Input)
    requires WorldOk(w) && !w.players.Shared? && |w.board| == CELLS && input.Valid() && Round(w, input).Next?
    ensures MidOk(w, input) && WorldOk(Round(w, input).world) <==> HarmlessRound(w, input)
  {
    RedrawOk(w);
    var b, p := Redraw(w.board), w.players.p;
    hide Body, BoardOk, Turn, HarmlessTurn, SideOk;
    SideFacts(w);
    OwnTurn(b, p, input.ch, input.rolls1, {});
    var m := Turn(b, p, input.ch, input.rolls1).value;
    if w.players.Two? {
      var q := w.players.q;
      TurnKeepsIff(b, p, input.ch, input.rolls1, q, 1);
      if MidOk(w, input) {
        OwnTurn(m.0, q, input.ch, input.rolls2, {});
        TurnKeepsIff(m.0, q, input.ch, input.rolls2, m.1, 0);
      }
    } else {
      TurnFruitIff(b, p, input.ch, input.rolls1);
    }
  }

  lemma SideFacts(w: World)
    requires WorldOk(w)
    ensures w.players.p.uid > 0 && (w.players.Two? ==> w.players.q.uid > 0)
  {
  }

  // While all players live, every round is harmless.
  lemma LivingRoundIsHarmless(w: World, input: Input)
    requires WorldOk(w) && !w.players.Shared? && |w.board| == CELLS && input.Valid() && AllAlive(w.players)
    ensures HarmlessRound(w, input)
  {
    RedrawOk(w);
    var b, p := Redraw(w.board), w.players.p;
    hide Body, BoardOk, Turn, HarmlessTurn, SideOk;
    SideFacts(w);
    var m := Turn(b, p, input.ch, input.rolls1);
    if w.players.Two? {
      var q := w.players.q;
      OwnTurn(b, p, input.ch, input.rolls1, Guard(q));
      if m.Some? {
        TurnKeepsIff(b, p, input.ch, input.rolls1, q, 1);
        OwnTurn(m.value.0, q, input.ch, input.rolls2, Guard(m.value.1));
      }
    } else {
      OwnTurn(b, p, input.ch, input.rolls1, {FRUIT});
    }
  }

  // With one struct for both players, it moves twice in a round, and if it survives the board does
  // not show its moves.
  lemma SharedIsNotShown(w: World, input: Input)
    requires WorldOk(w) && w.players.Shared? && |w.board| == CELLS && input.Valid() && Round(w, input).Next?
    requires Round(w, input).world.players.p.head.alive
    ensures !SideOk(Round(w, input).world.board, Round(w, input).world.players.p, 0)
  {
    RedrawOk(w);
    hide Body, BoardOk, StepBy;
    var b, s := Redraw(w.board), w.players.p;
    var key := KeyFor(s.keys, input.ch);
    var m := StepBy(b, s.head, s.uid, s.keys, key, input.rolls1).value;
    var n := StepBy(m.0, m.1, s.uid, s.keys, key, input.rolls2).value;
    DeadStaysDead(b, s.head, s.uid, s.keys, key, input.rolls1);
    DeadStaysDead(m.0, m.1, s.uid, s.keys, key, input.rolls2);
    TwoSteps(b, s.head, s.uid, s.keys, key, input.rolls1, m.0, m.1, key, input.rolls2, n.0, n.1, s.trail);
  }

  // ---------- whole games ----------

  // The invariants at every round boundary of a game, and between the moves of every round.
  ghost predicate AllKept(w: World, inputs: seq<Input>)
    requires |w.board| == CELLS && ValidInputs(inputs)
    decreases |inputs|
  {
    && WorldOk(w)
    && (inputs != [] && Living(w.players) && Round(w, inputs[0]).Next? ==>
      MidOk(w, inputs[0]) && AllKept(Round(w, inputs[0]).world, inputs[1..]))
  }

  // Every round of the game is harmless.
  ghost predicate HarmlessGame(w: World, inputs: seq<Input>)
    requires |w.board| == CELLS && ValidInputs(inputs)
    decreases |inputs|
  {
    inputs != [] && Living(w.players) && Round(w, inputs[0]).Next? ==>
      HarmlessRound(w, inputs[0]) && HarmlessGame(Round(w, inputs[0]).world, inputs[1..])
  }

  lemma SameShape(w: World, input: Input)
    requires |w.board| == CELLS && input.Valid() && Round(w, input).Next?
    ensures
      var players := Round(w, input).world.players;
      && players.Shared? == w.players.Shared? && players.Two? == w.players.Two?
      && (players.p.head.alive ==> w.players.p.head.alive)
      && (players.Two? && players.q.head.alive ==> w.players.q.head.alive)
  {
    hide StepBy;
    var b, p := Redraw(w.board), w.players.p;
    var m := Turn(b, p, input.ch, input.rolls1).value;
    DeadStaysDead(b, p.head, p.uid, p.keys, KeyFor(p.keys, input.ch), input.rolls1);
    if !w.players.One? {
      var q := if w.players.Two? then w.players.q else m.1;
      DeadStaysDead(m.0, q.head, q.uid, q.keys, KeyFor(q.keys, input.ch), input.rolls2);
    }
  }

  // Over a whole game, deaths included, the invariants hold all along exactly when every round is
  // harmless.
  lemma {:induction false} GameKeepsIff(w: World, inputs: seq<Input>)
    requires WorldOk(w) && !w.players.Shared? && |w.board| == CELLS && ValidInputs(inputs)
    ensures AllKept(w, inputs) <==> HarmlessGame(w, inputs)
    decreases |inputs|
  {
    hide WorldOk, MidOk, HarmlessRound, Round;
    if inputs != [] && Living(w.players) && Round(w, inputs[0]).Next? {
      RoundKeepsIff(w, inputs[0]);
      SameShape(w, inputs[0]);
      var next := Round(w, inputs[0]).world;
      if WorldOk(next) {
        GameKeepsIff(next, inputs[1..]);
      } else {
        NotKept(next, inputs[1..]);
      }
    }
  }

  lemma NotKept(w: World, inputs: seq<Input>)
    requires |w.board| == CELLS && ValidInputs(inputs) && !WorldOk(w)
    ensures !AllKept(w, inputs)
  {
  }

  // While nobody has died, the game was harmless.
  lemma {:induction false} LivingGameIsHarmless(w: World, inputs: seq<Input>)
    requires WorldOk(w) && !w.players.Shared? && |w.board| == CELLS && ValidInputs(inputs)
    requires AllAlive(Played(w, inputs).world.players)
    ensures HarmlessGame(w, inputs)
    decreases |inputs|
  {
    hide WorldOk, MidOk, HarmlessRound, Round;
    if inputs != [] && Living(w.players) && Round(w, inputs[0]).Next? {
      var next := Round(w, inputs[0]).world;
      AliveBefore(next, inputs[1..]);
      SameShape(w, inputs[0]);
      LivingRoundIsHarmless(w, inputs[0]);
      RoundKeepsIff(w, inputs[0]);
      LivingGameIsHarmless(next, inputs[1..]);
    }
  }

  lemma {:induction false} AliveBefore(w: World, inputs: seq<Input>)
    requires |w.board| == CELLS && ValidInputs(inputs) && AllAlive(Played(w, inputs).world.players)
    ensures AllAlive(w.players)
    decreases |inputs|
  {
    hide Round;
    if inputs != [] && Living(w.players) && Round(w, inputs[0]).Next? {
      AliveBefore(Round(w, inputs[0]).world, inputs[1..]);
      SameShape(w, inputs[0]);
    }
  }

  // So after every number of rounds of a harmless game there is one fruit, every living player is
  // shown in full, and it has made one move in each round.
  lemma {:induction false} BoundaryOk(w: World, inputs: seq<Input>, n: nat)
    requires WorldOk(w) && !w.players.Shared? && |w.board| == CELLS && ValidInputs(inputs) && n <= |inputs|
    requires HarmlessGame(w, inputs)
    ensures
      var e := Played(w, inputs[..n]);
      && WorldOk(e.world) && e.world.players.Two? == w.players.Two?
      && e.rounds == (if Played(w, inputs).rounds < n then Played(w, inputs).rounds else n)
      && (e.world.players.p.head.alive ==> w.players.p.head.alive && |e.world.players.p.trail| == |w.players.p.trail| + e.rounds)
      && (e.world.players.Two? && e.world.players.q.head.alive ==> w.players.q.head.alive && |e.world.players.q.trail| == |w.players.q.trail| + e.rounds)
    decreases |inputs|
  {
    hide WorldOk, MidOk, HarmlessRound, Round;
    if n > 0 && Living(w.players) && Round(w, inputs[0]).Next? {
      var next := Round(w, inputs[0]).world;
      assert inputs[..n][0] == inputs[0] && inputs[..n][1..] == inputs[1..][..n - 1];
      SameShape(w, inputs[0]);
      RoundKeepsIff(w, inputs[0]);
      TrailsGrow(w, inputs[0]);
      BoundaryOk(next, inputs[1..], n - 1);
    }
  }

  lemma TrailsGrow(w: World, input: Input)
    requires |w.board| == CELLS && input.Valid() && Round(w, input).Next? && !w.players.Shared?
    ensures
      var players := Round(w, input).world.players;
      && (players.p.head.alive ==> |players.p.trail| == |w.players.p.trail| + 1)
      && (w.players.Two? && players.Two? && players.q.head.alive ==> |players.q.trail| == |w.players.q.trail| + 1)
  {
  }

  // ---------- the start ----------

  // Player number `n` (0 or 1) as `init_player` sets it up.
  function FirstSide(n: nat, keys: Controller): Side {
    var head := Head(4 + n * 15, 6, if n == 0 then keys.right else keys.left, SNAKE_LENGTH, true);
    Side(n + 1, keys, head, [Stamp(Index(4 + n * 15, 6), SNAKE_LENGTH)])
  }

  // The board with the start cells of one or two players.
  function StartBoard(two: bool): (b: seq<Cell>)
    ensures |b| == CELLS
    ensures forall c :: 0 <= c < CELLS ==>
      b[c] == if c == Index(4, 6) then Cell(1, SNAKE_LENGTH) else if two && c == Index(19, 6) then Cell(2, SNAKE_LENGTH) else Cell(0, 0)
  {
    seq(CELLS, c => if c == Index(4, 6) then Cell(1, SNAKE_LENGTH)
                    else if two && c == Index(19, 6) then Cell(2, SNAKE_LENGTH) else Cell(0, 0))
  }

  // The players as `main_menu` sets them up: one, two, or a second one that is the first one's
  // struct and overwrites it.
  function StartPlayers(two: bool, shared: bool, keys1: Controller, keys2: Controller): Players {
    if !two then One(FirstSide(0, keys1))
    else if shared then Shared(FirstSide(1, keys2))
    else Two(FirstSide(0, keys1), FirstSide(1, keys2))
  }

  // The world in which the game loop starts, the fruit lying at `spot`.
  function StartWorld(two: bool, shared: bool, keys1: Controller, keys2: Controller, spot: nat): World
    requires spot < CELLS
  {
    World(StartBoard(two)[spot := Cell(FRUIT, 0)], StartPlayers(two, shared, keys1, keys2))
  }

  lemma StartOk(two: bool, shared: bool, keys1: Controller, keys2: Controller, spot: nat)
    requires spot < CELLS && StartBoard(two)[spot].uid == 0 && keys1.Valid() && keys2.Valid()
    ensures WorldOk(StartWorld(two, shared, keys1, keys2, spot))
  {
    var b := StartWorld(two, shared, keys1, keys2, spot).board;
    assert FruitOnlyAt(b, spot);
    FirstShown(b, FirstSide(0, keys1).trail, 1);
    if two { FirstShown(b, FirstSide(1, keys2).trail, 2); }
  }

  // Somebody with the first player's number and keys is shown exactly when the second player, if
  // there is one, has a struct of its own.
  lemma FirstIsControlledIff(two: bool, shared: bool, keys1: Controller, keys2: Controller, spot: nat)
    requires spot < CELLS && StartBoard(two)[spot].uid == 0 && keys1.Valid() && keys2.Valid()
    ensures
      var w := StartWorld(two, shared, keys1, keys2, spot);
      var p := w.players.p;
      && w.board[134] == Cell(1, 5) && (two ==> w.board[614] == Cell(2, 5))
      && (!(two && shared) ==> p.head == Head(4, 6, keys1.right, 5, true))
      && (two && shared ==> p.head == Head(19, 6, keys2.left, 5, true))
      && (w.players.Two? ==> w.players.q.head == Head(19, 6, keys2.left, 5, true))
      && (p.uid == 1 && p.keys == keys1 && p.head.alive && SideOk(w.board, p, 0) <==> !(two && shared))
      && (w.players.Two? ==> w.players.q.uid == 2)
  {
    StartOk(two, shared, keys1, keys2, spot);
  }

  // The first fruit finds a place exactly when some try hits a cell that is no start cell.
  lemma StartPlacedIff(two: bool, rolls: Rolls)
    requires ValidRolls(rolls)
    ensures FirstEmpty(StartBoard(two), rolls).Some? <==>
      exists i :: 0 <= i < |rolls| && rolls[i] != (4, 6) && (two ==> rolls[i] != (19, 6))
  {
    var b := StartBoard(two);
    forall i | 0 <= i < |rolls|
      ensures b[Index(rolls[i].0, rolls[i].1)].uid != 0 <==> rolls[i] == (4, 6) || (two && rolls[i] == (19, 6))
    {
      IndexParts(rolls[i].0, rolls[i].1);
    }
  }

  lemma FirstShown(b: seq<Cell>, trail: seq<Stamp>, uid: int)
    requires |b| == CELLS && |trail| == 1 && trail[0].len == SNAKE_LENGTH && 0 <= trail[0].pos < CELLS
    requires forall c :: 0 <= c < CELLS ==> (b[c].uid == uid <==> c == trail[0].pos)
    requires b[trail[0].pos] == Cell(uid, SNAKE_LENGTH)
    ensures Body(b, uid, trail, 0)
  {
    assert Shown(trail, 0, 0);
  }
}
