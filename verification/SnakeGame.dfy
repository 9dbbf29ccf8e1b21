/** The snake game: players and board, changed in place. */
module SnakeGame {
  import opened Bytes
  import opened Snake
  import opened SnakeSteps
  import opened SnakeRounds

  /** `struct player`. */
  class Player {
    var uid: int
    var keys: Controller
    var x: nat
    var y: nat
    var dir: int
    var len: nat
    var alive: bool
    // All its moves so far.
    ghost var trail: seq<Stamp>

    constructor ()
      ensures uid == 0 && !alive
    {
      uid, keys := 0, Controller(0, 0, 0, 0);
      x, y, dir, len, alive := 0, 0, 0, 0, false;
      trail := [];
    }

    function Head(): Head
      reads this
    {
      SnakeSteps.Head(x, y, dir, len, alive)
    }

    ghost function Side(): Side
      reads this
    {
      SnakeRounds.Side(uid, keys, Head(), trail)
    }
  }

  class Game {
    const board: array<Cell>

    // Board and players; two pointers may be to the same player.
    ghost function Abs(p1: Player, p2: Player?): World
      reads board, p1, p2
    {
      World(board[..], if p2 == null then One(p1.Side()) else if p1 == p2 then Shared(p1.Side()) else Two(p1.Side(), p2.Side()))
    }

    // The empty board of main_menu.
    constructor ()
      ensures board.Length == CELLS && (forall c :: 0 <= c < CELLS ==> board[..][c] == Cell(0, 0)) && fresh(board)
    {
      board := new Cell[CELLS](_ => Cell(0, 0));
    }

    // `init_player` for player number `n` (0 or 1).
    method InitPlayer(p: Player, n: nat, keys: Controller)
      requires n < 2 && board.Length == CELLS
      modifies p, board
      ensures p.Side() == FirstSide(n, keys)
      ensures board[..] == old(board[..])[Index(4 + n * 15, 6) := Cell(n + 1, SNAKE_LENGTH)]
    {
      p.keys := keys;
      p.len := SNAKE_LENGTH;
      p.alive := true;
      p.x, p.y := 4 + n * 15, 6;
      p.uid := n + 1;
      p.dir := if n == 0 then keys.right else keys.left;
      p.trail := [Stamp(Index(p.x, p.y), p.len)];
      board[SIDE * p.x + p.y] := Cell(p.uid, p.len);
    }

    // The two nested loops of the redraw.
    method DrawGame()
      requires board.Length == CELLS
      modifies board
      ensures board[..] == Redraw(old(board[..]))
    {
      for i := 0 to SIDE
        invariant forall c :: 0 <= c < CELLS ==> board[c] == if c < SIDE * i then Redrawn(old(board[c])) else old(board[c])
      {
        for j := 0 to SIDE
          invariant forall c :: 0 <= c < CELLS ==> board[c] == if c < SIDE * i + j then Redrawn(old(board[c])) else old(board[c])
        {
          if board[SIDE * i + j].count > 0 {
            board[SIDE * i + j] := board[SIDE * i + j].(count := board[SIDE * i + j].count - 1);
          } else if board[SIDE * i + j].uid != FRUIT {
            board[SIDE * i + j] := board[SIDE * i + j].(uid := 0);
          }
        }
      }
    }

    // The search of food(): random cells until an empty one. placed is false when the search goes on
    // beyond `rolls`.
    method Food(rolls: Rolls) returns (placed: bool)
      requires board.Length == CELLS && ValidRolls(rolls)
      modifies board
      ensures
        var b := old(board[..]);
        match FirstEmpty(b, rolls)
        case None => !placed && board[..] == b
        case Some(spot) => placed && board[..] == b[spot := b[spot].(uid := FRUIT)]
    {
      assert rolls[0..] == rolls;
      for i := 0 to |rolls|
        invariant board[..] == old(board[..])
        invariant FirstEmpty(board[..], rolls) == FirstEmpty(board[..], rolls[i..])
      {
        assert rolls[i..][0] == rolls[i] && rolls[i..][1..] == rolls[i + 1..];
        var (x, y) := rolls[i];
        if board[SIDE * x + y].uid == 0 {
          board[SIDE * x + y] := board[SIDE * x + y].(uid := FRUIT);
          return true;
        }
      }
      assert rolls[|rolls|..] == [];
      return false;
    }

    // `delete_snake`
    method DeleteSnake(p: Player)
      requires board.Length == CELLS
      modifies p`len, p`x, p`y, board
      ensures board[..] == Emptied(old(board[..]), p.uid)
      ensures
        if exists c :: Carries(old(board[..]), c, p.uid) then p.len == 0 && p.x == U64 - 1 && p.y == U64 - 1
        else p.len == old(p.len) && p.x == old(p.x) && p.y == old(p.y)
    {
      ghost var b := board[..];
      for i := 0 to SIDE
        invariant forall d :: 0 <= d < CELLS ==>
          board[d] == if d < SIDE * i && old(board[d]).uid == p.uid then Cell(0, 0) else old(board[d])
        invariant
          if exists c :: c < SIDE * i && Carries(b, c, p.uid) then p.len == 0 && p.x == U64 - 1 && p.y == U64 - 1
          else p.len == old(p.len) && p.x == old(p.x) && p.y == old(p.y)
      {
        for j := 0 to SIDE
          invariant forall d :: 0 <= d < CELLS ==>
            board[d] == if d < SIDE * i + j && old(board[d]).uid == p.uid then Cell(0, 0) else old(board[d])
          invariant
            if exists c :: c < SIDE * i + j && Carries(b, c, p.uid) then p.len == 0 && p.x == U64 - 1 && p.y == U64 - 1
            else p.len == old(p.len) && p.x == old(p.x) && p.y == old(p.y)
        {
          if board[SIDE * i + j].uid == p.uid {
            assert Carries(b, SIDE * i + j, p.uid);
            board[SIDE * i + j] := Cell(0, 0);
            p.len := 0;
            p.x, p.y := U64 - 1, U64 - 1;
          }
        }
      }
    }

    // `check_collision` at the new head position. placed is false exactly when a fruit is eaten and
    // the search for a place for the next one goes on beyond `rolls`.
    method CheckCollision(p: Player, rolls: Rolls) returns (placed: bool)
      requires board.Length == CELLS && p.uid > 0 && ValidRolls(rolls)
      modifies p`alive, p`len, p`x, p`y, board
      ensures
        var b, h := old(board[..]), old(p.Head());
        && (placed <==> !NoPlace(b, h.x, h.y, rolls))
        && board[..] == CheckedBoard(b, p.uid, h.x, h.y, rolls) && p.Head() == CheckedHead(b, h, p.uid, h.x, h.y)
    {
      ghost var b, h := board[..], p.Head();
      NoPlaceIs(b, p.x, p.y, rolls);
      CheckedElsewhere(b, h, p.uid, p.x, p.y, rolls);
      if Enters(b, p.x, p.y) && b[Index(p.x, p.y)].uid == FRUIT { EatenBoard(b, p.uid, p.x, p.y, rolls); }
      hide NoPlace, FirstEmpty, Emptied, CheckedBoard, CheckedHead;
      placed := true;
      if p.x >= SIDE || p.y >= SIDE {
        p.alive := false;
        DeleteSnake(p);
        return;
      }
      var uid := board[SIDE * p.x + p.y].uid;
      if uid == 0 {
      } else if uid == FRUIT {
        board[SIDE * p.x + p.y] := board[SIDE * p.x + p.y].(uid := p.uid);
        assert board[..] == b[Index(p.x, p.y) := b[Index(p.x, p.y)].(uid := p.uid)];
        p.len := p.len + 1;
        placed := Food(rolls);
      } else {
        p.alive := false;
        DeleteSnake(p);
      }
    }

    // `update_position`, for living and dead players alike: turn, move, check, stamp.
    method UpdatePosition(p: Player, key: int, rolls: Rolls) returns (placed: bool)
      requires board.Length == CELLS && p.uid > 0 && ValidRolls(rolls)
      modifies p`dir, p`x, p`y, p`len, p`alive, p`trail, board
      ensures
        var b, h := old(board[..]), old(p.Head());
        var dir := Turned(p.keys, h.dir, key);
        placed <==> !NoPlace(b, MovedX(h.x, p.keys, dir), MovedY(h.y, p.keys, dir), rolls)
      ensures placed ==> StepBy(old(board[..]), old(p.Head()), p.uid, p.keys, key, rolls) == Some((board[..], p.Head()))
      ensures placed && p.alive && Steerable(old(p.Head()), p.keys, key) ==>
        && p.dir == (if Ignored(p.keys, old(p.dir), key) then old(p.dir) else key)
        && GoesOn(p.keys, p.dir, old(p.x), old(p.y), p.x, p.y)
      ensures placed ==> p.trail == if p.alive then old(p.trail) + [Stamp(Index(p.x, p.y), p.len)] else old(p.trail)
    {
      hide MovedX, MovedY, FlatIndex, Turned, MoveTo, CheckedBoard, NoPlace, GoesOn, Ignored, Steerable;
      ghost var b, h := board[..], p.Head();
      var dir := Turned(p.keys, p.dir, key);
      p.dir := dir;
      p.x, p.y := MovedX(p.x, p.keys, dir), MovedY(p.y, p.keys, dir);
      ghost var x, y := p.x, p.y;
      placed := CheckCollision(p, rolls);
      if !placed {
        return;
      }
      ghost var b1 := board[..];
      var at := FlatIndex(p.x, p.y);
      if at < board.Length {
        board[at] := Cell(p.uid, p.len);
      }
      assert board[..] == Stamped(b1, at, Cell(p.uid, p.len));
      if p.alive {
        p.trail := p.trail + [Stamp(Index(p.x, p.y), p.len)];
      }
      CheckedMove(b, h.(dir := dir), p.uid, x, y, rolls);
      if p.alive && Steerable(h, p.keys, key) {
        StepGoesOn(b, h, p.uid, p.keys, key, rolls, p.Head());
      }
    }

    // One player's part of `move_player`.
    method MoveOne(p: Player, ch: int, rolls: Rolls) returns (done: bool)
      requires board.Length == CELLS && p.uid > 0 && ValidRolls(rolls)
      modifies p`dir, p`x, p`y, p`len, p`alive, p`trail, board
      ensures done <==> !TurnStuck(old(board[..]), old(p.Side()), ch, rolls)
      ensures done ==> Turn(old(board[..]), old(p.Side()), ch, rolls) == Some((board[..], p.Side()))
    {
      hide StepBy, NoPlace, MovedX, MovedY, Turned;
      if p.keys.Has(ch) {
        done := UpdatePosition(p, ch, rolls);
      } else {
        done := UpdatePosition(p, 0, rolls);
      }
    }

    // ---------- whole games ----------

    // One round of the game loop: redraw, then every player moves by the key that was read, dead
    // ones too. The result is the player whose fruit search goes on beyond its random numbers, or 0.
    method Iterate(p1: Player, p2: Player?, input: Input) returns (stuck: nat)
      requires board.Length == CELLS && p1.uid > 0 && (p2 != null ==> p2.uid > 0) && input.Valid()
      modifies p1, p2, board
      ensures
        match Round(old(Abs(p1, p2)), input)
        case Stuck(n) => stuck == n
        case Next(w) => stuck == 0 && Abs(p1, p2) == w
    {
      hide Turn, TurnStuck;
      RoundStuckIff(Abs(p1, p2), input);
      DrawGame();
      var done := MoveOne(p1, input.ch, input.rolls1);
      if !done {
        return 1;
      }
      if p2 != null {
        done := MoveOne(p2, input.ch, input.rolls2);
        if !done {
          return 2;
        }
      }
      return 0;
    }

    // The game loop over a list of inputs, while somebody lives. It plays exactly the game that board,
    // players and inputs determine; if the game is harmless, the invariants hold at its end.
    method Play(p1: Player, p2: Player?, inputs: seq<Input>) returns (rounds: nat, stuck: nat)
      requires board.Length == CELLS && p1.uid > 0 && (p2 != null ==> p2.uid > 0) && ValidInputs(inputs)
      modifies p1, p2, board
      ensures rounds == Played(old(Abs(p1, p2)), inputs).rounds && stuck == Played(old(Abs(p1, p2)), inputs).stuck
      ensures stuck == 0 ==> Abs(p1, p2) == Played(old(Abs(p1, p2)), inputs).world
      ensures old(WorldOk(Abs(p1, p2))) && p1 != p2 && HarmlessGame(old(Abs(p1, p2)), inputs) && stuck == 0 ==>
        WorldOk(Abs(p1, p2))
    {
      hide Round, WorldOk, HarmlessGame, Played;
      ghost var w := Abs(p1, p2);
      rounds, stuck := 0, 0;
      assert inputs[0..] == inputs;
      while rounds < |inputs| && (p1.alive || (p2 != null && p2.alive))
        invariant rounds <= |inputs| && stuck == 0
        invariant p1.uid > 0 && (p2 != null ==> p2.uid > 0)
        invariant var e := Played(Abs(p1, p2), inputs[rounds..]);
          Played(w, inputs) == End(rounds + e.rounds, e.world, e.stuck)
      {
        assert inputs[rounds..][0] == inputs[rounds] && inputs[rounds..][1..] == inputs[rounds + 1..];
        PlayedNext(Abs(p1, p2), inputs[rounds..]);
        stuck := Iterate(p1, p2, inputs[rounds]);
        if stuck != 0 {
          return;
        }
        rounds := rounds + 1;
      }
      PlayedOut(Abs(p1, p2), inputs[rounds..]);
      if WorldOk(w) && p1 != p2 && HarmlessGame(w, inputs) {
        BoundaryOk(w, inputs, |inputs|);
        assert inputs[..|inputs|] == inputs;
      }
    }

    // One or two players set up, by pointers that may be equal, and the first fruit placed.
    method Start(p1: Player, p2: Player?, keys1: Controller, keys2: Controller, rolls: Rolls) returns (placed: bool)
      requires board.Length == CELLS && (forall c :: 0 <= c < CELLS ==> board[..][c] == Cell(0, 0)) && ValidRolls(rolls)
      modifies p1, p2, board
      ensures placed <==> exists i :: 0 <= i < |rolls| && rolls[i] != (4, 6) && (p2 != null ==> rolls[i] != (19, 6))
      ensures
        var spot := FirstEmpty(StartBoard(p2 != null), rolls);
        if placed then spot.Some? && Abs(p1, p2) == StartWorld(p2 != null, p1 == p2, keys1, keys2, spot.value)
        else board[..] == StartBoard(p2 != null)
      ensures placed && keys1.Valid() && keys2.Valid() ==> WorldOk(Abs(p1, p2))
    {
      hide WorldOk;
      InitPlayer(p1, 0, keys1);
      if p2 != null {
        InitPlayer(p2, 1, keys2);
      }
      assert board[..] == StartBoard(p2 != null);
      StartPlacedIff(p2 != null, rolls);
      placed := Food(rolls);
      if placed && keys1.Valid() && keys2.Valid() {
        StartOk(p2 != null, p1 == p2, keys1, keys2, FirstEmpty(StartBoard(p2 != null), rolls).value);
      }
    }
  }
}
