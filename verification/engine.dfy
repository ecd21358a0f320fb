/** The game controller (src/game/GameController.js): score, level and line
    counters, the 7-piece bag, the current, ghost and held pieces, the pause
    and game-over flags, the gravity clock and the pending lock. */
module Engine {
  import opened Cells
  import opened Pieces
  import opened Playfield

  datatype Option<T> = None | Some(value: T)

  /** SCORING: points per line clear (multiplied by the level) and per drop step. */
  datatype Scoring = Scoring(single: nat, double: nat, triple: nat, tetris: nat, softDrop: nat, hardDrop: nat)

  /** The configuration the controller and the board import: playfield size,
      shape per kind (TETROMINOS), scoring table, and the gravity interval
      per level (LEVEL_SPEEDS). */
  datatype Constants = Constants(
    width: nat,
    height: nat,
    tetrominos: Kind -> Shape,
    scoring: Scoring,
    levelSpeeds: seq<int>)

  /** The shape of `kind` is a valid shape, and a piece of that kind at its
      spawn position lies inside the playfield. */
  predicate KindFits(k: Constants, kind: Kind) {
    var s := k.tetrominos(kind);
    IsShape(s) && InBounds(s, SpawnX(kind, |s[0]|), SpawnY(kind), k.height, k.width)
  }

  predicate ValidConstants(k: Constants) {
    k.width >= 1 && k.height >= 1 && forall kind :: KindFits(k, kind)
  }

  /** The ghost piece: a copy of the current piece's kind, shape and column,
      with the row the ghost search returned. */
  datatype PieceView = PieceView(kind: Kind, shape: Shape, x: int, y: int)

  /** The key codes the handler dispatches on; any other code is `Other`. */
  datatype Key = ArrowLeft | ArrowRight | ArrowDown | ArrowUp | KeyX | KeyZ | ControlLeft
               | Space | ShiftLeft | KeyC | Escape | F1 | Other

  /** What a key press came to: ignored while paused or over, dispatched to a
      command, not bound to anything, or the hold call that throws because the
      `holdPiece` field hides the method of the same name. */
  datatype KeyOutcome = Blocked | Dispatched | Unbound | HoldThrows

  /** The counters, the bag, the hold slot and the flags of the controller. */
  datatype Counters = Counters(
    score: nat, level: nat, lines: nat, bag: seq<Kind>, holdPiece: Option<Kind>,
    canHold: bool, gameOver: bool, paused: bool, lastMoveTime: int, lockPending: bool)

  /** The part of the controller's state that locking a piece reads, the
      score aside. */
  datatype Settled = Settled(
    grid: Grid, kind: Kind, shape: Shape, x: int,
    level: int, lines: int, bag: seq<Kind>, holdPiece: Option<Kind>,
    paused: bool, lastMoveTime: int, gameOver: bool)

  // ---------------------------------------------------------------------
  // The bag

  /** One refill: seven entries among which every kind occurs, so each kind
      exactly once, in some order. */
  predicate IsKindPermutation(p: seq<Kind>) {
    |p| == 7 && forall kind :: kind in p
  }

  /** The kind list in its listed order is a refill. */
  lemma KindListIsRefill()
    ensures IsKindPermutation(AllKinds)
  {
    forall kind ensures kind in AllKinds {
      match kind
      case I => case O => case T => case S => case Z => case J => case L =>
    }
  }

  /** Any reordering of the kind list, which is what shuffling it produces,
      is a refill. */
  lemma ShuffleIsRefill(p: seq<Kind>)
    requires multiset(p) == multiset(AllKinds)
    ensures IsKindPermutation(p)
  {
    assert |multiset(p)| == |p|;
    forall kind ensures kind in p {
      var i :| 0 <= i < 7 && AllKinds[i] == kind;
      assert kind in multiset(AllKinds);
    }
  }

  /** Conversely, every refill is a reordering of the kind list: seven
      entries that include all seven kinds hold each kind exactly once. */
  lemma RefillIsShuffle(p: seq<Kind>)
    requires IsKindPermutation(p)
    ensures multiset(p) == multiset(AllKinds)
  {
    var m, a := multiset(p), multiset(AllKinds);
    forall kind ensures a[kind] <= m[kind] {
      assert kind in p;
      match kind
      case I => case O => case T => case S => case Z => case J => case L =>
    }
    assert a <= m;
    assert |m - a| == |m| - |a| == 0;
    assert m == a + (m - a);
  }

  /** What `fillBag` appends to `bag`: one refill when at most seven kinds are
      left, nothing otherwise. */
  predicate Refill(bag: seq<Kind>, added: seq<Kind>) {
    if |bag| <= 7 then IsKindPermutation(added) else added == []
  }

  /** Drawing `kind` turned bag `before` into `after`: `[kind] + after` is
      `before` followed by what the refill added. */
  predicate Drew(before: seq<Kind>, kind: Kind, after: seq<Kind>) {
    var full := [kind] + after;
    |before| <= |full| && full[..|before|] == before && Refill(before, full[|before|..])
  }

  // ---------------------------------------------------------------------
  // Scoring and gravity

  /** Points for clearing `cleared` rows at `level`: the base value for one
      to four rows times the level, nothing for any other count. */
  function LineScore(s: Scoring, cleared: int, level: int): (points: int)
    ensures !(1 <= cleared <= 4) ==> points == 0
    ensures level >= 0 ==> points >= 0
    ensures cleared == 1 && level == 1 ==> points == s.single
  {
    if cleared == 1 then s.single * level
    else if cleared == 2 then s.double * level
    else if cleared == 3 then s.triple * level
    else if cleared == 4 then s.tetris * level
    else 0
  }

  /** Line-clear points scale with the level. */
  lemma LineScoreScales(s: Scoring, cleared: int, level: int)
    ensures LineScore(s, cleared, level) == LineScore(s, cleared, 1) * level
  {
  }

  /** The hard-drop points for falling `rows` rows, one row at a time. */
  function DropPoints(rows: nat, perRow: nat): nat {
    if rows == 0 then 0 else DropPoints(rows - 1, perRow) + perRow
  }

  /** Row by row, a hard drop scores the per-row points times the rows fallen. */
  lemma {:induction false} DropPointsIsProduct(rows: nat, perRow: nat)
    ensures DropPoints(rows, perRow) == rows * perRow
  {
    if rows > 0 {
      DropPointsIsProduct(rows - 1, perRow);
    }
  }

  /** `deltaTime > LEVEL_SPEEDS[level]`. Past the end of the table the lookup
      gives `undefined` and the comparison is false, so gravity stops. */
  predicate GravityDue(speeds: seq<int>, level: int, delta: int) {
    0 <= level < |speeds| && delta > speeds[level]
  }

  /** The ghost copy `v` matches piece `p` on grid `g`. */
  ghost predicate GhostMatches(g: Grid, p: Tetromino, v: PieceView)
    reads p
    requires IsField(g)
  {
    v.kind == p.kind && v.shape == p.shape && v.x == p.x && IsGhostRow(g, p.shape, p.x, p.y, v.y)
  }

  lemma GridIsField(g: Grid, height: int, width: int)
    requires IsGrid(g, height, width) && height >= 1
    ensures IsField(g) && |g[0]| == width
  {
  }

  // ---------------------------------------------------------------------
  // The controller object

  class Game {
    const k: Constants
    const board: Board
    var currentPiece: Tetromino?
    var ghostPiece: Option<PieceView>
    var holdPiece: Option<Kind>
    var canHold: bool
    var bag: seq<Kind>
    var score: nat
    var level: nat
    var lines: nat
    var gameOver: bool
    var paused: bool
    var lastMoveTime: int
    /** A lock timer is armed (`lockDelayTimer` is not null). */
    var lockPending: bool

    ghost predicate Valid()
      reads this`currentPiece, this`level, this`lines, this`bag
      reads board, currentPiece
    {
      ValidConstants(k) &&
      board.height == k.height && board.width == k.width && board.Valid() &&
      IsField(board.grid) &&
      currentPiece != null && currentPiece.Valid() &&
      InBounds(currentPiece.shape, currentPiece.x, currentPiece.y, k.height, k.width) &&
      level == lines / 10 + 1 &&
      7 <= |bag| <= 13
    }

    /** The ghost copy shows the current piece where it would land. */
    ghost predicate GhostCurrent()
      reads this`currentPiece, this`ghostPiece, board, currentPiece
    {
      currentPiece != null && IsField(board.grid) &&
      ghostPiece.Some? && GhostMatches(board.grid, currentPiece, ghostPiece.value)
    }

    /** `p` is a fresh piece of its kind: configured shape, spawn position. */
    ghost predicate IsSpawned(p: Tetromino)
      reads p
    {
      p.shape == k.tetrominos(p.kind) && |p.shape| > 0 &&
      p.x == SpawnX(p.kind, |p.shape[0]|) && p.y == SpawnY(p.kind) && p.rotation == 0
    }

    /** The counters, the bag, the hold slot and the flags: what moving or
        turning the piece leaves alone. */
    ghost function Tally(): Counters
      reads this`score, this`level, this`lines, this`bag, this`holdPiece, this`canHold
      reads this`gameOver, this`paused, this`lastMoveTime, this`lockPending
    {
      Counters(score, level, lines, bag, holdPiece, canHold, gameOver, paused, lastMoveTime, lockPending)
    }

    /** What locking the current piece depends on, the score aside: the
        board, the piece's kind, shape and column, the line and level
        counters, the bag, the hold slot and the flags. */
    ghost function Before(): Settled
      reads this`currentPiece, this`level, this`lines, this`bag, this`holdPiece
      reads this`paused, this`lastMoveTime, this`gameOver, board, currentPiece
      requires currentPiece != null
    {
      Settled(board.grid, currentPiece.kind, currentPiece.shape, currentPiece.x,
              level, lines, bag, holdPiece, paused, lastMoveTime, gameOver)
    }

    /** The state after a piece, placed on row `landing`, has been merged
        into the board of `b`, the full rows cleared and their points added
        to `score0`, the next
        piece drawn from the bag with the hold unlocked, and the game flagged
        over if that piece collides where it spawned. */
    ghost predicate LockedFrom(b: Settled, landing: int, score0: int)
      reads this, board, currentPiece
    {
      currentPiece != null && IsField(board.grid) &&
      var merged := Stamp(b.grid, b.shape, b.x, landing, b.kind);
      var n := FullCount(merged);
      board.grid == AfterClear(merged, k.width) &&
      score == score0 + LineScore(k.scoring, n, b.level) &&
      lines == b.lines + n && level == lines / 10 + 1 &&
      IsSpawned(currentPiece) && Drew(b.bag, currentPiece.kind, bag) &&
      canHold && holdPiece == b.holdPiece && paused == b.paused &&
      lastMoveTime == b.lastMoveTime &&
      gameOver == (b.gameOver || Collides(board.grid, currentPiece.shape, currentPiece.x, currentPiece.y))
    }

    /** Locking the piece that was current in the old state on row `landing`,
        with `bonus` drop points added to the score first, produced this
        state, with a newly allocated current piece. */
    twostate predicate LockedAt(landing: int, bonus: int)
      reads this, board, currentPiece
    {
      old(currentPiece) != null && currentPiece != null && fresh(currentPiece) &&
      LockedFrom(old(Before()), landing, old(score) + bonus)
    }

    /** Moving the piece by (dx, dy): it moved when that position was free
        and stayed put otherwise, `bonus` points were added to the score, the
        ghost copy was recomputed after a move and kept otherwise, and the
        board, the piece's shape and the rest of the state are unchanged. */
    twostate predicate Shifted(dx: int, dy: int, bonus: int)
      reads this, board, currentPiece
    {
      old(currentPiece) != null && old(IsField(board.grid)) && currentPiece == old(currentPiece) &&
      var free := !old(Collides(board.grid, currentPiece.shape, currentPiece.x + dx, currentPiece.y + dy));
      currentPiece.shape == old(currentPiece.shape) &&
      currentPiece.x == old(currentPiece.x) + (if free then dx else 0) &&
      currentPiece.y == old(currentPiece.y) + (if free then dy else 0) &&
      board.grid == old(board.grid) && score == old(score) + bonus &&
      (if free then GhostCurrent() else ghostPiece == old(ghostPiece)) &&
      Tally() == old(Tally()).(score := score)
    }

    /** Turning the piece (clockwise for direction 1): it took the turned
        shape when that does not collide in place and kept its shape
        otherwise; the ghost copy was recomputed after a kept turn and kept
        otherwise; its position, the board and the rest of the state are
        unchanged. */
    twostate predicate Rotated(direction: int)
      reads this, board, currentPiece
    {
      old(currentPiece) != null && old(IsField(board.grid)) && old(IsSquare(currentPiece.shape)) &&
      currentPiece == old(currentPiece) &&
      var turned := Turned(old(currentPiece.shape), direction);
      var blocked := old(Collides(board.grid, turned, currentPiece.x, currentPiece.y));
      currentPiece.shape == (if blocked then old(currentPiece.shape) else turned) &&
      (if blocked then ghostPiece == old(ghostPiece) else GhostCurrent()) &&
      currentPiece.x == old(currentPiece.x) && currentPiece.y == old(currentPiece.y) &&
      board.grid == old(board.grid) && Tally() == old(Tally())
    }

    /** A hard drop: the piece was locked on its landing row, as `LockedAt`
        says, after scoring the hard-drop points for every row it fell, and
        the ghost copy shows the new piece. */
    twostate predicate Dropped()
      reads this, board, currentPiece
    {
      old(currentPiece) != null && old(IsField(board.grid)) && old(HasBlock(currentPiece.shape)) &&
      currentPiece != null && fresh(currentPiece) && lockPending == old(lockPending) && GhostCurrent() &&
      var land := Landing(old(board.grid), old(currentPiece.shape), old(currentPiece.x), old(currentPiece.y));
      LockedFrom(old(Before()), land, old(score) + (land - old(currentPiece.y)) * k.scoring.hardDrop)
    }

    /** The pause flag flipped and nothing else changed. */
    twostate predicate PauseToggled()
      reads this, board, currentPiece
    {
      currentPiece == old(currentPiece) && currentPiece != null && unchanged(currentPiece) &&
      board.grid == old(board.grid) && ghostPiece == old(ghostPiece) &&
      Tally() == old(Tally()).(paused := !old(paused))
    }

    /** Nothing changed. */
    twostate predicate Unchanged()
      reads this, board, currentPiece
    {
      unchanged(this) && unchanged(board) && currentPiece != null && unchanged(currentPiece)
    }

    /** What a key does while the game is running: the case of the key
        handler's switch that the key selects. */
    twostate predicate KeyEffect(key: Key)
      reads this, board, currentPiece
    {
      match key
      case ArrowLeft => Shifted(-1, 0, 0)
      case ArrowRight => Shifted(1, 0, 0)
      case ArrowDown => Shifted(0, 1, k.scoring.softDrop)
      case ArrowUp => Rotated(1)
      case KeyX => Rotated(1)
      case KeyZ => Rotated(-1)
      case ControlLeft => Rotated(-1)
      case Space => Dropped()
      case Escape => PauseToggled()
      case F1 => PauseToggled()
      case ShiftLeft => Unchanged()
      case KeyC => Unchanged()
      case Other => Unchanged()
    }

    /** A new game: empty board, zero counters at level 1, empty hold slot,
        and the first piece drawn from a bag filled twice. */
    constructor (k: Constants)
      requires ValidConstants(k)
      ensures Valid() && this.k == k && fresh(board) && fresh(currentPiece)
      ensures forall i, j :: 0 <= i < k.height && 0 <= j < k.width ==> board.grid[i][j] == Empty
      ensures score == 0 && level == 1 && lines == 0
      ensures !gameOver && !paused && holdPiece == None && canHold
      ensures lastMoveTime == 0 && !lockPending
      ensures IsSpawned(currentPiece) && |bag| == 13 && GhostCurrent()
      ensures IsKindPermutation(([currentPiece.kind] + bag)[..7])
      ensures IsKindPermutation(([currentPiece.kind] + bag)[7..])
    {
      this.k := k;
      board := new Board(k.height, k.width);
      score, level, lines := 0, 1, 0;
      gameOver, paused := false, false;
      holdPiece, canHold := None, true;
      bag := [];
      currentPiece, ghostPiece := null, None;
      lastMoveTime, lockPending := 0, false;
      new;
      GridIsField(board.grid, k.height, k.width);
      FillBag();
      assert IsKindPermutation(bag[0..]);
      ghost var first := bag;
      currentPiece := GetNextPiece();
      assert ([currentPiece.kind] + bag)[..7] == first;
      UpdateGhostPiece();
    }

    /** Appends a shuffled set of the seven kinds when at most seven are left. */
    method FillBag()
      modifies this`bag
      ensures |old(bag)| <= |bag| && bag[..|old(bag)|] == old(bag)
      ensures Refill(old(bag), bag[|old(bag)|..])
    {
      if |bag| <= 7 {
        KindListIsRefill();
        var pieces :| IsKindPermutation(pieces);
        bag := bag + pieces;
        assert bag[|old(bag)|..] == pieces;
      } else {
        assert bag[|old(bag)|..] == [];
      }
    }

    /** Refills if needed, then removes the first kind from the bag and
        spawns a piece of it. */
    method GetNextPiece() returns (p: Tetromino)
      requires ValidConstants(k) && 7 <= |bag| <= 13
      modifies this`bag
      ensures fresh(p) && p.Valid() && IsSpawned(p)
      ensures InBounds(p.shape, p.x, p.y, k.height, k.width)
      ensures 7 <= |bag| <= 13
      ensures Drew(old(bag), p.kind, bag)
    {
      FillBag();
      var kind := bag[0];
      assert [kind] + bag[1..] == bag;
      bag := bag[1..];
      assert KindFits(k, kind);
      p := new Tetromino(k.tetrominos, kind);
    }

    /** Recomputes the ghost copy of the current piece. */
    method UpdateGhostPiece()
      requires currentPiece != null ==> currentPiece.Valid() && IsField(board.grid)
      modifies this`ghostPiece
      ensures currentPiece == null ==> ghostPiece == old(ghostPiece)
      ensures currentPiece != null ==> ghostPiece.Some? && GhostMatches(board.grid, currentPiece, ghostPiece.value)
    {
      if currentPiece == null {
        return;
      }
      var gy := currentPiece.GhostPosition(board.grid);
      ghostPiece := Some(PieceView(currentPiece.kind, currentPiece.shape, currentPiece.x, gy));
    }

    /** Moves the current piece by (dx, dy) when it does not collide there,
        and reports whether it moved. */
    method MovePiece(dx: int, dy: int) returns (moved: bool)
      requires Valid()
      modifies currentPiece`x, currentPiece`y, this`ghostPiece
      ensures Valid() && Shifted(dx, dy, 0)
      ensures moved <==> !old(Collides(board.grid, currentPiece.shape, currentPiece.x + dx, currentPiece.y + dy))
    {
      var hit := currentPiece.CheckCollision(board.grid, dx, dy);
      if !hit {
        FreeIsInBounds(board.grid, currentPiece.shape, currentPiece.x + dx, currentPiece.y + dy);
        currentPiece.x := currentPiece.x + dx;
        currentPiece.y := currentPiece.y + dy;
        UpdateGhostPiece();
        return true;
      }
      return false;
    }

    /** Turns the current piece (clockwise for direction 1), and turns it back
        when the turned shape collides in place; there are no wall kicks. */
    method RotatePiece(direction: int)
      requires Valid()
      modifies currentPiece`shape, this`ghostPiece
      ensures Valid() && Rotated(direction)
    {
      var kept := TurnOrRevert(direction);
      if kept {
        UpdateGhostPiece();
      }
    }

    /** The turn of `rotatePiece` with its revert: the piece takes the
        turned shape, and takes its original shape back when the turned one
        collides in place. */
    method TurnOrRevert(direction: int) returns (kept: bool)
      requires Valid()
      modifies currentPiece`shape
      ensures Valid()
      ensures kept <==> !old(Collides(board.grid, Turned(currentPiece.shape, direction), currentPiece.x, currentPiece.y))
      ensures currentPiece.shape == if kept then Turned(old(currentPiece.shape), direction) else old(currentPiece.shape)
    {
      var piece := currentPiece;
      var originalShape := piece.shape;
      ghost var turned := Turned(originalShape, direction);
      piece.Rotate(direction);
      var hit := piece.CheckCollision(board.grid, 0, 0);
      assert hit == Collides(board.grid, turned, piece.x, piece.y);
      if hit {
        piece.shape := originalShape;
      } else {
        FreeIsInBounds(board.grid, turned, piece.x, piece.y);
      }
      kept := !hit;
    }

    /** Moves the piece down while it can, scoring each step, then locks it. */
    method HardDrop()
      requires Valid()
      modifies this, board, currentPiece
      ensures Valid() && Dropped()
    {
      ghost var land := Landing(board.grid, currentPiece.shape, currentPiece.x, currentPiece.y);
      ghost var bonus := (land - currentPiece.y) * k.scoring.hardDrop;
      ghost var b := Before();
      DropToLanding();
      assert Before() == b && currentPiece.y == land && score == old(score) + bonus;
      LockPiece();
      assert LockedFrom(b, land, old(score) + bonus);
    }

    /** The drop loop of a hard drop: the piece ends on its landing row and
        each row it fell scores the hard-drop points. */
    method DropToLanding()
      requires Valid()
      modifies currentPiece`x, currentPiece`y, this`ghostPiece, this`score
      ensures Valid()
      ensures currentPiece.x == old(currentPiece.x)
      ensures currentPiece.y == Landing(board.grid, currentPiece.shape, currentPiece.x, old(currentPiece.y))
      ensures score == old(score) + (currentPiece.y - old(currentPiece.y)) * k.scoring.hardDrop
    {
      ghost var g, s, x := board.grid, currentPiece.shape, currentPiece.x;
      ghost var land := Landing(g, s, x, currentPiece.y);
      ghost var steps: nat := 0;
      while true
        invariant Valid()
        invariant currentPiece.x == x
        invariant currentPiece.y == old(currentPiece.y) + steps
        invariant Landing(g, s, x, currentPiece.y) == land
        invariant score == old(score) + DropPoints(steps, k.scoring.hardDrop)
        decreases |g| - currentPiece.y
      {
        ghost var y := currentPiece.y;
        LandingStep(g, s, x, y);
        var moved := StepDown();
        if !moved {
          break;
        }
        InBoundsIsAboveFloor(s, x, currentPiece.y, k.height, k.width);
        score := score + k.scoring.hardDrop;
        steps := steps + 1;
      }
      DropPointsIsProduct(steps, k.scoring.hardDrop);
    }

    /** `movePiece(0, 1)` as the drop loop uses it: one row down when that
        row is free, reported by `moved`. */
    method StepDown() returns (moved: bool)
      requires Valid()
      modifies currentPiece`x, currentPiece`y, this`ghostPiece
      ensures Valid()
      ensures moved <==> !old(Collides(board.grid, currentPiece.shape, currentPiece.x, currentPiece.y + 1))
      ensures currentPiece.x == old(currentPiece.x) && currentPiece.y == old(currentPiece.y) + (if moved then 1 else 0)
    {
      moved := MovePiece(0, 1);
    }

    /** Does nothing once the hold has been used for this piece. Otherwise
        puts the current kind in the hold slot and continues with the next
        piece from the bag (empty slot) or a fresh piece of the held kind
        (swap). No game-over check is made on the new piece. */
    method Hold()
      requires Valid()
      modifies this`holdPiece, this`currentPiece, this`bag, this`canHold, this`ghostPiece
      ensures Valid()
      ensures !old(canHold) ==> unchanged(this)
      ensures old(canHold) ==>
        holdPiece == Some(old(currentPiece.kind)) && !canHold &&
        fresh(currentPiece) && IsSpawned(currentPiece) && GhostCurrent() &&
        (old(holdPiece).Some? ==> currentPiece.kind == old(holdPiece).value && bag == old(bag)) &&
        (old(holdPiece).None? ==> Drew(old(bag), currentPiece.kind, bag))
    {
      if !canHold {
        return;
      }
      var temp := currentPiece.kind;
      if holdPiece == None {
        holdPiece := Some(temp);
        currentPiece := GetNextPiece();
      } else {
        assert KindFits(k, holdPiece.value);
        currentPiece := new Tetromino(k.tetrominos, holdPiece.value);
        holdPiece := Some(temp);
      }
      canHold := false;
      UpdateGhostPiece();
    }

    /** Merges the current piece into the board, clears and scores full rows,
        draws the next piece, unlocks the hold, and ends the game when the new
        piece collides where it spawned. */
    method LockPiece()
      requires Valid()
      modifies this, board
      ensures Valid()
      ensures LockedAt(old(currentPiece.y), 0) && GhostCurrent()
      ensures lockPending == old(lockPending)
    {
      ghost var b, y, pending := Before(), currentPiece.y, lockPending;
      SettlePiece();
      assert lockPending == pending;
      SpawnNext();
      assert lockPending == pending;
      assert LockedFrom(b, y, old(score));
    }

    /** The first half of locking: merge the piece, clear full rows, score them. */
    method SettlePiece()
      requires Valid()
      modifies board, this`score, this`lines, this`level
      ensures board.Valid() && IsField(board.grid)
      ensures var merged := Stamp(old(board.grid), currentPiece.shape, currentPiece.x, currentPiece.y, currentPiece.kind);
        board.grid == AfterClear(merged, k.width) &&
        score == old(score) + LineScore(k.scoring, FullCount(merged), old(level)) &&
        lines == old(lines) + FullCount(merged) && level == lines / 10 + 1
    {
      board.AddPiece(currentPiece);
      var cleared := board.ClearLines();
      UpdateScore(cleared);
      GridIsField(board.grid, k.height, k.width);
    }

    /** The second half of locking: draw the next piece, unlock the hold, and
        end the game when the new piece collides where it spawned. */
    method SpawnNext()
      requires ValidConstants(k) && board.height == k.height && board.width == k.width
      requires board.Valid() && IsField(board.grid)
      requires level == lines / 10 + 1 && 7 <= |bag| <= 13
      modifies this`currentPiece, this`bag, this`canHold, this`gameOver, this`ghostPiece
      ensures Valid()
      ensures fresh(currentPiece) && IsSpawned(currentPiece) && Drew(old(bag), currentPiece.kind, bag) && canHold
      ensures GhostCurrent()
      ensures gameOver == (old(gameOver) || Collides(board.grid, currentPiece.shape, currentPiece.x, currentPiece.y))
    {
      currentPiece := GetNextPiece();
      canHold := true;
      var hit := currentPiece.CheckCollision(board.grid, 0, 0);
      assert hit == Collides(board.grid, currentPiece.shape, currentPiece.x + 0, currentPiece.y + 0);
      assert hit == Collides(board.grid, currentPiece.shape, currentPiece.x, currentPiece.y);
      if hit {
        gameOver := true;
      }
      UpdateGhostPiece();
    }

    /** Adds the line-clear points at the current level, then adds the rows to
        the line count and derives the level from it. */
    method UpdateScore(cleared: nat)
      modifies this`score, this`lines, this`level
      ensures score == old(score) + LineScore(k.scoring, cleared, old(level))
      ensures lines == old(lines) + cleared && level == lines / 10 + 1
    {
      if cleared == 1 {
        score := score + k.scoring.single * level;
      } else if cleared == 2 {
        score := score + k.scoring.double * level;
      } else if cleared == 3 {
        score := score + k.scoring.triple * level;
      } else if cleared == 4 {
        score := score + k.scoring.tetris * level;
      }
      lines := lines + cleared;
      level := lines / 10 + 1;
    }

    method TogglePause()
      modifies this`paused
      ensures paused == !old(paused)
    {
      paused := !paused;
    }

    /** The per-frame step. Nothing happens when the game is over or paused,
        or before the level's gravity interval has passed. Otherwise the piece
        moves down one row if it can; a blocked step arms the lock timer (if
        it is not armed already) and a successful one disarms it. */
    method Update(timestamp: int)
      requires Valid()
      modifies this, currentPiece
      ensures Valid()
      ensures !(!old(gameOver) && !old(paused) && GravityDue(k.levelSpeeds, old(level), timestamp - old(lastMoveTime))) ==>
        unchanged(this) && unchanged(currentPiece)
      ensures !old(gameOver) && !old(paused) && GravityDue(k.levelSpeeds, old(level), timestamp - old(lastMoveTime)) ==>
        var free := !old(Collides(board.grid, currentPiece.shape, currentPiece.x, currentPiece.y + 1));
        currentPiece == old(currentPiece) && currentPiece.shape == old(currentPiece.shape) &&
        currentPiece.x == old(currentPiece.x) && currentPiece.y == old(currentPiece.y) + (if free then 1 else 0) &&
        (if free then GhostCurrent() else ghostPiece == old(ghostPiece)) &&
        Tally() == old(Tally()).(lastMoveTime := timestamp, lockPending := !free)
    {
      if gameOver || paused {
        return;
      }
      var deltaTime := timestamp - lastMoveTime;
      if GravityDue(k.levelSpeeds, level, deltaTime) {
        var moved := MovePiece(0, 1);
        if !moved {
          if !lockPending {
            lockPending := true;
          }
        } else {
          if lockPending {
            lockPending := false;
          }
        }
        lastMoveTime := timestamp;
      }
    }

    /** The armed lock timer's callback: locks the piece and disarms the
        timer. It runs whatever the pause and game-over flags say. */
    method FireLockTimer()
      requires Valid()
      modifies this, board
      ensures Valid()
      ensures !old(lockPending) ==> unchanged(this) && unchanged(board)
      ensures old(lockPending) ==> LockedAt(old(currentPiece.y), 0) && !lockPending && GhostCurrent()
    {
      if lockPending {
        LockPiece();
        lockPending := false;
      }
    }

    /** The keydown handler: ignores every key while the game is over or
        paused, otherwise dispatches the key to its command. The soft drop
        scores even when the piece cannot move down. */
    method HandleKey(key: Key) returns (outcome: KeyOutcome)
      requires Valid()
      modifies this, board, currentPiece
      ensures Valid()
      ensures outcome == Blocked <==> old(gameOver || paused)
      ensures outcome == HoldThrows <==> !old(gameOver || paused) && (key == ShiftLeft || key == KeyC)
      ensures outcome == Unbound <==> !old(gameOver || paused) && key == Other
      ensures if outcome == Blocked then Unchanged() else KeyEffect(key)
    {
      if gameOver || paused {
        return Blocked;
      }
      outcome := Dispatched;
      match key {
        case ArrowLeft =>
          var moved := MovePiece(-1, 0);
        case ArrowRight =>
          var moved := MovePiece(1, 0);
        case ArrowDown =>
          var moved := MovePiece(0, 1);
          score := score + k.scoring.softDrop;
        case ArrowUp =>
          RotatePiece(1);
        case KeyX =>
          RotatePiece(1);
        case KeyZ =>
          RotatePiece(-1);
        case ControlLeft =>
          RotatePiece(-1);
        case Space =>
          HardDrop();
        case ShiftLeft =>
          outcome := HoldThrows;
        case KeyC =>
          outcome := HoldThrows;
        case Escape =>
          TogglePause();
        case F1 =>
          TogglePause();
        case Other =>
          outcome := Unbound;
      }
    }
  }
}
