/** The pong board and its balls as the program keeps them: cells that point to balls, and balls
    that know their position. `Board.game` is the value they stand for. */
module PongBoard {
  import opened PongGame
  import Sequences

  datatype PongCell = PongCell(kind: CellType, ball: PongBall?)

  /** The game after ball `id` and ball `other` have exchanged what differs in their directions. */
  function Collided(g: Game, id: nat, other: nat): Game
    requires id in g.balls && other in g.balls
  {
    var b, o := g.balls[id], g.balls[other];
    Put(Put(g, id, b.(dx := if o.dx != b.dx then -b.dx else b.dx, dy := if o.dy != b.dy then -b.dy else b.dy)),
        other, o.(dx := b.dx, dy := b.dy))
  }

  /** The game after a move, from the game in which the ball has already turned at the edges. */
  lemma MoveByCases(g: Game, id: nat)
    requires Inv(g) && id in g.balls
    ensures var b := g.Bounced(g.balls[id]);
            var next, g1 := Pos(b.x + b.dx, b.y + b.dy), Put(g, id, b);
            Move(g, id) ==
            if g.balls[id].dx == 0 && g.balls[id].dy == 0 then (g, false)
            else if next in g.at then (Collided(g1, id, g.at[next]), false)
            else if g.Kind(next) == Obstacle then (Put(g1, id, b.(dx := -b.dx, dy := -b.dy)), false)
            else
              var stops := g.Kind(next) == Sticky;
              var ball := if stops then Ball(next.x, next.y, 0, 0) else Ball(next.x, next.y, b.dx, b.dy);
              (Step(g1, id, b.At(), ball), true)
  {
    PlanIsProper(g, id);
    var b := g.Bounced(g.balls[id]);
    var g1 := Put(g, id, b);
    match Plan(g, id)
    case Stay =>
    case Collide(b', other, o) => assert g1.balls[id := b'] == g.balls[id := b'];
    case TurnBack(b') => assert g1.balls[id := b'] == g.balls[id := b'];
    case Go(b') => assert g1.balls[id := b'] == g.balls[id := b'];
  }

  class Board {
    const width: nat
    const height: nat
    const cells: array2<PongCell>      // by x, then y
    var obstacleCell: PongCell         // stands for every cell off the board
    var balls: seq<PongBall>           // the balls made for this board, by number
    ghost var game: Game

    predicate OnBoard(x: int, y: int) { 0 <= x < width && 0 <= y < height }

    /** cell(x, y) */
    function Cell(x: int, y: int): PongCell
      requires cells.Length0 == width && cells.Length1 == height
      reads this`obstacleCell, cells
    {
      if x < 0 || x >= width || y < 0 || y >= height then obstacleCell
      else cells[x, y]
    }

    /** The ball that `g` has at (x, y). */
    ghost function BallAt(g: Game, x: int, y: int): PongBall?
      reads this`balls
    {
      if Pos(x, y) in g.at && g.at[Pos(x, y)] < |balls| then balls[g.at[Pos(x, y)]] else null
    }

    /** The cells show the game `g`. */
    ghost predicate CellsShow(g: Game)
      requires cells.Length0 == width && cells.Length1 == height
      reads this`balls, cells
    {
      && g.kind.Keys == Positions(width, height)
      && (forall x, y | OnBoard(x, y) ::
            Pos(x, y) in g.kind && cells[x, y] == PongCell(g.kind[Pos(x, y)], BallAt(g, x, y)))
    }

    /** The balls show the game `g`. */
    ghost predicate BallsShow(g: Game)
      reads this`balls, balls
    {
      && (forall i | i in g.balls :: i < |balls|) && (forall p | p in g.at :: g.at[p] in g.balls)
      && (forall i | 0 <= i < |balls| ::
            balls[i].board == this && balls[i].id == i && i in g.balls && balls[i].State() == g.balls[i])
    }

    /** Cells and balls show the same game. */
    ghost predicate Valid()
      reads this, cells, balls
    {
      && cells.Length0 == width && cells.Length1 == height
      && CellsShow(game) && BallsShow(game)
      && obstacleCell == PongCell(Obstacle, null)
    }

    /** The ball leaves one cell for another. */
    method PassOn(fromX: int, fromY: int, x: int, y: int, ball: PongBall, ghost b: Ball)
      requires cells.Length0 == width && cells.Length1 == height && CellsShow(game)
      requires OnBoard(fromX, fromY) && OnBoard(x, y) && Cell(x, y).ball == null && b.At() == Pos(x, y)
      requires ball.id < |balls| && balls[ball.id] == ball && ball.id in game.balls
      requires forall p | p in game.at && game.at[p] == ball.id :: p == Pos(fromX, fromY)
      modifies cells
      ensures CellsShow(Step(game, ball.id, Pos(fromX, fromY), b))
    {
      cells[fromX, fromY] := cells[fromX, fromY].(ball := null);
      cells[x, y] := cells[x, y].(ball := ball);
    }

    /** Puts a new ball, which gets the next number, into a free cell. */
    method TakeBall(x: int, y: int, ball: PongBall, ghost b: Ball)
      requires Valid() && OnBoard(x, y) && Cell(x, y).ball == null && b.At() == Pos(x, y)
      requires ball.board == this && ball.id == |balls| && ball.State() == b
      modifies cells, this`balls
      ensures balls == old(balls) + [ball]
      ensures CellsShow(Place(game, |old(balls)|, b)) && BallsShow(Place(game, |old(balls)|, b))
    {
      cells[x, y] := cells[x, y].(ball := ball);
      balls := balls + [ball];
    }

    lemma CellShown(x: int, y: int)
      requires Valid()
      ensures Cell(x, y).kind == game.Kind(Pos(x, y))
      ensures OnBoard(x, y) <==> Pos(x, y) in game.kind
      ensures var b := Cell(x, y).ball;
              if b != null
              then b.Placed() && b.board == this && Pos(x, y) in game.at && game.at[Pos(x, y)] == b.id
              else OnBoard(x, y) ==> Pos(x, y) !in game.at
    {
    }

    lemma BallNumbers()
      requires Valid()
      ensures forall id: nat :: id in game.balls <==> id < |balls|
    {
    }

    lemma BallShown(i: nat)
      requires Valid() && i < |balls|
      ensures balls[i].Placed() && balls[i].board == this && balls[i].id == i
    {
    }

    /** A board of the given size with empty cells. */
    constructor (width: nat, height: nat)
      ensures Valid() && fresh(cells) && balls == [] && game == EmptyBoard(width, height)
      ensures this.width == width && this.height == height
    {
      this.width, this.height := width, height;
      cells := new PongCell[width, height]((_, _) => PongCell(Empty, null));
      obstacleCell := PongCell(Obstacle, null);
      balls := [];
      game := EmptyBoard(width, height);
    }
  }

  class PongBall {
    const board: Board
    ghost const id: nat
    var x: int
    var y: int
    var dx: int
    var dy: int

    function State(): Ball
      reads this
    {
      Ball(x, y, dx, dy)
    }

    /** A new ball in a free cell of the board. */
    constructor (board: Board, x: int, y: int, dx: int, dy: int)
      requires board.Valid() && board.OnBoard(x, y) && board.Cell(x, y).ball == null
      modifies board`balls, board`game, board.cells
      ensures board.Valid() && this.board == board
      ensures board.balls == old(board.balls) + [this] && id == |old(board.balls)|
      ensures board.game == Place(old(board.game), id, Ball(x, y, dx, dy))
    {
      this.board := board;
      this.id := |board.balls|;
      this.x, this.y, this.dx, this.dy := x, y, dx, dy;
      new;
      ghost var g := board.game;
      board.TakeBall(x, y, this, State());
      hide Board.CellsShow, Board.BallsShow;
      board.game := Place(g, id, State());
    }

    /** This ball is one of a board in order. */
    ghost predicate Placed()
      reads board, board.cells, board.balls
    {
      board.Valid() && id < |board.balls| && board.balls[id] == this
    }

    lemma Shown()
      requires Placed()
      ensures id in board.game.balls && board.game.balls[id] == State()
    {
    }

    /** Gives the ball a direction. */
    method Head(dx: int, dy: int)
      requires Placed()
      modifies this, board`game
      ensures Placed() && board.game == Put(old(board.game), id, State())
      ensures State() == old(State()).(dx := dx, dy := dy)
    {
      this.dx, this.dy := dx, dy;
      board.game := Put(board.game, id, State());
    }

    /** Gives the ball a place and a direction. */
    method SetState(x: int, y: int, dx: int, dy: int)
      requires id < |board.balls| && board.balls[id] == this && board.BallsShow(board.game)
      modifies this
      ensures State() == Ball(x, y, dx, dy)
      ensures board.BallsShow(Step(board.game, id, old(State().At()), State()))
    {
      this.x, this.y, this.dx, this.dy := x, y, dx, dy;
    }

    /** Leaves the current cell for the one at (x, y), which has no ball. */
    method StepTo(x: int, y: int, dx: int, dy: int)
      requires Placed() && board.OnBoard(this.x, this.y) && board.OnBoard(x, y) && board.Cell(x, y).ball == null
      requires forall p | p in board.game.at && board.game.at[p] == id :: p == State().At()
      modifies this, board`game, board.cells
      ensures Placed() && board.game == Step(old(board.game), id, old(State().At()), State())
      ensures State() == Ball(x, y, dx, dy)
    {
      hide Board.CellsShow, Board.BallsShow;
      Shown();
      ghost var g := Step(board.game, id, State().At(), Ball(x, y, dx, dy));
      board.PassOn(this.x, this.y, x, y, this, Ball(x, y, dx, dy));
      SetState(x, y, dx, dy);
      board.game := g;
    }

    /** Turns at the edges of the board. */
    method Bounce()
      requires Placed()
      modifies this, board`game
      ensures Placed() && State() == old(board.game.Bounced(State()))
      ensures board.game == Put(old(board.game), id, State())
    {
      hide Board.CellsShow, Board.BallsShow;
      ghost var g := board.game;
      Shown();
      board.CellShown(x + dx, y);
      board.CellShown(x, y + dy);
      if board.Cell(x + dx, y).kind == Obstacle {
        Head(-dx, dy);
      }
      if board.Cell(x, y + dy).kind == Obstacle {
        Head(dx, -dy);
      }
      assert board.game.balls == g.balls[id := State()];
    }

    /** Two balls meet: where their directions differ they exchange them. */
    method CollideWith(other: PongBall)
      requires Placed() && other.Placed() && other.board == board && other != this
      modifies this, other, board`game
      ensures Placed() && other.Placed()
      ensures board.game == Collided(old(board.game), id, other.id)
    {
      hide Board.CellsShow, Board.BallsShow;
      ghost var g := board.game;
      Shown();
      other.Shown();
      if other.dx != dx {
        other.Head(dx, other.dy);
        Head(-dx, dy);
      }
      if other.dy != dy {
        other.Head(other.dx, dy);
        Head(dx, -dy);
      }
      assert board.game.balls == Collided(g, id, other.id).balls;
    }

    /** One move of a ball, as on the game that its board shows. */
    method Move() returns (moved: bool)
      requires Placed() && Inv(board.game)
      modifies board.cells, board.balls, board`game
      ensures Placed() && board.balls == old(board.balls)
      ensures (board.game, moved) == PongGame.Move(old(board.game), id)
    {
      hide Board.CellsShow, Board.BallsShow;
      ghost var g := board.game;
      Shown();
      board.CellShown(x, y);
      MoveByCases(g, id);
      assert board.Cell(x, y).ball == this;

      if dx == 0 && dy == 0 {
        return false;
      }
      Bounce();
      board.CellShown(x + dx, y + dy);
      var next := board.Cell(x + dx, y + dy);
      if next.ball != null {
        CollideWith(next.ball);
        return false;
      } else if next.kind == Obstacle {
        Head(-dx, -dy);
        return false;
      } else {
        if next.kind == Sticky {
          StepTo(x + dx, y + dy, 0, 0);
        } else {
          StepTo(x + dx, y + dy, dx, dy);
        }
        return true;
      }
    }
  }

  /** Moves of balls of one board, one after the other, in any order: the run of the game that the
      board shows. */
  method MoveBalls(board: Board, sched: seq<nat>) returns (moved: seq<bool>)
    requires board.Valid() && Inv(board.game) && forall id | id in sched :: id < |board.balls|
    modifies board.cells, board.balls, board`game
    ensures board.Valid() && Inv(board.game) && board.balls == old(board.balls)
    ensures Scheduled(old(board.game), sched) && (board.game, moved) == Run(old(board.game), sched)
  {
    hide Board.CellsShow, Board.BallsShow, Inv, PongGame.Move;
    moved := [];
    ghost var g := board.game;
    board.BallNumbers();
    assert sched[..0] == [] && sched[..|sched|] == sched && Scheduled(g, sched);
    for i := 0 to |sched|
      invariant board.Valid() && board.balls == old(board.balls) && Inv(board.game)
      invariant Scheduled(g, sched[..i]) && (board.game, moved) == Run(g, sched[..i])
    {
      assert sched[..i + 1] == sched[..i] + [sched[i]] && sched[i] in sched;
      RunSnoc(g, sched[..i], sched[i]);
      MoveKeepsInv(board.game, sched[i]);
      board.BallShown(sched[i]);
      var ok := board.balls[sched[i]].Move();
      moved := moved + [ok];
    }
  }

  /** One thread moves every ball once: a run under the schedule 0, 1, 2, ... */
  method MoveAll(board: Board) returns (moved: seq<bool>)
    requires board.Valid() && Inv(board.game)
    modifies board.cells, board.balls, board`game
    ensures board.Valid() && Inv(board.game) && board.balls == old(board.balls)
    ensures Scheduled(old(board.game), Sequences.Numbers(|board.balls|))
    ensures (board.game, moved) == Run(old(board.game), Sequences.Numbers(|board.balls|))
  {
    moved := MoveBalls(board, Sequences.Numbers(|board.balls|));
  }
}
