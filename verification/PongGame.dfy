/** The pong board as a value: what one `move()` does, and what holds over every schedule of moves. */
module PongGame {

  datatype CellType = Empty | Sticky | Obstacle
  datatype Pos = Pos(x: int, y: int)
  datatype Ball = Ball(x: int, y: int, dx: int, dy: int)
  {
    function At(): Pos { Pos(x, y) }
  }

  /** `kind` has the on-board cells; `at` the cells with a ball in them, and which ball it is. */
  datatype Game = Game(kind: map<Pos, CellType>, at: map<Pos, nat>, balls: map<nat, Ball>)
  {
    /** Every position that is not on the board is an obstacle. */
    function Kind(p: Pos): CellType {
      if p in kind then kind[p] else Obstacle
    }

    /** Direction of ball `b` after the edges of the board have turned it. */
    function Bounced(b: Ball): Ball {
      b.(dx := if Kind(Pos(b.x + b.dx, b.y)) == Obstacle then -b.dx else b.dx,
         dy := if Kind(Pos(b.x, b.y + b.dy)) == Obstacle then -b.dy else b.dy)
    }
  }

  function Put(g: Game, id: nat, b: Ball): Game {
    g.(balls := g.balls[id := b])
  }

  function Step(g: Game, id: nat, from: Pos, b: Ball): Game {
    g.(at := (g.at - {from})[b.At() := id], balls := g.balls[id := b])
  }

  /** What a move is going to do: stay, turn itself and the ball it met, turn back, or go on. */
  datatype Effect = Stay | Collide(b: Ball, other: nat, o: Ball) | TurnBack(b: Ball) | Go(b: Ball)

  function Plan(g: Game, id: nat): Effect
    requires Inv(g) && id in g.balls
  {
    if g.balls[id].dx == 0 && g.balls[id].dy == 0 then Stay
    else
      var b := g.Bounced(g.balls[id]);
      var next := Pos(b.x + b.dx, b.y + b.dy);
      if next in g.at then
        var o := g.balls[g.at[next]];
        Collide(b.(dx := if o.dx != b.dx then -b.dx else b.dx, dy := if o.dy != b.dy then -b.dy else b.dy),
                g.at[next], o.(dx := b.dx, dy := b.dy))
      else if g.Kind(next) == Obstacle then TurnBack(b.(dx := -b.dx, dy := -b.dy))
      else if g.kind[next] == Sticky then Go(Ball(next.x, next.y, 0, 0))
      else Go(Ball(next.x, next.y, b.dx, b.dy))
  }

  function Apply(g: Game, id: nat, e: Effect): Game
    requires id in g.balls
  {
    match e
    case Stay => g
    case Collide(b, other, o) => Put(Put(g, id, b), other, o)
    case TurnBack(b) => Put(g, id, b)
    case Go(b) => Step(g, id, g.balls[id].At(), b)
  }

  /** `pong_ball::move`, with its result. */
  function Move(g: Game, id: nat): (r: (Game, bool))
    requires Inv(g) && id in g.balls
  {
    (Apply(g, id, Plan(g, id)), Plan(g, id).Go?)
  }

  // ---------------------------------------------------------------------
  // The representation invariant, over every run

  /** Balls and cells point at each other one to one, on the board only; a ball moves diagonally
      or rests, and it rests only on a sticky cell. */
  ghost predicate Inv(g: Game) {
    && (forall id | id in g.balls :: g.balls[id].At() in g.kind && g.balls[id].At() in g.at
                                     && g.at[g.balls[id].At()] == id)
    && (forall p | p in g.at :: g.at[p] in g.balls && g.balls[g.at[p]].At() == p)
    && (forall id | id in g.balls :: Heading(g.balls[id], g.kind))
  }

  ghost predicate Heading(b: Ball, kind: map<Pos, CellType>)
    requires b.At() in kind
  {
    && -1 <= b.dx <= 1 && -1 <= b.dy <= 1
    && (b.dx == 0 <==> b.dy == 0)
    && (b.dx == 0 ==> kind[b.At()] == Sticky)
  }

  ghost predicate OffObstacles(g: Game) {
    forall id | id in g.balls :: g.Kind(g.balls[id].At()) != Obstacle
  }

  /** Sum of the coordinates, modulo 2: the colour of the ball's checkerboard square. */
  function Colour(p: Pos): int { (p.x + p.y) % 2 }

  lemma PutKeepsInv(g: Game, id: nat, b: Ball)
    requires Inv(g) && id in g.balls && b.At() == g.balls[id].At() && Heading(b, g.kind)
    ensures Inv(Put(g, id, b))
  {
  }

  lemma StepKeepsInv(g: Game, id: nat, b: Ball)
    requires Inv(g) && id in g.balls && b.At() in g.kind && b.At() !in g.at && Heading(b, g.kind)
    ensures Inv(Step(g, id, g.balls[id].At(), b))
  {
    var g' := Step(g, id, g.balls[id].At(), b);
    forall i | i in g'.balls ensures g'.balls[i].At() in g'.at && g'.at[g'.balls[i].At()] == i {
      if i != id {
        assert g.at[g.balls[i].At()] == i;
      }
    }
  }

  /** The effect keeps to the diagonals of its ball's colour and to the board. */
  ghost predicate Proper(g: Game, id: nat, e: Effect)
    requires Inv(g) && id in g.balls
  {
    match e
    case Stay => true
    case Collide(b, other, o) =>
      && b.At() == g.balls[id].At() && Heading(b, g.kind)
      && other in g.balls && other != id && o.At() == g.balls[other].At() && Heading(o, g.kind)
      && Colour(o.At()) == Colour(b.At())
    case TurnBack(b) => b.At() == g.balls[id].At() && Heading(b, g.kind)
    case Go(b) =>
      && b.At() in g.kind && b.At() !in g.at && Heading(b, g.kind) && g.kind[b.At()] != Obstacle
      && Colour(b.At()) == Colour(g.balls[id].At())
  }

  lemma PlanIsProper(g: Game, id: nat)
    requires Inv(g) && id in g.balls
    ensures Proper(g, id, Plan(g, id))
  {
    if g.balls[id].dx != 0 {
      var b := g.Bounced(g.balls[id]);
      var next := Pos(b.x + b.dx, b.y + b.dy);
      assert (b.dx == 1 || b.dx == -1) && (b.dy == 1 || b.dy == -1);
      assert Colour(next) == Colour(b.At()) && next != b.At();
    }
  }

  lemma MoveKeepsInv(g: Game, id: nat)
    requires Inv(g) && id in g.balls
    ensures var g' := Move(g, id).0;
            && Inv(g') && g'.balls.Keys == g.balls.Keys && g'.kind == g.kind
            && (OffObstacles(g) ==> OffObstacles(g'))
            && (forall i | i in g.balls :: Colour(g'.balls[i].At()) == Colour(g.balls[i].At()))
  {
    PlanIsProper(g, id);
    match Plan(g, id)
    case Stay =>
    case Collide(b, other, o) =>
      PutKeepsInv(g, id, b);
      PutKeepsInv(Put(g, id, b), other, o);
    case TurnBack(b) => PutKeepsInv(g, id, b);
    case Go(b) => StepKeepsInv(g, id, b);
  }

  ghost predicate Scheduled(g: Game, sched: seq<nat>) { forall id | id in sched :: id in g.balls }

  /** A run under a schedule, with the results of its moves. */
  ghost function Run(g: Game, sched: seq<nat>): (r: (Game, seq<bool>))
    requires Inv(g) && Scheduled(g, sched)
    ensures |r.1| == |sched|
    decreases |sched|
  {
    if sched == [] then (g, [])
    else
      MoveKeepsInv(g, sched[0]);
      var (g1, ok) := Move(g, sched[0]);
      var (end, oks) := Run(g1, sched[1..]);
      (end, [ok] + oks)
  }

  /** Over every run no ball is lost or leaves its colour, and the invariant holds at the end. */
  lemma {:induction false} RunKeepsInv(g: Game, sched: seq<nat>)
    requires Inv(g) && Scheduled(g, sched)
    ensures var end := Run(g, sched).0;
            && Inv(end) && end.balls.Keys == g.balls.Keys && end.kind == g.kind
            && (OffObstacles(g) ==> OffObstacles(end))
            && (forall i | i in g.balls :: Colour(end.balls[i].At()) == Colour(g.balls[i].At()))
    decreases |sched|
  {
    if sched != [] {
      MoveKeepsInv(g, sched[0]);
      RunKeepsInv(Move(g, sched[0]).0, sched[1..]);
    }
  }

  lemma RunCons(g: Game, id: nat, rest: seq<nat>)
    requires Inv(g) && id in g.balls && Scheduled(g, rest)
    ensures var (g1, ok) := Move(g, id);
            && Inv(g1) && Scheduled(g1, rest) && g1.balls.Keys == g.balls.Keys && Scheduled(g, [id] + rest)
            && Run(g, [id] + rest) == (Run(g1, rest).0, [ok] + Run(g1, rest).1)
  {
    MoveKeepsInv(g, id);
    assert ([id] + rest)[1..] == rest;
  }

  lemma {:induction false} RunSnoc(g: Game, sched: seq<nat>, id: nat)
    requires Inv(g) && Scheduled(g, sched) && id in g.balls
    ensures Scheduled(g, sched + [id])
    ensures var (end, oks) := Run(g, sched);
            && Inv(end) && id in end.balls
            && Run(g, sched + [id]) == (Move(end, id).0, oks + [Move(end, id).1])
    decreases |sched|
  {
    hide Inv, Move;
    RunKeepsInv(g, sched);
    var (end, oks) := Run(g, sched);
    MoveKeepsInv(end, id);
    if sched == [] {
      assert sched + [id] == [id] + sched;
      RunCons(g, id, sched);
      assert [Move(g, id).1] + [] == oks + [Move(end, id).1];
    } else {
      var rest := sched[1..];
      assert sched + [id] == [sched[0]] + (rest + [id]) && sched == [sched[0]] + rest;
      RunCons(g, sched[0], rest);
      var (g1, ok) := Move(g, sched[0]);
      RunSnoc(g1, rest, id);
      RunCons(g, sched[0], rest + [id]);
      assert [ok] + (Run(g1, rest).1 + [Move(end, id).1]) == oks + [Move(end, id).1];
    }
  }

  // ---------------------------------------------------------------------
  // Non-interference of the two colours

  /** The game with only the balls of colour `c`. */
  function Only(g: Game, c: int): Game {
    Game(g.kind,
         map p | p in g.at && Colour(p) == c :: g.at[p],
         map id | id in g.balls && Colour(g.balls[id].At()) == c :: g.balls[id])
  }

  lemma OnlyKeepsInv(g: Game, c: int)
    requires Inv(g)
    ensures Inv(Only(g, c))
  {
  }

  lemma PutOnly(g: Game, id: nat, b: Ball, c: int)
    requires Inv(g) && id in g.balls && b.At() == g.balls[id].At()
    ensures Only(Put(g, id, b), c) == if Colour(b.At()) == c then Put(Only(g, c), id, b) else Only(g, c)
  {
    assert Only(Put(g, id, b), c).balls ==
           if Colour(b.At()) == c then Only(g, c).balls[id := b] else Only(g, c).balls;
  }

  lemma StepOnly(g: Game, id: nat, b: Ball, c: int)
    requires Inv(g) && id in g.balls && b.At() !in g.at && Colour(b.At()) == Colour(g.balls[id].At())
    ensures var from := g.balls[id].At();
            Only(Step(g, id, from, b), c) == if Colour(from) == c then Step(Only(g, c), id, from, b) else Only(g, c)
  {
    var from := g.balls[id].At();
    var o, o' := Only(g, c), Only(Step(g, id, from, b), c);
    if Colour(from) == c {
      assert o'.at == (o.at - {from})[b.At() := id];
      assert o'.balls == o.balls[id := b];
    } else {
      assert o'.at == o.at;
      assert o'.balls == o.balls;
    }
  }

  lemma PlanOnly(g: Game, id: nat, c: int)
    requires Inv(g) && id in g.balls && Colour(g.balls[id].At()) == c
    ensures Inv(Only(g, c)) && Plan(Only(g, c), id) == Plan(g, id)
  {
    OnlyKeepsInv(g, c);
    if g.balls[id].dx != 0 {
      var b := g.Bounced(g.balls[id]);
      var next := Pos(b.x + b.dx, b.y + b.dy);
      assert (b.dx == 1 || b.dx == -1) && (b.dy == 1 || b.dy == -1);
      assert Colour(next) == c;
      assert Only(g, c).Bounced(Only(g, c).balls[id]) == b;
      assert next in Only(g, c).at <==> next in g.at;
    }
  }

  /** What a move does to the balls of one colour: nothing, or the same move. */
  lemma MoveOnly(g: Game, id: nat, c: int)
    requires Inv(g) && id in g.balls
    ensures Inv(Only(g, c))
    ensures if Colour(g.balls[id].At()) == c
            then Move(Only(g, c), id) == (Only(Move(g, id).0, c), Move(g, id).1)
            else Only(Move(g, id).0, c) == Only(g, c)
  {
    OnlyKeepsInv(g, c);
    PlanIsProper(g, id);
    if Colour(g.balls[id].At()) == c {
      PlanOnly(g, id, c);
    }
    match Plan(g, id)
    case Stay =>
    case Collide(b, other, o) =>
      PutOnly(g, id, b, c);
      PutKeepsInv(g, id, b);
      PutOnly(Put(g, id, b), other, o, c);
    case TurnBack(b) => PutOnly(g, id, b, c);
    case Go(b) => StepOnly(g, id, b, c);
  }

  /** The moves of a schedule that belong to balls in `keep`. */
  function Moves(sched: seq<nat>, keep: set<nat>): seq<nat> {
    if sched == [] then []
    else if sched[0] in keep then [sched[0]] + Moves(sched[1..], keep)
    else Moves(sched[1..], keep)
  }

  function Results(sched: seq<nat>, oks: seq<bool>, keep: set<nat>): seq<bool>
    requires |sched| == |oks|
  {
    if sched == [] then []
    else if sched[0] in keep then [oks[0]] + Results(sched[1..], oks[1..], keep)
    else Results(sched[1..], oks[1..], keep)
  }

  lemma {:induction false} MovesScheduled(g: Game, sched: seq<nat>)
    ensures Scheduled(g, Moves(sched, g.balls.Keys))
    decreases |sched|
  {
    if sched != [] {
      MovesScheduled(g, sched[1..]);
    }
  }

  lemma OnlyKeys(g: Game, h: Game, c: int)
    requires h.balls.Keys == g.balls.Keys
    requires forall i | i in g.balls :: Colour(h.balls[i].At()) == Colour(g.balls[i].At())
    ensures Only(h, c).balls.Keys == Only(g, c).balls.Keys
  {
  }

  /** Under any schedule the balls of one colour move, and succeed or fail to move, as they would
      if the balls of the other colour and their moves were deleted. */
  lemma {:induction false} ColoursDoNotInterfere(g: Game, sched: seq<nat>, c: int)
    requires Inv(g) && Scheduled(g, sched)
    ensures var o := Only(g, c);
            && Inv(o) && Scheduled(o, Moves(sched, o.balls.Keys))
            && Run(o, Moves(sched, o.balls.Keys)) ==
               (Only(Run(g, sched).0, c), Results(sched, Run(g, sched).1, o.balls.Keys))
    decreases |sched|
  {
    var o := Only(g, c);
    OnlyKeepsInv(g, c);
    MovesScheduled(o, sched);
    if sched != [] {
      var id, rest := sched[0], sched[1..];
      assert sched == [id] + rest;
      RunCons(g, id, rest);
      MoveKeepsInv(g, id);
      OnlyKeys(g, Move(g, id).0, c);
      ColoursDoNotInterfere(Move(g, id).0, rest, c);
      MoveOnly(g, id, c);
      var oks := Run(Move(g, id).0, rest).1;
      assert Run(g, sched).1[1..] == oks;
      if id in o.balls {
        RunCons(o, id, Moves(rest, o.balls.Keys));
      }
    }
  }

  // ---------------------------------------------------------------------
  // Setting up a board

  /** The constructor of `pong_ball`. */
  function Place(g: Game, id: nat, b: Ball): Game {
    Game(g.kind, g.at[b.At() := id], g.balls[id := b])
  }

  function Positions(width: nat, height: nat): (ps: set<Pos>)
    ensures forall p :: p in ps <==> 0 <= p.x < width && 0 <= p.y < height
  {
    set x, y | 0 <= x < width && 0 <= y < height :: Pos(x, y)
  }

  function EmptyBoard(width: nat, height: nat): Game {
    Game(map p | p in Positions(width, height) :: Empty, map[], map[])
  }

  /** A new ball in a free on-board cell, with a diagonal direction, is in order. */
  lemma PlaceKeepsInv(g: Game, id: nat, b: Ball)
    requires Inv(g) && id !in g.balls && b.At() in g.kind && b.At() !in g.at
    requires (b.dx == 1 || b.dx == -1) && (b.dy == 1 || b.dy == -1)
    ensures Inv(Place(g, id, b))
  {
    var g' := Place(g, id, b);
    forall i | i in g'.balls ensures g'.balls[i].At() in g'.at && g'.at[g'.balls[i].At()] == i {
      if i != id {
        assert g.at[g.balls[i].At()] == i;
      }
    }
  }

  // ---------------------------------------------------------------------
  // A move on a board of a given size

  /** Nothing can enter (x, y): it is off the board, or an obstacle. */
  predicate Blocked(g: Game, width: nat, height: nat, x: int, y: int)
    requires g.kind.Keys == Positions(width, height)
  {
    x < 0 || x >= width || y < 0 || y >= height || g.kind[Pos(x, y)] == Obstacle
  }

  /** A ball's turned direction: each component is reversed exactly if the cell beside the ball in that
      direction is blocked. */
  ghost predicate TurnsTo(g: Game, width: nat, height: nat, b: Ball, dx: int, dy: int)
    requires g.kind.Keys == Positions(width, height)
  {
    && (if Blocked(g, width, height, b.x + b.dx, b.y) then dx == -b.dx else dx == b.dx)
    && (if Blocked(g, width, height, b.x, b.y + b.dy) then dy == -b.dy else dy == b.dy)
  }

  /** Game `r` differs from `g` in the ball `id` alone, which stands or goes as `b` says. */
  ghost predicate OnlyBall(g: Game, r: Game, id: nat, b: Ball) {
    && r.kind == g.kind && r.balls.Keys == g.balls.Keys && id in g.balls && r.balls[id] == b
    && forall i | i in g.balls && i != id :: r.balls[i] == g.balls[i]
  }

  /** A ball at rest stays. A moving ball first turns away from blocked cells beside it. If a ball is
      in its way nobody moves, and that ball gets its direction: if it was moving the two have
      exchanged directions, and if it rested the ball that came goes back. If the way is blocked the
      ball goes back. Otherwise it moves on, and comes to rest exactly if the cell is sticky. */
  lemma MoveOnBoard(g: Game, width: nat, height: nat, id: nat, dx: int, dy: int)
    requires Inv(g) && id in g.balls && g.kind.Keys == Positions(width, height)
    requires TurnsTo(g, width, height, g.balls[id], dx, dy)
    ensures var (r, moved) := Move(g, id);
            var b := g.balls[id];
            var next := Pos(b.x + dx, b.y + dy);
            if b.dx == 0 then r == g && !moved
            else if next in g.at then
              var o := g.at[next];
              var met := g.balls[o];
              && !moved && o != id && r.kind == g.kind && r.at == g.at && r.balls.Keys == g.balls.Keys
              && r.balls[o] == Ball(next.x, next.y, dx, dy)
              && r.balls[id] == (if met.dx == 0 then Ball(b.x, b.y, -dx, -dy) else Ball(b.x, b.y, met.dx, met.dy))
              && forall i | i in g.balls && i != id && i != o :: r.balls[i] == g.balls[i]
            else if Blocked(g, width, height, next.x, next.y) then
              !moved && r.at == g.at && OnlyBall(g, r, id, Ball(b.x, b.y, -dx, -dy))
            else
              && moved && r.at.Keys == g.at.Keys - {Pos(b.x, b.y)} + {next}
              && (forall p | p in r.at :: r.at[p] == if p == next then id else g.at[p])
              && OnlyBall(g, r, id, if g.kind[next] == Sticky then Ball(next.x, next.y, 0, 0)
                                    else Ball(next.x, next.y, dx, dy))
  {
    hide Inv, Heading, Plan, Positions;
    var b := g.balls[id];
    if b.dx == 0 {
      Resting(g, id);
    } else {
      BouncedTurns(g, width, height, id, dx, dy);
      PlanTurned(g, width, height, id, dx, dy);
      hide TurnsTo, Game.Bounced;
      if Pos(b.x + dx, b.y + dy) in g.at {
        hide Blocked, CollisionOf, Apply;
        Meeting(g, id, dx, dy);
      }
    }
  }

  lemma Resting(g: Game, id: nat)
    requires Inv(g) && id in g.balls && g.balls[id].dx == 0
    ensures Move(g, id) == (g, false)
  {
  }

  lemma BouncedTurns(g: Game, width: nat, height: nat, id: nat, dx: int, dy: int)
    requires Inv(g) && id in g.balls && g.kind.Keys == Positions(width, height) && g.balls[id].dx != 0
    requires TurnsTo(g, width, height, g.balls[id], dx, dy)
    ensures g.Bounced(g.balls[id]) == Ball(g.balls[id].x, g.balls[id].y, dx, dy)
    ensures Pos(g.balls[id].x, g.balls[id].y) in g.at && (dx == 1 || dx == -1) && (dy == 1 || dy == -1)
  {
    hide Positions;
    assert g.balls[id].At() in g.at;
  }

  lemma MetBall(g: Game, id: nat, next: Pos)
    requires Inv(g) && id in g.balls && next in g.at && next != g.balls[id].At()
    ensures var o := g.at[next];
            && o in g.balls && o != id && g.balls[o].At() == next
            && -1 <= g.balls[o].dx <= 1 && -1 <= g.balls[o].dy <= 1 && (g.balls[o].dx == 0 <==> g.balls[o].dy == 0)
  {
    assert Heading(g.balls[g.at[next]], g.kind);
  }

  /** The plan of a moving ball, when its turned direction is known. */
  lemma PlanTurned(g: Game, width: nat, height: nat, id: nat, dx: int, dy: int)
    requires Inv(g) && id in g.balls && g.kind.Keys == Positions(width, height) && g.balls[id].dx != 0
    requires TurnsTo(g, width, height, g.balls[id], dx, dy)
    ensures var b := g.balls[id];
            var next := Pos(b.x + dx, b.y + dy);
            Plan(g, id) ==
               if next in g.at then CollisionOf(g, id, dx, dy)
               else if Blocked(g, width, height, next.x, next.y) then TurnBack(Ball(b.x, b.y, -dx, -dy))
               else if g.kind[next] == Sticky then Go(Ball(next.x, next.y, 0, 0))
               else Go(Ball(next.x, next.y, dx, dy))
  {
    BouncedTurns(g, width, height, id, dx, dy);
    var next := Pos(g.balls[id].x + dx, g.balls[id].y + dy);
    assert g.Kind(next) == Obstacle <==> Blocked(g, width, height, next.x, next.y);
    if next in g.at {
      MetBall(g, id, next);
    }
    hide Inv, Heading, TurnsTo, Blocked, Positions, Game.Bounced, Game.Kind;
  }

  /** The effect of meeting a ball on the way. */
  ghost function CollisionOf(g: Game, id: nat, dx: int, dy: int): Effect
    requires id in g.balls
  {
    var b := g.balls[id];
    var next := Pos(b.x + dx, b.y + dy);
    if next in g.at && g.at[next] in g.balls then
      var o := g.balls[g.at[next]];
      Collide(Ball(b.x, b.y, if o.dx != dx then -dx else dx, if o.dy != dy then -dy else dy),
              g.at[next], o.(dx := dx, dy := dy))
    else Stay
  }

  lemma Meeting(g: Game, id: nat, dx: int, dy: int)
    requires Inv(g) && id in g.balls && (dx == 1 || dx == -1) && (dy == 1 || dy == -1)
    requires Pos(g.balls[id].x + dx, g.balls[id].y + dy) in g.at
    ensures var r, b, next := Apply(g, id, CollisionOf(g, id, dx, dy)), g.balls[id],
                              Pos(g.balls[id].x + dx, g.balls[id].y + dy);
            var o := g.at[next];
            && o in g.balls && o != id && r.kind == g.kind && r.at == g.at && r.balls.Keys == g.balls.Keys
            && r.balls[o] == Ball(next.x, next.y, dx, dy)
            && r.balls[id] == (if g.balls[o].dx == 0 then Ball(b.x, b.y, -dx, -dy)
                                 else Ball(b.x, b.y, g.balls[o].dx, g.balls[o].dy))
            && forall i | i in g.balls && i != id && i != o :: r.balls[i] == g.balls[i]
  {
    MetBall(g, id, Pos(g.balls[id].x + dx, g.balls[id].y + dy));
    hide Inv;
  }

  /** A board of this size on which only sticky cells are marked. */
  ghost predicate Plain(kind: map<Pos, CellType>, width: nat, height: nat) {
    width >= 2 && height >= 2 && kind.Keys == Positions(width, height) && forall p | p in kind :: kind[p] != Obstacle
  }

  /** A direction after the edges at 0 and `m` have turned it. */
  function Turned(m: int, x: int, d: int): int {
    if 0 <= x + d <= m then d else -d
  }

  /** On such a board a ball turns at the edges only, and never goes back but from another ball. */
  lemma MoveOnPlainBoard(g: Game, width: nat, height: nat, id: nat)
    requires Inv(g) && id in g.balls && Plain(g.kind, width, height)
    ensures var b := g.balls[id];
            var dx, dy := Turned(width - 1, b.x, b.dx), Turned(height - 1, b.y, b.dy);
            && TurnsTo(g, width, height, b, dx, dy) && !Blocked(g, width, height, b.x + dx, b.y + dy)
            && (Move(g, id).1 <==> b.dx != 0 && Pos(b.x + dx, b.y + dy) !in g.at)
  {
    assert g.balls[id].At() in g.kind && Heading(g.balls[id], g.kind);
    TurnsAtEdges(g, width, height, g.balls[id]);
    hide Inv, Heading, Apply, Plan, TurnsTo, Blocked, CollisionOf, Positions, Plain, Turned;
    var b := g.balls[id];
    if b.dx == 0 {
      Resting(g, id);
    } else {
      PlanTurned(g, width, height, id, Turned(width - 1, b.x, b.dx), Turned(height - 1, b.y, b.dy));
    }
  }

  lemma TurnsAtEdges(g: Game, width: nat, height: nat, b: Ball)
    requires Plain(g.kind, width, height) && b.At() in g.kind && -1 <= b.dx <= 1 && -1 <= b.dy <= 1
    ensures var dx, dy := Turned(width - 1, b.x, b.dx), Turned(height - 1, b.y, b.dy);
            TurnsTo(g, width, height, b, dx, dy) && !Blocked(g, width, height, b.x + dx, b.y + dy)
  {
  }
}
