/** One ball alone on a board without obstacles, in closed form up to the first sticky cell. */
module PongSolo {
  import Arithmetic
  import opened PongGame

  /** One ball on a board with these cells. */
  function Solo(kind: map<Pos, CellType>, b: Ball): Game {
    Place(Game(kind, map[], map[]), 0, b)
  }

  ghost predicate Playable(width: nat, height: nat, b: Ball) {
    && width >= 2 && height >= 2 && 0 <= b.x < width && 0 <= b.y < height
    && (b.dx == 1 || b.dx == -1) && (b.dy == 1 || b.dy == -1)
  }

  function SoloStep(width: nat, height: nat, b: Ball): (r: Ball)
    requires Playable(width, height, b)
    ensures Playable(width, height, r)
  {
    var dx, dy := Turned(width - 1, b.x, b.dx), Turned(height - 1, b.y, b.dy);
    Ball(b.x + dx, b.y + dy, dx, dy)
  }

  /** A ball that comes to a sticky cell rests there. */
  function Landed(kind: map<Pos, CellType>, b: Ball): Ball {
    if b.At() in kind && kind[b.At()] == Sticky then Ball(b.x, b.y, 0, 0) else b
  }

  lemma SoloInv(kind: map<Pos, CellType>, width: nat, height: nat, b: Ball)
    requires Plain(kind, width, height) && Playable(width, height, b)
    ensures Inv(Solo(kind, b)) && Inv(Solo(kind, Landed(kind, b)))
  {
    PlaceKeepsInv(Game(kind, map[], map[]), 0, b);
  }

  lemma SoloMove(kind: map<Pos, CellType>, width: nat, height: nat, b: Ball)
    requires Plain(kind, width, height) && Playable(width, height, b)
    ensures Inv(Solo(kind, b))
    ensures Move(Solo(kind, b), 0) == (Solo(kind, Landed(kind, SoloStep(width, height, b))), true)
  {
    var g, b' := Solo(kind, b), SoloStep(width, height, b);
    SoloInv(kind, width, height, b);
    SoloGoes(kind, width, height, b);
    hide Plan, SoloStep;
    assert (g.at - {b.At()})[b'.At() := 0] == map[b'.At() := 0];
    assert g.balls[0 := Landed(kind, b')] == map[0 := Landed(kind, b')];
  }

  lemma SoloGoes(kind: map<Pos, CellType>, width: nat, height: nat, b: Ball)
    requires Plain(kind, width, height) && Playable(width, height, b)
    ensures Plan(Solo(kind, b), 0) == Go(Landed(kind, SoloStep(width, height, b)))
    ensures SoloStep(width, height, b).At() in kind
  {
    var g, b' := Solo(kind, b), SoloStep(width, height, b);
    assert g.Bounced(b) == Ball(b.x, b.y, b'.dx, b'.dy);
    assert b'.At() in g.kind && b'.At() != b.At();
  }

  // ---------------------------------------------------------------------
  // The triangle wave

  /** A triangle wave between 0 and `m` with period `2 * m`. */
  function Fold(m: nat, phase: nat): nat
    requires m > 0
  {
    var q := phase % (2 * m);
    if q <= m then q else 2 * m - q
  }

  /** Where on the wave a coordinate with this direction is. */
  function Phase(m: nat, x: int, d: int): nat
    requires 0 <= x <= m
  {
    if d == 1 then x else 2 * m - x
  }

  lemma WavePeriod(m: nat, phase: nat, k: nat)
    requires m > 0
    ensures Fold(m, k * (2 * m) + phase) == Fold(m, phase)
  {
    Arithmetic.AddMultiple(k, 2 * m, phase);
  }

  lemma WaveStart(m: nat, x: int, d: int)
    requires m > 0 && 0 <= x <= m && (d == 1 || d == -1)
    ensures Fold(m, Phase(m, x, d)) == x
  {
    if d == -1 && x == 0 {
      Arithmetic.DivUnique(1, 0, 2 * m);
    } else {
      Arithmetic.DivUnique(0, Phase(m, x, d), 2 * m);
    }
  }

  /** One step of one coordinate moves its phase on by one. */
  lemma WaveStep(m: nat, x: int, d: int, n: nat)
    requires m > 0 && 0 <= x <= m && (d == 1 || d == -1)
    ensures var d' := Turned(m, x, d);
            0 <= x + d' <= m && Fold(m, Phase(m, x + d', d') + n) == Fold(m, Phase(m, x, d) + 1 + n)
  {
    if d == -1 && x == 0 {
      WavePeriod(m, 1 + n, 1);
    }
  }

  // ---------------------------------------------------------------------
  // The run

  function Forever(n: nat): seq<nat> { seq(n, _ => 0) }

  function SoloAfter(width: nat, height: nat, b: Ball, n: nat): (r: Ball)
    requires Playable(width, height, b)
    ensures Playable(width, height, r)
    decreases n
  {
    if n == 0 then b else SoloAfter(width, height, SoloStep(width, height, b), n - 1)
  }

  function All(ok: bool, n: nat): seq<bool> { seq(n, _ => ok) }

  lemma ForeverStep(n: nat)
    requires n > 0
    ensures Forever(n) == [0] + Forever(n - 1) && Forever(0) == []
    ensures forall ok :: All(ok, n) == [ok] + All(ok, n - 1) && All(ok, 0) == []
  {
  }

  lemma SoloRunStep(kind: map<Pos, CellType>, width: nat, height: nat, b: Ball, n: nat)
    requires Plain(kind, width, height) && Playable(width, height, b) && n > 0
    ensures var g, g1 := Solo(kind, b), Solo(kind, Landed(kind, SoloStep(width, height, b)));
            && Inv(g) && Scheduled(g, Forever(n)) && Inv(g1) && Scheduled(g1, Forever(n - 1))
            && Run(g, Forever(n)) == (Run(g1, Forever(n - 1)).0, [true] + Run(g1, Forever(n - 1)).1)
  {
    SoloInv(kind, width, height, b);
    SoloMove(kind, width, height, b);
    ForeverStep(n);
    RunCons(Solo(kind, b), 0, Forever(n - 1));
  }

  lemma {:induction false} RestRun(kind: map<Pos, CellType>, b: Ball, n: nat)
    requires Inv(Solo(kind, b)) && b.dx == 0 && b.dy == 0
    ensures Scheduled(Solo(kind, b), Forever(n)) && Run(Solo(kind, b), Forever(n)) == (Solo(kind, b), All(false, n))
    decreases n
  {
    if n == 0 {
      assert Forever(0) == [] && All(false, 0) == [];
    } else {
      RestRun(kind, b, n - 1);
      ForeverStep(n);
      RunCons(Solo(kind, b), 0, Forever(n - 1));
    }
  }

  /** The ball does not come to a sticky cell in `n` moves. */
  ghost predicate Free(kind: map<Pos, CellType>, width: nat, height: nat, b: Ball, n: nat)
    requires Plain(kind, width, height) && Playable(width, height, b)
  {
    forall k | 1 <= k <= n :: kind[SoloAfter(width, height, b, k).At()] == Empty
  }

  lemma FreeStep(kind: map<Pos, CellType>, width: nat, height: nat, b: Ball, n: nat)
    requires Plain(kind, width, height) && Playable(width, height, b) && n > 0 && Free(kind, width, height, b, n)
    ensures var s := SoloStep(width, height, b); Landed(kind, s) == s && Free(kind, width, height, s, n - 1)
  {
    var s := SoloStep(width, height, b);
    assert SoloAfter(width, height, b, 1) == s;
    assert forall k: nat :: SoloAfter(width, height, b, k + 1) == SoloAfter(width, height, s, k);
  }

  /** On a board without obstacles a single ball's moves succeed as long as it comes to no sticky cell. */
  lemma {:induction false} SoloRun(kind: map<Pos, CellType>, width: nat, height: nat, b: Ball, n: nat)
    requires Plain(kind, width, height) && Playable(width, height, b) && Free(kind, width, height, b, n)
    ensures var g := Solo(kind, b);
            && Inv(g) && Scheduled(g, Forever(n))
            && Run(g, Forever(n)) == (Solo(kind, SoloAfter(width, height, b, n)), All(true, n))
    decreases n
  {
    hide Plain, Free, Landed, SoloStep;
    if n == 0 {
      SoloInv(kind, width, height, b);
      assert Forever(0) == [] && All(true, 0) == [];
    } else {
      FreeStep(kind, width, height, b, n);
      SoloRun(kind, width, height, SoloStep(width, height, b), n - 1);
      ForeverStep(n);
      SoloRunStep(kind, width, height, b, n);
    }
  }

  /** At the first sticky cell that it comes to, with move `k`, it stays for good. */
  lemma {:induction false} SoloSticks(kind: map<Pos, CellType>, width: nat, height: nat, b: Ball, k: nat, n: nat)
    requires Plain(kind, width, height) && Playable(width, height, b) && 1 <= k <= n
    requires Free(kind, width, height, b, k - 1) && kind[SoloAfter(width, height, b, k).At()] == Sticky
    ensures var g, r := Solo(kind, b), SoloAfter(width, height, b, k);
            && Inv(g) && Scheduled(g, Forever(n))
            && Run(g, Forever(n)) == (Solo(kind, Ball(r.x, r.y, 0, 0)), All(true, k) + All(false, n - k))
    decreases k
  {
    hide Solo, SoloStep, SoloAfter, Run, Inv, Scheduled, All, Plain, Playable, Forever, Landed, Free;
    var s := SoloStep(width, height, b);
    AfterStep(width, height, b, k);
    SoloRunStep(kind, width, height, b, n);
    AllSplit(k, n);
    if k == 1 {
      LandsOn(kind, width, height, s);
      RestRun(kind, Landed(kind, s), n - 1);
    } else {
      FreeStep(kind, width, height, b, k - 1);
      SoloSticks(kind, width, height, s, k - 1, n - 1);
    }
  }

  lemma LandsOn(kind: map<Pos, CellType>, width: nat, height: nat, s: Ball)
    requires Plain(kind, width, height) && Playable(width, height, s) && kind[s.At()] == Sticky
    ensures Landed(kind, s) == Ball(s.x, s.y, 0, 0) && Inv(Solo(kind, Landed(kind, s)))
  {
    SoloInv(kind, width, height, s);
  }

  lemma AfterStep(width: nat, height: nat, b: Ball, k: nat)
    requires Playable(width, height, b) && k >= 1
    ensures SoloAfter(width, height, b, k) == SoloAfter(width, height, SoloStep(width, height, b), k - 1)
    ensures SoloAfter(width, height, SoloStep(width, height, b), 0) == SoloStep(width, height, b)
  {
  }

  lemma AllSplit(k: nat, n: nat)
    requires 1 <= k <= n
    ensures All(true, k) + All(false, n - k) == [true] + (All(true, k - 1) + All(false, n - k))
    ensures All(true, 0) + All(false, n - 1) == All(false, n - 1)
  {
  }

  /** One move moves both phases on by one. */
  lemma StepPhases(width: nat, height: nat, b: Ball, n: nat)
    requires Playable(width, height, b) && n > 0
    ensures var r := SoloStep(width, height, b);
            && Fold(width - 1, Phase(width - 1, r.x, r.dx) + (n - 1))
               == Fold(width - 1, Phase(width - 1, b.x, b.dx) + n)
            && Fold(height - 1, Phase(height - 1, r.y, r.dy) + (n - 1))
               == Fold(height - 1, Phase(height - 1, b.y, b.dy) + n)
  {
    hide Fold, Phase;
    WaveStep(width - 1, b.x, b.dx, n - 1);
    WaveStep(height - 1, b.y, b.dy, n - 1);
  }

  /** After `n` moves each coordinate is the triangle wave at its phase plus `n`. */
  lemma {:induction false} SoloClosedForm(width: nat, height: nat, b: Ball, n: nat)
    requires Playable(width, height, b)
    ensures var r := SoloAfter(width, height, b, n);
            && r.x == Fold(width - 1, Phase(width - 1, b.x, b.dx) + n)
            && r.y == Fold(height - 1, Phase(height - 1, b.y, b.dy) + n)
    decreases n
  {
    hide Fold, Phase, SoloStep;
    if n == 0 {
      WaveStart(width - 1, b.x, b.dx);
      WaveStart(height - 1, b.y, b.dy);
    } else {
      StepPhases(width, height, b, n);
      SoloClosedForm(width, height, SoloStep(width, height, b), n - 1);
    }
  }

  /** A whole number of waves in both directions. */
  function Period(width: nat, height: nat): (p: nat)
    requires width >= 2 && height >= 2
    ensures p > 0
  {
    Reorder(width - 1, height - 1);
    2 * (width - 1) * (height - 1)
  }

  lemma PositionsRepeat(width: nat, height: nat, b: Ball, n: nat)
    requires Playable(width, height, b)
    ensures SoloAfter(width, height, b, n + Period(width, height)).At() == SoloAfter(width, height, b, n).At()
  {
    hide SoloAfter;
    var w, h := width - 1, height - 1;
    Reorder(w, h);
    SoloClosedForm(width, height, b, n);
    SoloClosedForm(width, height, b, n + 2 * w * h);
    WavePeriod(w, Phase(w, b.x, b.dx) + n, h);
    WavePeriod(h, Phase(h, b.y, b.dy) + n, w);
  }

  /** The last of `n + 1` moves. */
  lemma {:induction false} LastMove(width: nat, height: nat, b: Ball, n: nat)
    requires Playable(width, height, b)
    ensures SoloAfter(width, height, b, n + 1) == SoloStep(width, height, SoloAfter(width, height, b, n))
    decreases n
  {
    if n > 0 {
      LastMove(width, height, SoloStep(width, height, b), n - 1);
    }
  }

  /** A step is known from where it starts and where it ends. */
  lemma StepOfPlaces(width: nat, height: nat, b: Ball, c: Ball)
    requires Playable(width, height, b) && Playable(width, height, c) && b.At() == c.At()
    requires SoloStep(width, height, b).At() == SoloStep(width, height, c).At()
    ensures SoloStep(width, height, b) == SoloStep(width, height, c)
  {
  }

  /** The ball may have come to where it is by a move in its direction. */
  predicate Arrived(width: nat, height: nat, b: Ball) {
    0 <= b.x - b.dx < width && 0 <= b.y - b.dy < height
  }

  lemma StepArrives(width: nat, height: nat, b: Ball)
    requires Playable(width, height, b)
    ensures Arrived(width, height, SoloStep(width, height, b))
  {
  }

  lemma MovesRepeat(width: nat, height: nat, b: Ball, n: nat)
    requires Playable(width, height, b)
    ensures SoloAfter(width, height, b, n + 1 + Period(width, height)) == SoloAfter(width, height, b, n + 1)
  {
    hide SoloAfter, SoloStep, Period;
    var p := Period(width, height);
    PositionsRepeat(width, height, b, n);
    PositionsRepeat(width, height, b, n + 1);
    LastMove(width, height, b, n);
    LastMove(width, height, b, n + p);
    StepOfPlaces(width, height, SoloAfter(width, height, b, n + p), SoloAfter(width, height, b, n));
  }

  /** The ball's place repeats every `2 * (width - 1) * (height - 1)` moves. So does its direction from
      the first move on, and from the start exactly if a move could have led there. */
  lemma SoloPeriodic(width: nat, height: nat, b: Ball, n: nat)
    requires Playable(width, height, b)
    ensures var later := SoloAfter(width, height, b, n + Period(width, height));
            && later.At() == SoloAfter(width, height, b, n).At()
            && (later == SoloAfter(width, height, b, n) <==> n > 0 || Arrived(width, height, b))
  {
    hide Period, SoloAfter, SoloStep, Arrived;
    var p := Period(width, height);
    PositionsRepeat(width, height, b, n);
    if n > 0 {
      MovesRepeat(width, height, b, n - 1);
    } else if Arrived(width, height, b) {
      var before := StepBefore(width, height, b);
      MovesRepeat(width, height, before, 0);
      FirstMove(width, height, before, 0);
      FirstMove(width, height, before, p);
    } else {
      FirstMove(width, height, b, 0);
      LastMove(width, height, b, p - 1);
      StepArrives(width, height, SoloAfter(width, height, b, p - 1));
    }
  }

  lemma FirstMove(width: nat, height: nat, b: Ball, n: nat)
    requires Playable(width, height, b)
    ensures SoloAfter(width, height, b, 0) == b
    ensures SoloAfter(width, height, b, n + 1) == SoloAfter(width, height, SoloStep(width, height, b), n)
  {
  }

  lemma StepBefore(width: nat, height: nat, b: Ball) returns (before: Ball)
    requires Playable(width, height, b) && Arrived(width, height, b)
    ensures Playable(width, height, before) && SoloStep(width, height, before) == b
  {
    before := Ball(b.x - b.dx, b.y - b.dy, b.dx, b.dy);
  }

  lemma Reorder(w: nat, h: nat)
    ensures 2 * w * h == h * (2 * w) == w * (2 * h) && 2 * w * h >= 0
    ensures w > 0 && h > 0 ==> 2 * w * h > 0
  {
  }
}
