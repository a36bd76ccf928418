/** scattergather61: blocks gathered from inputs in rotation, and scattered over outputs in rotation. */
module ScatterGather {
  import opened Arithmetic
  import Sequences

  const NEWLINE := 10

  // ---------------------------------------------------------------------
  // Reading a block or a line

  /** How many bytes one read takes: up to `size`, and in line mode not past a newline. */
  function Amount(rest: seq<Byte>, size: nat, lines: bool): (n: nat)
    ensures n <= size && n <= |rest|
    ensures n == 0 <==> size == 0 || rest == []
    ensures lines ==> forall k | 0 <= k < n - 1 :: rest[k] != NEWLINE
    ensures n == size || n == |rest| || (lines && n > 0 && rest[n - 1] == NEWLINE)
  {
    if size == 0 || rest == [] then 0
    else if lines && rest[0] == NEWLINE then 1
    else 1 + Amount(rest[1..], size - 1, lines)
  }

  lemma {:induction false} AmountUnique(rest: seq<Byte>, size: nat, n: nat)
    requires n <= size && n <= |rest| && (forall k | 0 <= k < n - 1 :: rest[k] != NEWLINE)
    requires n == size || n == |rest| || (n > 0 && rest[n - 1] == NEWLINE)
    ensures n == Amount(rest, size, true)
    decreases n
  {
    if n > 0 {
      if rest[0] != NEWLINE {
        AmountUnique(rest[1..], size - 1, n - 1);
      }
    }
  }

  lemma {:induction false} AmountOfBlock(rest: seq<Byte>, size: nat)
    ensures Amount(rest, size, false) == if size < |rest| then size else |rest|
    decreases size
  {
    if size > 0 && rest != [] {
      AmountOfBlock(rest[1..], size - 1);
    }
  }

  method ReadLine(rest: seq<Byte>, size: nat, lines: bool) returns (buf: seq<Byte>)
    ensures buf == rest[..Amount(rest, size, lines)]
  {
    if lines {
      var i := 0;
      buf := [];
      while i != size
        invariant 0 <= i <= size && i <= |rest| && buf == rest[..i]
        invariant forall k | 0 <= k < i :: rest[k] != NEWLINE
      {
        if i == |rest| {
          break;
        }
        var ch := rest[i];
        buf := buf + [ch];
        i := i + 1;
        if ch == NEWLINE {
          break;
        }
      }
      AmountUnique(rest, size, i);
    } else {
      AmountOfBlock(rest, size);
      buf := rest[..if size < |rest| then size else |rest|];
    }
  }

  // ---------------------------------------------------------------------
  // The rotation as a queue

  /** One turn of the copy loop: what was read from an input; nothing at its end. */
  datatype Turn = Turn(input: nat, bytes: seq<Byte>)

  function Total(rests: seq<seq<Byte>>): nat {
    if rests == [] then 0 else Total(rests[..|rests| - 1]) + |rests[|rests| - 1]|
  }

  lemma {:induction false} TotalUpdate(rests: seq<seq<Byte>>, x: nat, rest: seq<Byte>)
    requires x < |rests|
    ensures Total(rests[x := rest]) == Total(rests) - |rests[x]| + |rest|
    decreases |rests|
  {
    var n := |rests| - 1;
    if x < n {
      assert rests[x := rest][..n] == rests[..n][x := rest];
      TotalUpdate(rests[..n], x, rest);
    } else {
      assert rests[x := rest][..n] == rests[..n];
    }
  }

  /** The open inputs in the order of their next reads, and what is left of each input. */
  datatype Queue = Queue(open: seq<nat>, rests: seq<seq<Byte>>)
  {
    ghost predicate Valid() {
      && (forall i | 0 <= i < |open| :: open[i] < |rests|)
      && (forall i, j | 0 <= i < j < |open| :: open[i] != open[j])
    }
  }

  function Head(q: Queue, size: nat, lines: bool): Turn
    requires q.Valid() && q.open != []
  {
    var rest := q.rests[q.open[0]];
    Turn(q.open[0], rest[..Amount(rest, size, lines)])
  }

  /** The input at the head is read; it goes to the back, or is closed if nothing came. */
  function Next(q: Queue, size: nat, lines: bool): (r: Queue)
    requires q.Valid() && q.open != []
    ensures r.Valid() && |r.rests| == |q.rests|
  {
    var x := q.open[0];
    var bytes := Head(q, size, lines).bytes;
    if bytes == [] then Queue(q.open[1..], q.rests)
    else Queue(q.open[1..] + [x], q.rests[x := q.rests[x][|bytes|..]])
  }

  /** All turns, until no input is open. */
  function Turns(q: Queue, size: nat, lines: bool): seq<Turn>
    requires q.Valid()
    decreases Total(q.rests), |q.open|
  {
    if q.open == [] then []
    else
      TotalFalls(q, size, lines);
      [Head(q, size, lines)] + Turns(Next(q, size, lines), size, lines)
  }

  lemma TotalFalls(q: Queue, size: nat, lines: bool)
    requires q.Valid() && q.open != []
    ensures var r := Next(q, size, lines);
            Total(r.rests) < Total(q.rests) || (r.rests == q.rests && |r.open| < |q.open|)
  {
    var x := q.open[0];
    var bytes := Head(q, size, lines).bytes;
    TotalUpdate(q.rests, x, q.rests[x][|bytes|..]);
  }

  // ---------------------------------------------------------------------
  // What the rotation does

  function Cat(turns: seq<Turn>): seq<Byte> {
    if turns == [] then [] else Cat(turns[..|turns| - 1]) + turns[|turns| - 1].bytes
  }

  lemma {:induction false} CatFront(first: Turn, turns: seq<Turn>)
    ensures Cat([first] + turns) == first.bytes + Cat(turns)
    decreases |turns|
  {
    var all := [first] + turns;
    if turns == [] {
      assert all[..0] == [];
    } else {
      var n := |turns| - 1;
      assert all[..n + 1] == [first] + turns[..n];
      CatFront(first, turns[..n]);
      assert all[n + 1] == turns[n];
    }
  }

  /** The turns of one input. */
  function Of(turns: seq<Turn>, x: nat): seq<Turn> {
    if turns == [] then []
    else (if turns[0].input == x then [turns[0]] else []) + Of(turns[1..], x)
  }

  /** Who is open after a turn, and what is left of it. */
  lemma OpenNext(q: Queue, size: nat, lines: bool, x: nat)
    requires q.Valid() && q.open != [] && size > 0 && x < |q.rests|
    ensures var first, r := Head(q, size, lines), Next(q, size, lines);
            if x == q.open[0] then
              && (x in r.open <==> first.bytes != []) && first.bytes + r.rests[x] == q.rests[x]
              && (first.bytes == [] ==> q.rests[x] == [])
            else
              (x in r.open <==> x in q.open) && r.rests[x] == q.rests[x]
  {
    var r := Next(q, size, lines);
    assert q.open == [q.open[0]] + q.open[1..];
    if Head(q, size, lines).bytes != [] {
      assert r.open[|r.open| - 1] == q.open[0];
    }
  }

  /** The blocks read from each open input, one after the other, are what was left of it. */
  lemma {:induction false} BlocksMakeInput(q: Queue, size: nat, lines: bool, x: nat)
    requires q.Valid() && size > 0 && x < |q.rests|
    ensures Cat(Of(Turns(q, size, lines), x)) == if x in q.open then q.rests[x] else []
    decreases Total(q.rests), |q.open|
  {
    hide Amount, Cat, Next;
    if q.open == [] {
      assert Cat([]) == [] by { CatNone(); }
    } else {
      var first, r := Head(q, size, lines), Next(q, size, lines);
      TotalFalls(q, size, lines);
      OpenNext(q, size, lines, x);
      BlocksMakeInput(r, size, lines, x);
      var turns := Turns(r, size, lines);
      assert ([first] + turns)[1..] == turns;
      if x == first.input {
        CatFront(first, Of(turns, x));
      } else {
        assert [] + Of(turns, x) == Of(turns, x);
      }
    }
  }

  lemma CatNone()
    ensures Cat([]) == []
  {
  }

  function Inputs(turns: seq<Turn>): (xs: seq<nat>)
    ensures |xs| == |turns| && forall i | 0 <= i < |turns| :: xs[i] == turns[i].input
  {
    seq(|turns|, i requires 0 <= i < |turns| => turns[i].input)
  }

  /** The first turns go through the first `n` of the queue in order. */
  lemma {:induction false} FirstRound(q: Queue, size: nat, lines: bool, n: nat)
    requires q.Valid() && n <= |q.open|
    ensures |Turns(q, size, lines)| >= n && Inputs(Turns(q, size, lines))[..n] == q.open[..n]
    decreases n
  {
    if n > 0 {
      var r := Next(q, size, lines);
      FirstRound(r, size, lines, n - 1);
      var rest := Turns(r, size, lines);
      assert r.open[..n - 1] == q.open[1..n];
      assert Inputs([Head(q, size, lines)] + rest)[..n] == [q.open[0]] + Inputs(rest)[..n - 1];
    }
  }

  /** The queue after some turns. */
  function After(q: Queue, size: nat, lines: bool, n: nat): (r: Queue)
    requires q.Valid() && n <= |Turns(q, size, lines)|
    ensures r.Valid()
    decreases n
  {
    if n == 0 then q else After(Next(q, size, lines), size, lines, n - 1)
  }

  lemma {:induction false} TurnsAfter(q: Queue, size: nat, lines: bool, n: nat)
    requires q.Valid() && n <= |Turns(q, size, lines)|
    ensures Turns(After(q, size, lines, n), size, lines) == Turns(q, size, lines)[n..]
    decreases n
  {
    if n > 0 {
      TurnsAfter(Next(q, size, lines), size, lines, n - 1);
    }
  }

  lemma RotationFromHead(q: Queue, size: nat, lines: bool)
    requires q.Valid() && q.open != [] && Head(q, size, lines).bytes != []
    ensures var xs, k := Inputs(Turns(q, size, lines)), |q.open|;
            k < |xs| && xs[0] == xs[k] == q.open[0] && xs[1..k] == q.open[1..]
  {
    hide Head, Turns;
    var r, k := Next(q, size, lines), |q.open|;
    FirstRound(r, size, lines, k);
    TurnsSplit(q, size, lines);
    var rest := Turns(r, size, lines);
    assert r.open == q.open[1..] + [q.open[0]] && r.open[..k] == r.open;
    var xs := Inputs([Head(q, size, lines)] + rest);
    assert xs[1..] == Inputs(rest);
    assert xs[1..k] == Inputs(rest)[..k][..k - 1];
    assert xs[k] == Inputs(rest)[..k][k - 1];
  }

  lemma TurnsSplit(q: Queue, size: nat, lines: bool)
    requires q.Valid() && q.open != []
    ensures Turns(q, size, lines) == [Head(q, size, lines)] + Turns(Next(q, size, lines), size, lines)
    ensures Head(q, size, lines).input == q.open[0]
  {
  }

  /** Between a read of one input that gives something and its next read, every other input that is
      open is read exactly once, in the order of the queue. */
  lemma RotationIsFair(q: Queue, size: nat, lines: bool, n: nat)
    requires q.Valid() && n < |Turns(q, size, lines)| && Turns(q, size, lines)[n].bytes != []
    ensures var open, xs := After(q, size, lines, n).open, Inputs(Turns(q, size, lines));
            && |open| > 0 && n + |open| < |xs|
            && xs[n] == xs[n + |open|] == open[0] && xs[n + 1..n + |open|] == open[1..]
            && forall i, j | 0 <= i < j < |open| :: open[i] != open[j]
  {
    hide Head, Next, After;
    var r := After(q, size, lines, n);
    TurnsAfter(q, size, lines, n);
    var turns, later := Turns(q, size, lines), Turns(r, size, lines);
    assert r.open != [];
    TurnsSplit(r, size, lines);
    assert later[0] == turns[n];
    RotationFromHead(r, size, lines);
    var k := |r.open|;
    assert Inputs(later) == Inputs(turns)[n..];
    assert Inputs(turns)[n + 1..n + k] == Inputs(turns)[n..][1..k];
  }

  // ---------------------------------------------------------------------
  // The outputs

  /** The turns that write a block. */
  function Blocks(turns: seq<Turn>): seq<Turn> {
    if turns == [] then []
    else Blocks(turns[..|turns| - 1]) + if turns[|turns| - 1].bytes != [] then [turns[|turns| - 1]] else []
  }

  /** Of the blocks, those whose number is `j` modulo `n`. */
  function Numbered(blocks: seq<Turn>, j: nat, n: nat): seq<Turn>
    requires n > 0
  {
    if blocks == [] then []
    else
      var k := |blocks| - 1;
      Numbered(blocks[..k], j, n) + if k % n == j then [blocks[k]] else []
  }

  lemma NumberedSnoc(blocks: seq<Turn>, b: Turn, j: nat, n: nat)
    requires n > 0
    ensures Cat(Numbered(blocks + [b], j, n))
            == Cat(Numbered(blocks, j, n)) + if |blocks| % n == j then b.bytes else []
  {
    var all := blocks + [b];
    assert all[..|blocks|] == blocks;
    var blocksSoFar := Numbered(blocks, j, n);
    assert Numbered(all, j, n) == blocksSoFar + if |blocks| % n == j then [b] else [];
    if |blocks| % n == j {
      assert (blocksSoFar + [b])[..|blocksSoFar|] == blocksSoFar;
    } else {
      assert blocksSoFar + [] == blocksSoFar;
    }
  }

  lemma BlocksSnoc(turns: seq<Turn>, t: Turn)
    ensures Blocks(turns + [t]) == Blocks(turns) + if t.bytes != [] then [t] else []
  {
    assert (turns + [t])[..|turns|] == turns;
  }

  /** The number of the block that output `j` gets as its block `i`. */
  function BlockNumber(j: nat, i: nat, n: nat): nat { j + i * n }

  lemma NumbersRise(j: nat, i: nat, m: nat, n: nat)
    requires i < m
    ensures BlockNumber(j, i, n) + n <= BlockNumber(j, m, n)
  {
    TimesMonotone(i + 1, m, n);
  }

  /** `k` leaves `j` exactly if it is the first such number that is not below it. */
  lemma LastNumber(k: nat, j: nat, n: nat, m: nat)
    requires j < n && BlockNumber(j, m, n) >= k && (m > 0 ==> BlockNumber(j, m - 1, n) < k)
    ensures k % n == j <==> k == BlockNumber(j, m, n)
  {
    DivUnique(m, j, n);
    if k % n == j && k != j + m * n {
      assert k == k / n * n + j;
      if k / n >= m {
        TimesMonotone(m, k / n, n);
      } else {
        TimesMonotone(k / n, m - 1, n);
      }
    }
  }

  /** Output `j` gets the blocks of number `j`, `j + n`, `j + 2n` and so on, in that order. */
  lemma {:induction false} NumberedAt(blocks: seq<Turn>, j: nat, n: nat, i: nat)
    requires j < n
    ensures i < |Numbered(blocks, j, n)| <==> BlockNumber(j, i, n) < |blocks|
    ensures i < |Numbered(blocks, j, n)| ==> Numbered(blocks, j, n)[i] == blocks[BlockNumber(j, i, n)]
    decreases |blocks|
  {
    hide BlockNumber;
    if blocks != [] {
      var k := |blocks| - 1;
      var m := |Numbered(blocks[..k], j, n)|;
      NumberedAt(blocks[..k], j, n, i);
      NumberedAt(blocks[..k], j, n, m);
      if m > 0 {
        NumberedAt(blocks[..k], j, n, m - 1);
      }
      LastNumber(k, j, n, m);
      if i < m {
        NumbersRise(j, i, m, n);
      } else if i > m {
        NumbersRise(j, m, i, n);
      }
    }
  }

  // ---------------------------------------------------------------------
  // The program

  /** The open inputs from position `p` on, going round. */
  function Rotated(infs: seq<nat>, p: nat): (r: seq<nat>)
    requires p <= |infs|
    ensures |r| == |infs|
  {
    infs[p..] + infs[..p]
  }

  function Start(inputs: seq<seq<Byte>>): (q: Queue)
    ensures q.Valid()
  {
    Queue(Sequences.Numbers(|inputs|), inputs)
  }

  /** The position of the next read, after `ini`. */
  function NextIndex(ini: nat, n: nat): nat
    requires n > 0
  {
    (ini + 1) % WORD % n
  }

  lemma IndexAfter(p: nat, n: nat)
    requires p < n < WORD
    ensures NextIndex(p, n) == if p + 1 == n then 0 else p + 1
    ensures NextIndex(WORD - 1, n) == 0
  {
    SmallModulus(p + 1, WORD);
    if p + 1 < n {
      SmallModulus(p + 1, n);
    } else {
      SmallModulus(0, n);
    }
    SmallModulus(0, WORD);
    SmallModulus(0, n);
  }

  /** After the input at `p` has been erased, and `ini` decremented, of `n` left. */
  lemma IndexAfterErase(p: nat, n: nat)
    requires p <= n < WORD && n > 0
    ensures NextIndex((p + WORD - 1) % WORD, n) == if p == n then 0 else p
  {
    if p == 0 {
      SmallModulus(WORD - 1, WORD);
      SmallModulus(0, WORD);
      SmallModulus(0, n);
    } else {
      SmallModulus(p - 1, WORD);
      SmallModulus(p, WORD);
      if p < n {
        SmallModulus(p, n);
      } else {
        SmallModulus(0, n);
      }
    }
  }

  /** Whichever the position, its input is the head of the queue, and then the rest goes round. */
  lemma RotatedNext(infs: seq<nat>, p: nat)
    requires p < |infs| < WORD
    ensures Rotated(infs, p)[0] == infs[p]
    ensures Rotated(infs, NextIndex(p, |infs|)) == Rotated(infs, p)[1..] + [infs[p]]
  {
    hide NextIndex;
    IndexAfter(p, |infs|);
  }

  lemma RotatedErase(infs: seq<nat>, p: nat)
    requires p < |infs| < WORD
    ensures var fewer, ini := infs[..p] + infs[p + 1..], (p + WORD - 1) % WORD;
            if fewer == [] then Rotated(infs, p)[1..] == []
            else Rotated(fewer, NextIndex(ini, |fewer|)) == Rotated(infs, p)[1..]
  {
    hide NextIndex;
    var fewer := infs[..p] + infs[p + 1..];
    if fewer != [] {
      IndexAfterErase(p, |fewer|);
    }
  }

  /** The outputs hold the blocks of the turns so far. */
  ghost predicate Holds(outs: seq<seq<Byte>>, turns: seq<Turn>) {
    forall j | 0 <= j < |outs| :: outs[j] == Cat(Numbered(Blocks(turns), j, |outs|))
  }

  lemma HoldsMore(outs: seq<seq<Byte>>, turns: seq<Turn>, turn: Turn)
    requires outs != [] && Holds(outs, turns)
    ensures var k := |Blocks(turns)| % |outs|;
            if turn.bytes == [] then
              Holds(outs, turns + [turn]) && |Blocks(turns + [turn])| == |Blocks(turns)|
            else
              && Holds(outs[k := outs[k] + turn.bytes], turns + [turn])
              && |Blocks(turns + [turn])| % |outs| == (k + 1) % |outs|
  {
    hide Blocks, Numbered, Cat;
    BlocksSnoc(turns, turn);
    if turn.bytes == [] {
      assert Blocks(turns) + [] == Blocks(turns);
    } else {
      forall j | 0 <= j < |outs| {
        NumberedSnoc(Blocks(turns), turn, j, |outs|);
      }
      ModNext(|Blocks(turns)|, |outs|);
    }
  }

  /** The queue that the loop's variables stand for. */
  function Standing(infs: seq<nat>, ini: nat, rests: seq<seq<Byte>>): (q: Queue)
    ensures |q.open| == |infs| && q.rests == rests
  {
    Queue(if infs == [] then [] else Rotated(infs, NextIndex(ini, |infs|)), rests)
  }

  /** A turn of the loop is a turn of the queue. */
  lemma LoopTurn(infs: seq<nat>, ini: nat, rests: seq<seq<Byte>>, size: nat, lines: bool)
    requires infs != [] && |infs| < WORD && Standing(infs, ini, rests).Valid()
    ensures var q, p := Standing(infs, ini, rests), NextIndex(ini, |infs|);
            && q.open != [] && p < |infs| && infs[p] < |rests|
            && var rest := rests[infs[p]];
               var buf := rest[..Amount(rest, size, lines)];
               && Head(q, size, lines) == Turn(infs[p], buf)
               && Next(q, size, lines) ==
                  if buf == [] then Standing(infs[..p] + infs[p + 1..], (p + WORD - 1) % WORD, rests)
                  else Standing(infs, p, rests[infs[p] := rest[|buf|..]])
  {
    hide Amount, Rotated;
    var p := NextIndex(ini, |infs|);
    RotatedNext(infs, p);
    RotatedErase(infs, p);
    assert Standing(infs, ini, rests).open[0] == infs[p];
  }

  /** All turns of the copy are those made and those of the queue. */
  lemma OneTurn(all: seq<Turn>, turns: seq<Turn>, q: Queue, size: nat, lines: bool)
    requires q.Valid() && q.open != [] && all == turns + Turns(q, size, lines)
    ensures all == turns + [Head(q, size, lines)] + Turns(Next(q, size, lines), size, lines)
  {
    TurnsSplit(q, size, lines);
  }

  /** The copy loop. `turns` is what it reads, turn by turn. */
  method Copy(inputs: seq<seq<Byte>>, outCount: nat, blockArgument: nat, lines: bool)
    returns (outs: seq<seq<Byte>>, ghost turns: seq<Turn>)
    requires |inputs| < WORD && 0 < outCount < WORD
    ensures turns == Turns(Start(inputs), if blockArgument == 0 then 1 else blockArgument, lines)
    ensures |outs| == outCount && Holds(outs, turns)
  {
    hide Turns, Holds, NextIndex, Standing, Total, Amount, Blocks, Head, Next, Start;
    var size: nat := if blockArgument != 0 then blockArgument else 1;
    var infs, rests := Sequences.Numbers(|inputs|), inputs;
    outs := seq(outCount, _ => []);
    var ini: nat, outi: nat := WORD - 1, 0;
    turns := [];
    ghost var all := Turns(Start(inputs), size, lines);
    StartStands(inputs, outs);
    while infs != []
      invariant |infs| < WORD && |outs| == outCount && Standing(infs, ini, rests).Valid()
      invariant all == turns + Turns(Standing(infs, ini, rests), size, lines)
      invariant outi == |Blocks(turns)| % outCount && Holds(outs, turns)
      decreases Total(rests), |infs|
    {
      LoopTurn(infs, ini, rests, size, lines);
      ghost var q := Standing(infs, ini, rests);
      TotalFalls(q, size, lines);
      OneTurn(all, turns, q, size, lines);

      ini := NextIndex(ini, |infs|);
      var buf := ReadLine(rests[infs[ini]], size, lines);
      ghost var turn := Turn(infs[ini], buf);
      HoldsMore(outs, turns, turn);
      if |buf| <= 0 {
        infs := infs[..ini] + infs[ini + 1..];
        ini := (ini + WORD - 1) % WORD;
      } else {
        rests := rests[infs[ini] := rests[infs[ini]][|buf|..]];
        outs := outs[outi := outs[outi] + buf];
        outi := (outi + 1) % outCount;
      }
      turns := turns + [turn];
    }
    assert all == turns by { NoTurns(ini, rests, size, lines); }
  }

  lemma NoTurns(ini: nat, rests: seq<seq<Byte>>, size: nat, lines: bool)
    ensures Standing([], ini, rests).Valid() && Turns(Standing([], ini, rests), size, lines) == []
  {
  }

  lemma StartStands(inputs: seq<seq<Byte>>, outs: seq<seq<Byte>>)
    requires |inputs| < WORD && outs != [] && forall j | 0 <= j < |outs| :: outs[j] == []
    ensures Standing(Sequences.Numbers(|inputs|), WORD - 1, inputs) == Start(inputs)
    ensures Holds(outs, []) && |Blocks([])| % |outs| == 0
  {
    SmallModulus(0, |outs|);
    if inputs != [] {
      IndexAfter(0, |inputs|);
    }
  }
}
