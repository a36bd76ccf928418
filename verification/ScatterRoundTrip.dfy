/** scattergather61 run twice: gathering from the outputs of a scattered file gives the file back. */
module ScatterRoundTrip {
  import opened Arithmetic
  import opened ScatterGather
  import Sequences

  // ---------------------------------------------------------------------
  // From the front

  lemma {:induction false} BlocksCons(first: Turn, turns: seq<Turn>)
    ensures Blocks([first] + turns) == (if first.bytes != [] then [first] else []) + Blocks(turns)
    decreases |turns|
  {
    hide Blocks;
    if turns == [] {
      assert [first] + turns == [] + [first];
      BlocksSnoc([], first);
      NoBlocks();
    } else {
      var n := |turns| - 1;
      BlocksCons(first, turns[..n]);
      BlocksSnoc(turns[..n], turns[n]);
      BlocksSnoc([first] + turns[..n], turns[n]);
      assert [first] + turns == [first] + turns[..n] + [turns[n]];
      assert turns == turns[..n] + [turns[n]];
    }
  }

  lemma NoBlocks()
    ensures Blocks([]) == []
  {
  }

  lemma NumberedEmpty(j: nat, n: nat)
    requires n > 0
    ensures Numbered([], j, n) == []
  {
  }

  /** Without the first block, every output but the first moves up, and the first becomes the last. */
  lemma {:induction false} NumberedCons(first: Turn, blocks: seq<Turn>, j: nat, n: nat)
    requires j < n
    ensures Numbered([first] + blocks, j, n)
            == if j > 0 then Numbered(blocks, j - 1, n) else [first] + Numbered(blocks, n - 1, n)
    decreases |blocks|
  {
    var all := [first] + blocks;
    if blocks == [] {
      SmallModulus(0, n);
      assert all[..0] == [];
    } else {
      var k := |blocks| - 1;
      NumberedCons(first, blocks[..k], j, n);
      assert all[..k + 1] == [first] + blocks[..k] && all[k + 1] == blocks[k];
      ModStep(k, n);
    }
  }

  lemma ModStep(k: nat, n: nat)
    requires n > 0
    ensures (k + 1) % n == if k % n == n - 1 then 0 else k % n + 1
  {
    assert k == k / n * n + k % n;
    if k % n == n - 1 {
      DivUnique(k / n + 1, 0, n);
    } else {
      DivUnique(k / n, k % n + 1, n);
    }
  }

  lemma {:induction false} AllNumbered(blocks: seq<Turn>)
    ensures Numbered(blocks, 0, 1) == blocks
    decreases |blocks|
  {
    if blocks != [] {
      AllNumbered(blocks[..|blocks| - 1]);
    }
  }

  // ---------------------------------------------------------------------
  // Blocks that a read finds again

  /** A read that does not end at the end of its input stops here, whatever follows. */
  predicate Full(bytes: seq<Byte>, size: nat, lines: bool) {
    |bytes| == size || (lines && bytes != [] && bytes[|bytes| - 1] == NEWLINE)
  }

  /** A read takes no more than this. */
  predicate OneRead(bytes: seq<Byte>, size: nat, lines: bool) {
    && 0 < |bytes| <= size
    && (lines ==> forall k | 0 <= k < |bytes| - 1 :: bytes[k] != NEWLINE)
  }

  lemma ReadAgain(bytes: seq<Byte>, more: seq<Byte>, size: nat, lines: bool)
    requires OneRead(bytes, size, lines) && (more == [] || Full(bytes, size, lines))
    ensures Amount(bytes + more, size, lines) == |bytes|
  {
    var rest := bytes + more;
    if lines {
      assert more == [] ==> |bytes| == |rest|;
      AmountUnique(rest, size, |bytes|);
    } else {
      AmountOfBlock(rest, size);
    }
  }

  /** Blocks as one input gives them: all but the last are full. */
  ghost predicate OfOneInput(blocks: seq<Turn>, size: nat, lines: bool) {
    && (forall k | 0 <= k < |blocks| :: OneRead(blocks[k].bytes, size, lines))
    && (forall k | 0 <= k < |blocks| - 1 :: Full(blocks[k].bytes, size, lines))
  }

  lemma OfOneInputCons(first: Turn, blocks: seq<Turn>, size: nat, lines: bool)
    requires OfOneInput(blocks, size, lines) && OneRead(first.bytes, size, lines)
    requires blocks == [] || Full(first.bytes, size, lines)
    ensures OfOneInput([first] + blocks, size, lines)
  {
    hide OneRead, Full;
  }

  lemma FirstRead(rest: seq<Byte>, size: nat, lines: bool)
    requires size > 0 && rest != []
    ensures var bytes := rest[..Amount(rest, size, lines)];
            OneRead(bytes, size, lines) && (|bytes| == |rest| || Full(bytes, size, lines))
  {
  }

  /** The blocks of a single input. */
  lemma {:induction false} BlocksOfInput(q: Queue, size: nat, lines: bool)
    requires q.Valid() && size > 0 && (q.open == [] || q.open == [0])
    ensures var blocks := Blocks(Turns(q, size, lines));
            && OfOneInput(blocks, size, lines)
            && (q.open == [] || q.rests[0] == [] ==> blocks == [])
            && (q.open == [0] ==> Cat(blocks) == q.rests[0])
    decreases Total(q.rests), |q.open|
  {
    hide Amount, Total, Blocks, Cat, OneRead, Full;
    if q.open == [] {
      NoBlocks();
    } else {
      var first, r := Head(q, size, lines), Next(q, size, lines);
      TotalFalls(q, size, lines);
      TurnsSplit(q, size, lines);
      BlocksCons(first, Turns(r, size, lines));
      BlocksOfInput(r, size, lines);
      var later := Blocks(Turns(r, size, lines));
      if q.rests[0] != [] {
        FirstRead(q.rests[0], size, lines);
        OpenNext(q, size, lines, 0);
        assert first.bytes != [] && r.open == [0];
        OfOneInputCons(first, later, size, lines);
        CatFront(first, later);
      } else {
        assert first.bytes == [] && r.open == [];
        assert [] + later == later;
        CatNone();
      }
    }
  }

  // ---------------------------------------------------------------------
  // Gathering

  /** The inputs, in the order of their next reads, hold the blocks dealt round. */
  ghost predicate Dealt(q: Queue, blocks: seq<Turn>)
    requires q.Valid()
  {
    && q.open != []
    && forall i | 0 <= i < |q.open| :: q.rests[q.open[i]] == Cat(Numbered(blocks, i, |q.open|))
  }

  /** A read of the first input gives the first block, and the rest is dealt round from the next. */
  lemma GatherStep(q: Queue, first: Turn, blocks: seq<Turn>, size: nat, lines: bool)
    requires q.Valid() && Dealt(q, [first] + blocks)
    requires OneRead(first.bytes, size, lines) && (blocks == [] || Full(first.bytes, size, lines))
    ensures Head(q, size, lines).bytes == first.bytes && Dealt(Next(q, size, lines), blocks)
  {
    hide Numbered, Cat, OneRead, Full, Amount;
    var n, x, r := |q.open|, q.open[0], Next(q, size, lines);
    var more := Cat(Numbered(blocks, n - 1, n));
    NumberedCons(first, blocks, 0, n);
    CatFront(first, Numbered(blocks, n - 1, n));
    if blocks == [] {
      NumberedEmpty(n - 1, n);
      CatNone();
    }
    ReadAgain(first.bytes, more, size, lines);
    assert first.bytes != [] by { NotEmpty(first.bytes, size, lines); }
    assert r.open == q.open[1..] + [x];
    forall i | 0 <= i < n ensures r.rests[r.open[i]] == Cat(Numbered(blocks, i, n)) {
      if i < n - 1 {
        NumberedCons(first, blocks, i + 1, n);
      }
    }
  }

  lemma NotEmpty(bytes: seq<Byte>, size: nat, lines: bool)
    requires OneRead(bytes, size, lines)
    ensures bytes != []
  {
  }

  /** Empty inputs give no blocks. */
  lemma {:induction false} AllEnded(q: Queue, size: nat, lines: bool)
    requires q.Valid() && forall i | 0 <= i < |q.open| :: q.rests[q.open[i]] == []
    ensures Blocks(Turns(q, size, lines)) == []
    decreases |q.open|
  {
    hide Blocks;
    if q.open == [] {
      NoBlocks();
    } else {
      TurnsSplit(q, size, lines);
      BlocksCons(Head(q, size, lines), Turns(Next(q, size, lines), size, lines));
      AllEnded(Next(q, size, lines), size, lines);
    }
  }

  lemma NothingDealt(q: Queue)
    requires q.Valid() && Dealt(q, [])
    ensures forall i | 0 <= i < |q.open| :: q.rests[q.open[i]] == []
  {
    hide Numbered;
    forall i | 0 <= i < |q.open| ensures q.rests[q.open[i]] == [] {
      NumberedEmpty(i, |q.open|);
    }
  }

  lemma {:induction false} Gathers(q: Queue, blocks: seq<Turn>, size: nat, lines: bool)
    requires q.Valid() && Dealt(q, blocks) && OfOneInput(blocks, size, lines)
    ensures Cat(Blocks(Turns(q, size, lines))) == Cat(blocks)
    decreases |blocks|
  {
    hide Blocks, Cat, Dealt, Turns, Next, Head, OneRead, Full;
    if blocks == [] {
      NothingDealt(q);
      AllEnded(q, size, lines);
    } else {
      var first, rest := blocks[0], blocks[1..];
      assert blocks == [first] + rest;
      assert q.open != [] by { DealtToSome(q, blocks); }
      GatherStep(q, first, rest, size, lines);
      var r := Next(q, size, lines);
      Gathers(r, rest, size, lines);
      TurnsSplit(q, size, lines);
      BlocksCons(Head(q, size, lines), Turns(r, size, lines));
      NotEmpty(first.bytes, size, lines);
      CatFront(Head(q, size, lines), Blocks(Turns(r, size, lines)));
      CatFront(first, rest);
    }
  }

  lemma DealtToSome(q: Queue, blocks: seq<Turn>)
    requires q.Valid() && Dealt(q, blocks)
    ensures q.open != []
  {
  }

  /** What one file is scattered to, in blocks or in lines, is gathered again with the same block size
      to that file, for any number of outputs. */
  lemma GatherUndoesScatter(input: seq<Byte>, outs: seq<seq<Byte>>, size: nat, lines: bool)
    requires size > 0 && outs != [] && Holds(outs, Turns(Start([input]), size, lines))
    ensures Holds([input], Turns(Start(outs), size, lines))
  {
    hide Turns, Blocks, Cat, Numbered, OfOneInput;
    var blocks := Blocks(Turns(Start([input]), size, lines));
    BlocksOfInput(Start([input]), size, lines);
    Gathers(Start(outs), blocks, size, lines);
    AllNumbered(Blocks(Turns(Start(outs), size, lines)));
  }
}
