/** Strides at least as long as the file. The position leaves the file with every step, and the program
    brings it back behind the block that it has just copied, so that the copy is sequential; unless the
    sum of position and stride reaches the size of a word. Then the position wraps around, bytes are
    read again and the last byte of the file never is. `NoWrap` is the condition that tells the two
    cases apart. */
module StrideWide {
  import opened Arithmetic
  import Sequences
  import opened Stride

  /** Where the last block but one starts, in a file of more than one block. */
  function LastButOne(n: nat, block: nat): nat
    requires 0 < block < n
  {
    (n - 1 - block) / block * block
  }

  lemma LastButOneOnGrid(n: nat, block: nat)
    requires 0 < block < n
    ensures var last := LastButOne(n, block);
            OnGrid(last, block) && last + block < n <= last + 2 * block
  {
    var q := (n - 1 - block) / block;
    assert n - 1 - block == q * block + (n - 1 - block) % block;
    DivUnique(q, 0, block);
  }

  /** No position that the loop moves on from reaches the size of a word when the stride is added. */
  predicate NoWrap(n: nat, stride: nat, block: nat)
    requires 0 < block
  {
    n <= block || LastButOne(n, block) + stride < WORD
  }

  lemma NextWide(n: nat, stride: nat, pos: nat, block: nat)
    requires n <= stride < WORD && n < SIZE_LIMIT && 0 < block && pos + block < n && pos + stride < WORD
    ensures NextPos(n, stride, pos, block) == pos + block
    ensures Min(NextBlock(n, stride, pos, block), n - (pos + block)) == Min(block, n - (pos + block))
  {
    hide NextPos, NextBlock;
    assert (pos + stride) % stride == pos by { DivUnique(1, pos, stride); }
    NextSmall(n, stride, pos, pos, block);
  }

  /** The next position is on the grid and not the last, or it is the last. */
  lemma GridStep(n: nat, pos: nat, block: nat)
    requires 0 < block < n && OnGrid(pos, block) && pos + block < n
    ensures OnGrid(pos + block, block) && pos <= LastButOne(n, block)
  {
    hide LastButOne;
    LastButOneOnGrid(n, block);
    GridNext(pos, block);
    if LastButOne(n, block) < pos {
      GridGap(LastButOne(n, block), pos, block);
    }
  }

  lemma RangeSplit(from: nat, a: nat, b: nat)
    ensures Range(from, a + b) == Range(from, a) + Range(from + a, b)
  {
  }

  lemma {:induction false} ReadsSequential(n: nat, stride: nat, pos: nat, block: nat, original: nat)
    requires n <= stride < WORD && n < SIZE_LIMIT && 0 < original && pos < n && OnGrid(pos, original)
    requires NoWrap(n, stride, original) && Min(block, n - pos) == Min(original, n - pos)
    ensures Reads(n, n, stride, pos, pos, block) == Range(pos, n - pos)
    decreases n - pos
  {
    hide NextPos, NextBlock, OnGrid, LastButOne, Range;
    var amount := Min(block, n - pos);
    RangeSplit(pos, amount, n - pos - amount);
    if pos + original < n {
      GridStep(n, pos, original);
      NextWide(n, stride, pos, original);
      ReadsSequential(n, stride, pos + original, NextBlock(n, stride, pos, original), original);
    } else {
      RangeSplit(pos, amount, 0);
    }
  }

  lemma GridEnd(n: nat, pos: nat, block: nat)
    requires 0 < block && OnGrid(pos, block) && pos < n <= pos + block && n % block == 0
    ensures n == pos + block
  {
    if n < pos + block {
      DivUnique(pos / block, n - pos, block);
    }
  }

  /** Told to read less than the whole file, the loop reads just the first `n` bytes, if no block
      reaches past them. */
  lemma {:induction false} ReadsSequentialPart(n: nat, length: nat, stride: nat, pos: nat, block: nat, original: nat)
    requires pos < n <= stride < WORD && n <= length && n < SIZE_LIMIT && 0 < original && OnGrid(pos, original)
    requires NoWrap(n, stride, original) && block == Min(original, stride - pos) && n % stride % original == 0
    ensures Reads(n, length, stride, pos, pos, block) == Range(pos, n - pos)
    decreases n - pos
  {
    hide NextPos, NextBlock, OnGrid, LastButOne, Range;
    if pos + original < n {
      RangeSplit(pos, original, n - pos - original);
      GridStep(n, pos, original);
      NextWide(n, stride, pos, original);
      assert (pos + stride) % stride == pos by { DivUnique(1, pos, stride); }
      NextSmall(n, stride, pos, pos, original);
      ReadsSequentialPart(n, length, stride, pos + original, NextBlock(n, stride, pos, original), original);
    } else {
      if n < stride {
        SmallModulus(n, stride);
        GridEnd(n, pos, original);
      }
      RangeSplit(pos, n - pos, 0);
    }
  }

  lemma {:induction false} WritesSequential(n: nat, stride: nat, pos: nat, block: nat, original: nat)
    requires n <= stride < WORD && n < SIZE_LIMIT && 0 < original && pos < n && OnGrid(pos, original)
    requires NoWrap(n, stride, original) && Min(block, n - pos) == Min(original, n - pos)
    ensures Writes(n, stride, pos, pos, block) == Range(pos, n - pos)
    decreases n - pos
  {
    hide NextPos, NextBlock, OnGrid, LastButOne, Range;
    var amount := Min(block, n - pos);
    RangeSplit(pos, amount, n - pos - amount);
    if pos + original < n {
      GridStep(n, pos, original);
      NextWide(n, stride, pos, original);
      WritesSequential(n, stride, pos + original, NextBlock(n, stride, pos, original), original);
    } else {
      RangeSplit(pos, amount, 0);
    }
  }

  lemma ReadsFirst(n: nat, length: nat, stride: nat, pos: nat, written: nat, block: nat, next: nat, nextBlock: nat)
    requires 0 < stride && written < n && 0 < block && pos < length
    requires next == NextPos(n, stride, pos, block) && nextBlock == NextBlock(n, stride, pos, block)
    ensures var amount := Min(block, length - pos);
            Reads(n, length, stride, pos, written, block)
            == Range(pos, amount) + Reads(n, length, stride, next, written + amount, nextBlock)
  {
    hide NextPos, NextBlock, Range;
  }

  /** If the position wraps, the loop reads on sequentially up to some point and then goes back. */
  lemma {:induction false} ReadsGoBack(n: nat, stride: nat, pos: nat, block: nat) returns (i: nat)
    requires n <= stride < WORD && n < SIZE_LIMIT && 0 < block < n
    requires !NoWrap(n, stride, block) && OnGrid(pos, block) && pos <= LastButOne(n, block)
    ensures var r := Reads(n, n, stride, pos, pos, block);
            && i < |r| && r[i] < pos + i
            && forall j | 0 <= j < i :: r[j] == pos + j
    decreases n - pos
  {
    hide NextPos, NextBlock, OnGrid, LastButOne, Reads, Range;
    LastButOneOnGrid(n, block);
    if pos + stride >= WORD {
      var back := pos + stride - WORD;
      WrapsTo(n, stride, pos, block);
      ReadsFirst(n, n, stride, pos, pos, block, back, block);
      var next, rest := NextPos(n, stride, back, block), NextBlock(n, stride, back, block);
      ReadsFirst(n, n, stride, back, pos + block, block, next, rest);
      i := block;
    } else {
      GridGap(pos, LastButOne(n, block), block);
      GridStep(n, pos, block);
      NextWide(n, stride, pos, block);
      ReadsFirst(n, n, stride, pos, pos, block, pos + block, NextBlock(n, stride, pos, block));
      assert NextBlock(n, stride, pos, block) == block by { NextBlockSame(n, stride, pos, block); }
      i := ReadsGoBack(n, stride, pos + block, block);
      i := block + i;
    }
  }

  lemma NextBlockSame(n: nat, stride: nat, pos: nat, block: nat)
    requires n <= stride < WORD && n < SIZE_LIMIT && 0 < block && pos + 2 * block < n && pos + stride < WORD
    ensures NextBlock(n, stride, pos, block) == block
  {
    NextWide(n, stride, pos, block);
  }

  lemma WrapsTo(n: nat, stride: nat, pos: nat, block: nat)
    requires 0 < stride < WORD <= pos + stride && pos < n < SIZE_LIMIT
    ensures NextPos(n, stride, pos, block) == pos + stride - WORD < pos
    ensures NextBlock(n, stride, pos, block) == block
  {
    DivUnique(1, pos + stride - WORD, WORD);
  }

  lemma WrapBounds(n: nat, stride: nat, block: nat)
    requires n < SIZE_LIMIT && 0 < block <= stride < WORD && !NoWrap(n, stride, block)
    ensures n < stride && block < n && WORD - stride <= LastButOne(n, block)
  {
    LastButOneOnGrid(n, block);
  }

  /** Below the wrap the position goes on by a block, above it back by `WORD - stride`. */
  lemma NextAround(n: nat, stride: nat, pos: nat, block: nat)
    requires n < SIZE_LIMIT && 0 < block <= stride < WORD && n < stride && pos + 2 * block < n
    ensures NextBlock(n, stride, pos, block) == block
    ensures NextPos(n, stride, pos, block) == if pos < WORD - stride then pos + block else pos - (WORD - stride)
  {
    if pos + stride < WORD {
      NextWide(n, stride, pos, block);
      NextBlockSame(n, stride, pos, block);
    } else {
      WrapsTo(n, stride, pos, block);
    }
  }

  /** If a block and the way back fit below the last block but one, the position stays there. */
  lemma {:induction false} StaysBelow(n: nat, stride: nat, pos: nat, written: nat, block: nat)
    requires n < SIZE_LIMIT && 0 < block <= stride < WORD && !NoWrap(n, stride, block)
    requires WORD - stride + block <= LastButOne(n, block) && pos <= LastButOne(n, block)
    ensures forall i | 0 <= i < |Reads(n, n, stride, pos, written, block)| ::
              Reads(n, n, stride, pos, written, block)[i] < n - 1
    decreases n - written
  {
    hide NextPos, NextBlock, LastButOne, NoWrap, Range;
    WrapBounds(n, stride, block);
    LastButOneOnGrid(n, block);
    if written < n {
      var next, nextBlock := NextPos(n, stride, pos, block), NextBlock(n, stride, pos, block);
      if pos >= WORD - stride {
        WrapsTo(n, stride, pos, block);
      } else {
        NextAround(n, stride, pos, block);
      }
      ReadsFirst(n, n, stride, pos, written, block, next, nextBlock);
      StaysBelow(n, stride, next, written + Min(block, n - pos), block);
    }
  }

  /** Otherwise the last block but one is the first to wrap, and one block more ends the loop. */
  lemma {:induction false} LastButOneWraps(n: nat, stride: nat, pos: nat, block: nat)
    requires n < SIZE_LIMIT && 0 < block <= stride < WORD && !NoWrap(n, stride, block)
    requires WORD - stride + block > LastButOne(n, block) && pos <= LastButOne(n, block) && OnGrid(pos, block)
    ensures forall i | 0 <= i < |Reads(n, n, stride, pos, pos, block)| ::
              Reads(n, n, stride, pos, pos, block)[i] < n - 1
    decreases n - pos
  {
    hide NextPos, NextBlock, LastButOne, NoWrap, Range, OnGrid;
    WrapBounds(n, stride, block);
    LastButOneOnGrid(n, block);
    var last := LastButOne(n, block);
    if pos < last {
      GridGap(pos, last, block);
      GridNext(pos, block);
      NextAround(n, stride, pos, block);
      ReadsFirst(n, n, stride, pos, pos, block, pos + block, block);
      LastButOneWraps(n, stride, pos + block, block);
    } else {
      var back := pos + stride - WORD;
      WrapsTo(n, stride, pos, block);
      ReadsFirst(n, n, stride, pos, pos, block, back, block);
      var next, nextBlock := NextPos(n, stride, back, block), NextBlock(n, stride, back, block);
      ReadsFirst(n, n, stride, back, pos + block, block, next, nextBlock);
      NothingMore(n, stride, next, pos + 2 * block, nextBlock);
    }
  }

  lemma NothingMore(n: nat, stride: nat, pos: nat, written: nat, block: nat)
    requires stride > 0 && written >= n
    ensures Reads(n, n, stride, pos, written, block) == []
  {
  }

  /** If the position wraps around, the last byte is never read. */
  lemma LastNeverRead(n: nat, stride: nat, block: nat)
    requires n < SIZE_LIMIT && 0 < block <= stride < WORD && !NoWrap(n, stride, block)
    ensures n > 0
    ensures forall i | 0 <= i < |Reads(n, n, stride, 0, 0, block)| :: Reads(n, n, stride, 0, 0, block)[i] < n - 1
  {
    hide LastButOne, NoWrap, Reads;
    WrapBounds(n, stride, block);
    if WORD - stride + block <= LastButOne(n, block) {
      StaysBelow(n, stride, 0, 0, block);
    } else {
      LastButOneWraps(n, stride, 0, block);
    }
  }

  /** The loop reads every position exactly once if and only if its position does not wrap around. */
  lemma ReadsOnceIff(n: nat, stride: nat, block: nat)
    requires n < SIZE_LIMIT && 0 < block <= stride < WORD
    ensures Permutation(Reads(n, n, stride, 0, 0, block), n) <==> NoWrap(n, stride, block)
  {
    hide Reads, Sequences.NoDuplicates, LastButOne;
    if stride < n {
      AtNext(stride, 0, 0);
      OrderIsPermutation(n, stride, block);
      ReadsInOrder(n, stride, 0, 0, block, 0);
      if block < n {
        LastButOneOnGrid(n, block);
      }
    } else if n == 0 {
      NothingRead(stride, block);
    } else if NoWrap(n, stride, block) {
      ReadsSequential(n, stride, 0, block, block);
      RangeIsPermutation(n);
    } else {
      LastButOneOnGrid(n, block);
      var i := ReadsGoBack(n, stride, 0, block);
      var r := Reads(n, n, stride, 0, 0, block);
      Twice(r, r[i], i);
    }
  }

  lemma NothingRead(stride: nat, block: nat)
    requires stride > 0
    ensures Permutation(Reads(0, 0, stride, 0, 0, block), 0)
  {
  }

  lemma RangeIsPermutation(n: nat)
    ensures Permutation(Range(0, n), n)
  {
    var r := Range(0, n);
    forall x: nat ensures x in r <==> x < n {
      assert x < n ==> r[x] == x;
    }
  }

  lemma Twice(s: seq<nat>, i: nat, j: nat)
    requires i < j < |s| && s[i] == s[j]
    ensures !Sequences.NoDuplicates(s)
  {
  }
}
