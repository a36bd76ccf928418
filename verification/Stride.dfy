/** The order in which the strided copy programs visit the positions of a file. Both programs keep a
    position, a count and a block size in size_t variables; `Reads` and `Writes` follow them step by
    step. For strides shorter than the file `Order` is what they do while nothing wraps around, column
    by column: a permutation of the positions, sorted by columns of blocks. The reading loop follows it
    to the end, and the writing loop follows the order of the file whose cut block is made whole. */
module Stride {
  import opened Arithmetic
  import opened Sequences

  const SIZE_LIMIT := 0x8000_0000_0000_0000 // a file size that is not negative as ssize_t is below this

  function Range(from: nat, len: nat): (r: seq<nat>)
    ensures |r| == len && forall i | 0 <= i < len :: r[i] == from + i
  {
    seq(len, i requires 0 <= i < len => from + i)
  }

  /** File position and block size after a block, in size_t arithmetic. */
  function NextPos(n: nat, stride: nat, pos: nat, block: nat): nat
    requires stride > 0
  {
    var p := (pos + stride) % WORD;
    if p >= n then (p % stride + block) % WORD else p
  }

  function NextBlock(n: nat, stride: nat, pos: nat, block: nat): nat
    requires stride > 0
  {
    var p := NextPos(n, stride, pos, block);
    if (pos + stride) % WORD >= n && (p + block) % WORD > stride then (stride - p) % WORD else block
  }

  /** The positions that the loop of stridecat61 reads, in order, for a size of `n` and a file of
      `length` bytes. */
  function Reads(n: nat, length: nat, stride: nat, pos: nat, written: nat, block: nat): (ps: seq<nat>)
    requires stride > 0
    ensures forall i | 0 <= i < |ps| :: ps[i] < length
    decreases n - written
  {
    var amount := if pos >= length then 0 else Min(block, length - pos);
    if written >= n || amount == 0 then []
    else Range(pos, amount) +
         Reads(n, length, stride, NextPos(n, stride, pos, block), written + amount, NextBlock(n, stride, pos, block))
  }

  /** The positions that the loop of ostridecat61 writes, in order. */
  function Writes(n: nat, stride: nat, pos: nat, written: nat, block: nat): (ps: seq<nat>)
    requires stride > 0
    ensures |ps| + written <= Max(n, written)
    decreases n - written
  {
    var amount := if written >= n then 0 else Min(block, n - written);
    if amount == 0 then []
    else Range(pos, amount) +
         Writes(n, stride, NextPos(n, stride, pos, block), written + amount, NextBlock(n, stride, pos, block))
  }

  // ---------------------------------------------------------------------
  // Permutations

  /** Every position below `n` exactly once. */
  ghost predicate Permutation(s: seq<nat>, n: nat) {
    |s| == n && NoDuplicates(s) && forall x: nat :: x in s <==> x < n
  }

  function Elements(s: seq<nat>): set<nat> { set x | x in s }

  lemma {:induction false} CountElements(s: seq<nat>)
    requires NoDuplicates(s)
    ensures |Elements(s)| == |s|
  {
    if s != [] {
      var n := |s| - 1;
      CountElements(s[..n]);
      assert Elements(s) == Elements(s[..n]) + {s[n]};
    }
  }

  function Below(n: nat): (xs: set<nat>)
    ensures |xs| == n && forall x: nat :: x in xs <==> x < n
  {
    if n == 0 then {} else Below(n - 1) + {n - 1}
  }

  lemma CoverIsPermutation(s: seq<nat>, n: nat)
    requires NoDuplicates(s) && forall x: nat :: x in s <==> x < n
    ensures Permutation(s, n)
  {
    CountElements(s);
    assert Elements(s) == Below(n);
  }

  // ---------------------------------------------------------------------
  // Strides shorter than the file: column by column

  function At(stride: nat, row: nat, column: nat): nat { row * stride + column }

  lemma AtNext(stride: nat, row: nat, column: nat)
    ensures At(stride, 0, column) == column && At(stride, row + 1, column) == At(stride, row, column) + stride
  {
  }

  /** The positions from row `row` of the columns of the block on: down the columns, and then
      through the columns to the right. */
  function Order(n: nat, stride: nat, row: nat, column: nat, block: nat): seq<nat>
    requires column + block <= stride
    decreases stride - column, n - At(stride, row, column)
  {
    var pos := At(stride, row, column);
    AtNext(stride, row, column);
    if pos >= n || block == 0 then []
    else if pos + stride < n then
      Range(pos, Min(block, n - pos)) + Order(n, stride, row + 1, column, block)
    else if column + block == stride then Range(pos, Min(block, n - pos))
    else Range(pos, Min(block, n - pos)) + Order(n, stride, 0, column + block, Min(block, stride - column - block))
  }

  /** `x` is still to come: it is in a later column, or in the same columns and not above the row. */
  predicate ToCome(stride: nat, row: nat, column: nat, block: nat, x: nat)
    requires stride > 0
  {
    x % stride >= column + block || (x % stride >= column && x / stride >= row)
  }

  /** The block at a position is what its columns have in that row. */
  lemma BlockIsRowPart(stride: nat, row: nat, column: nat, block: nat, x: nat)
    requires stride > 0 && column + block <= stride
    ensures At(stride, row, column) <= x < At(stride, row, column) + block <==>
            x / stride == row && column <= x % stride < column + block
  {
    assert x == x / stride * stride + x % stride;
    if At(stride, row, column) <= x < At(stride, row, column) + block {
      DivUnique(row, x - row * stride, stride);
    }
  }

  /** What is further down in these columns is at least a stride away. */
  lemma RowBelow(stride: nat, row: nat, column: nat, x: nat)
    requires stride > 0 && x % stride >= column && x / stride > row
    ensures x >= At(stride, row, column) + stride
  {
    assert x == x / stride * stride + x % stride;
    TimesMonotone(row + 1, x / stride, stride);
    AtNext(stride, row, column);
  }

  /** `order` lists what is to come from here, each position once. */
  ghost predicate Lists(order: seq<nat>, n: nat, stride: nat, row: nat, column: nat, block: nat)
    requires stride > 0
  {
    NoDuplicates(order) && forall x: nat :: x in order <==> x < n && ToCome(stride, row, column, block, x)
  }

  /** A range and what follows it list a set of positions, if that set is split into the two. */
  lemma AppendLists(n: nat, stride: nat, range: seq<nat>, rest: seq<nat>, row: nat, column: nat, block: nat)
    requires stride > 0 && NoDuplicates(range) && NoDuplicates(rest)
    requires forall x: nat | x in range :: x !in rest
    requires forall x: nat :: x in range || x in rest <==> x < n && ToCome(stride, row, column, block, x)
    ensures Lists(range + rest, n, stride, row, column, block)
  {
    hide ToCome;
    var s := range + rest;
    DisjointConcat(range, rest);
    forall x: nat ensures x in s <==> x in range || x in rest {
    }
  }

  predicate InBlock(n: nat, stride: nat, row: nat, column: nat, block: nat, x: nat)
    requires stride > 0
  {
    x < n && x / stride == row && column <= x % stride < column + block
  }

  lemma RangeIsBlock(n: nat, stride: nat, row: nat, column: nat, block: nat)
    requires stride > 0 && column + block <= stride && At(stride, row, column) <= n
    ensures var pos := At(stride, row, column);
            var range := Range(pos, Min(block, n - pos));
            NoDuplicates(range) && forall x: nat :: x in range <==> InBlock(n, stride, row, column, block, x)
  {
    var pos := At(stride, row, column);
    var range := Range(pos, Min(block, n - pos));
    forall x: nat ensures x in range <==> InBlock(n, stride, row, column, block, x) {
      BlockIsRowPart(stride, row, column, block, x);
      if InBlock(n, stride, row, column, block, x) {
        assert range[x - pos] == x;
      }
    }
  }

  lemma SplitDown(n: nat, stride: nat, row: nat, column: nat, block: nat, x: nat)
    requires stride > 0
    ensures x < n && ToCome(stride, row, column, block, x) <==>
            InBlock(n, stride, row, column, block, x) || (x < n && ToCome(stride, row + 1, column, block, x))
    ensures InBlock(n, stride, row, column, block, x) ==> !ToCome(stride, row + 1, column, block, x)
  {
  }

  /** In the last row of a block what is to come is the block and the columns to its right. */
  lemma SplitRight(n: nat, stride: nat, row: nat, column: nat, block: nat, next: nat, x: nat)
    requires stride > 0 && At(stride, row, column) + stride >= n
    ensures x < n && ToCome(stride, row, column, block, x) <==>
            InBlock(n, stride, row, column, block, x) || (x < n && ToCome(stride, 0, column + block, next, x))
    ensures InBlock(n, stride, row, column, block, x) ==> !ToCome(stride, 0, column + block, next, x)
    ensures x < n && (column + block >= stride || column + block >= n) ==> !ToCome(stride, 0, column + block, next, x)
  {
    if x < n && x % stride >= column && x / stride > row {
      RowBelow(stride, row, column, x);
    }
  }

  lemma {:induction false} OrderLists(n: nat, stride: nat, row: nat, column: nat, block: nat)
    requires stride > 0 && column + block <= stride && block > 0 && At(stride, row, column) < n
    ensures Lists(Order(n, stride, row, column, block), n, stride, row, column, block)
    decreases stride - column, n - At(stride, row, column)
  {
    hide Range, ToCome, InBlock, NoDuplicates, At;
    AtNext(stride, row, column);
    AtNext(stride, 0, column + block);
    var pos := At(stride, row, column);
    var range := Range(pos, Min(block, n - pos));
    RangeIsBlock(n, stride, row, column, block);
    if pos + stride < n {
      var rest := Order(n, stride, row + 1, column, block);
      OrderLists(n, stride, row + 1, column, block);
      forall x: nat
        ensures x in range || x in rest <==> x < n && ToCome(stride, row, column, block, x)
        ensures x in range ==> x !in rest
      {
        SplitDown(n, stride, row, column, block, x);
      }
      AppendLists(n, stride, range, rest, row, column, block);
    } else {
      var next := if column + block < stride then Min(block, stride - column - block) else 0;
      var rest := if column + block < stride then Order(n, stride, 0, column + block, next) else [];
      if column + block < stride && column + block < n {
        OrderLists(n, stride, 0, column + block, next);
      }
      forall x: nat
        ensures x in range || x in rest <==> x < n && ToCome(stride, row, column, block, x)
        ensures x in range ==> x !in rest
      {
        SplitRight(n, stride, row, column, block, next, x);
      }
      NoneEmpty();
      AppendLists(n, stride, range, rest, row, column, block);
      assert range + [] == range;
    }
  }

  lemma NoneEmpty()
    ensures NoDuplicates([])
  {
  }

  lemma AllToCome(stride: nat, block: nat, x: nat)
    requires stride > 0
    ensures ToCome(stride, 0, 0, block, x)
  {
  }

  lemma OrderIsPermutation(n: nat, stride: nat, block: nat)
    requires 0 < block <= stride
    ensures Permutation(Order(n, stride, 0, 0, block), n)
  {
    if n > 0 {
      hide Order, ToCome, NoDuplicates;
      OrderLists(n, stride, 0, 0, block);
      forall x: nat ensures ToCome(stride, 0, 0, block, x) {
        AllToCome(stride, block, x);
      }
      CoverIsPermutation(Order(n, stride, 0, 0, block), n);
    }
  }

  // ---------------------------------------------------------------------
  // The loops follow that order

  /** Position and block size after a block, while no sum leaves the word. */
  lemma NextSmall(n: nat, stride: nat, pos: nat, column: nat, block: nat)
    requires stride > 0 && pos + stride < WORD && column + block + block < WORD && (pos + stride) % stride == column
    ensures pos + stride < n ==>
              NextPos(n, stride, pos, block) == pos + stride && NextBlock(n, stride, pos, block) == block
    ensures pos + stride >= n && column + block <= stride < WORD ==>
              && NextPos(n, stride, pos, block) == column + block
              && NextBlock(n, stride, pos, block) == Min(block, stride - column - block)
  {
    SmallModulus(pos + stride, WORD);
    if pos + stride >= n && column + block <= stride < WORD {
      assert NextPos(n, stride, pos, block) == column + block by { SmallModulus(column + block, WORD); }
      SmallModulus(column + block + block, WORD);
      SmallModulus(stride - column - block, WORD);
      hide NextPos;
    }
  }

  lemma NextInOrder(n: nat, stride: nat, row: nat, column: nat, block: nat)
    requires 0 < block && column + block <= stride < n < SIZE_LIMIT && At(stride, row, column) < n
    ensures var pos := At(stride, row, column);
            && (pos + stride < n ==>
                  && NextPos(n, stride, pos, block) == At(stride, row + 1, column)
                  && NextBlock(n, stride, pos, block) == block)
            && (pos + stride >= n ==>
                  && NextPos(n, stride, pos, block) == At(stride, 0, column + block)
                  && NextBlock(n, stride, pos, block) == Min(block, stride - column - block))
  {
    hide NextPos, NextBlock;
    AtNext(stride, row, column);
    AtNext(stride, row, column + block);
    DivUnique(row + 1, column, stride);
    NextSmall(n, stride, At(stride, row, column), column, block);
  }

  lemma {:induction false} ReadsInOrder(n: nat, stride: nat, row: nat, column: nat, block: nat, written: nat)
    requires column + block <= stride < n < SIZE_LIMIT && stride > 0
    requires written + |Order(n, stride, row, column, block)| == n
    ensures Reads(n, n, stride, At(stride, row, column), written, block) == Order(n, stride, row, column, block)
    decreases stride - column, n - At(stride, row, column)
  {
    hide NextPos, NextBlock, At;
    var pos := At(stride, row, column);
    if pos < n && block > 0 {
      var amount := Min(block, n - pos);
      AtNext(stride, row, column);
      NextInOrder(n, stride, row, column, block);
      if pos + stride < n {
        ReadsInOrder(n, stride, row + 1, column, block, written + amount);
      } else if column + block < stride {
        ReadsInOrder(n, stride, 0, column + block, Min(block, stride - column - block), written + amount);
      } else {
        assert Range(pos, amount) + [] == Range(pos, amount);
      }
    }
  }

  // ---------------------------------------------------------------------
  // The order, said of two positions

  /** `x` comes before `y`: in blocks of columns further left, or in the same ones and in a row above,
      or in the same row and further left. */
  predicate Precedes(stride: nat, block: nat, x: nat, y: nat)
    requires 0 < stride && 0 < block
  {
    var i, j := x % stride / block, y % stride / block;
    i < j || (i == j && (x / stride < y / stride || (x / stride == y / stride && x % stride < y % stride)))
  }

  /** `order` is sorted. */
  ghost predicate ByColumns(order: seq<nat>, stride: nat, block: nat)
    requires 0 < stride && 0 < block
  {
    forall i, j | 0 <= i < j < |order| :: Precedes(stride, block, order[i], order[j])
  }

  /** Where blocks of the original size start. */
  predicate OnGrid(column: nat, original: nat)
    requires 0 < original
  {
    column / original * original == column
  }

  lemma GridNext(column: nat, original: nat)
    requires 0 < original && OnGrid(column, original)
    ensures OnGrid(column + original, original)
  {
    var q := column / original;
    assert (q + 1) * original == column + original;
    DivUnique(q + 1, 0, original);
  }

  /** The columns of a block, and those to its right, are where they are on the grid. */
  lemma GridColumn(column: nat, x: nat, original: nat)
    requires 0 < original && OnGrid(column, original)
    ensures column <= x < column + original <==> x / original == column / original
    ensures x >= column + original ==> x / original > column / original
  {
    var q := x / original;
    assert x == q * original + x % original;
    if column <= x < column + original {
      DivUnique(column / original, x - column, original);
    } else if x >= column + original && q <= column / original {
      TimesMonotone(q, column / original, original);
    }
  }

  /** What is to come after a block comes after it. */
  lemma BlockPrecedes(n: nat, stride: nat, row: nat, column: nat, block: nat, original: nat, x: nat, y: nat)
    requires column < stride && 0 < original && OnGrid(column, original) && block == Min(original, stride - column)
    requires InBlock(n, stride, row, column, block, x)
    requires ToCome(stride, row + 1, column, block, y) || y % stride >= column + block
    ensures Precedes(stride, original, x, y)
  {
    GridColumn(column, x % stride, original);
    GridColumn(column, y % stride, original);
  }

  lemma RangePrecedes(n: nat, stride: nat, row: nat, column: nat, block: nat, original: nat, x: nat, y: nat)
    requires column < stride && 0 < original && OnGrid(column, original) && block == Min(original, stride - column)
    requires InBlock(n, stride, row, column, block, x) && InBlock(n, stride, row, column, block, y)
    requires x < y
    ensures Precedes(stride, original, x, y)
  {
    GridColumn(column, x % stride, original);
    GridColumn(column, y % stride, original);
    assert x == x / stride * stride + x % stride && y == y / stride * stride + y % stride;
  }

  lemma AppendByColumns(range: seq<nat>, rest: seq<nat>, stride: nat, block: nat)
    requires 0 < stride && 0 < block && ByColumns(range, stride, block) && ByColumns(rest, stride, block)
    requires forall x, y | x in range && y in rest :: Precedes(stride, block, x, y)
    ensures ByColumns(range + rest, stride, block)
  {
    hide Precedes;
  }

  lemma RangeByColumns(n: nat, stride: nat, row: nat, column: nat, block: nat, original: nat)
    requires column < stride && 0 < original && OnGrid(column, original) && block == Min(original, stride - column)
    requires At(stride, row, column) <= n
    ensures ByColumns(Range(At(stride, row, column), Min(block, n - At(stride, row, column))), stride, original)
  {
    hide Precedes, InBlock, OnGrid;
    var pos := At(stride, row, column);
    var range := Range(pos, Min(block, n - pos));
    RangeIsBlock(n, stride, row, column, block);
    forall i, j | 0 <= i < j < |range| ensures Precedes(stride, original, range[i], range[j]) {
      assert range[i] in range && range[j] in range;
      RangePrecedes(n, stride, row, column, block, original, range[i], range[j]);
    }
  }

  lemma {:induction false} OrderGoesByColumns(n: nat, stride: nat, row: nat, column: nat, block: nat, original: nat)
    requires 0 < original && OnGrid(column, original) && column < stride && block == Min(original, stride - column)
    requires At(stride, row, column) < n
    ensures ByColumns(Order(n, stride, row, column, block), stride, original)
    decreases stride - column, n - At(stride, row, column)
  {
    hide Range, ToCome, InBlock, NoDuplicates, At, ByColumns, Precedes, OnGrid;
    AtNext(stride, row, column);
    AtNext(stride, 0, column + block);
    var pos := At(stride, row, column);
    var range := Range(pos, Min(block, n - pos));
    RangeIsBlock(n, stride, row, column, block);
    RangeByColumns(n, stride, row, column, block, original);
    if pos + stride < n {
      var rest := Order(n, stride, row + 1, column, block);
      OrderLists(n, stride, row + 1, column, block);
      OrderGoesByColumns(n, stride, row + 1, column, block, original);
      forall x, y | x in range && y in rest ensures Precedes(stride, original, x, y) {
        BlockPrecedes(n, stride, row, column, block, original, x, y);
      }
      AppendByColumns(range, rest, stride, original);
    } else if column + block < stride {
      GridNext(column, original);
      var next := Min(original, stride - column - block);
      var rest := Order(n, stride, 0, column + block, next);
      if column + block < n {
        OrderLists(n, stride, 0, column + block, next);
        OrderGoesByColumns(n, stride, 0, column + block, next, original);
        forall x, y | x in range && y in rest ensures Precedes(stride, original, x, y) {
          ComesRight(stride, column + block, next, y);
          BlockPrecedes(n, stride, row, column, block, original, x, y);
        }
        AppendByColumns(range, rest, stride, original);
      } else {
        assert range + [] == range;
      }
    }
  }

  lemma ComesRight(stride: nat, column: nat, block: nat, y: nat)
    requires stride > 0 && ToCome(stride, 0, column, block, y)
    ensures y % stride >= column
  {
  }

  /** The loop visits the positions by columns of blocks. With `OrderIsPermutation` this leaves one
      order only. */
  lemma OrderIsByColumns(n: nat, stride: nat, block: nat)
    requires 0 < block <= stride
    ensures ByColumns(Order(n, stride, 0, 0, block), stride, block)
  {
    AtNext(stride, 0, 0);
    if n > 0 {
      OrderGoesByColumns(n, stride, 0, 0, block, block);
    }
  }

  // ---------------------------------------------------------------------
  // Writing in that order

  /** In the last, incomplete row no block but the last of all is cut short. */
  predicate EvenRows(n: nat, stride: nat, block: nat)
    requires 0 < block && 0 < stride
  {
    n < stride || n % stride % block == 0 || n % stride / block * block + block >= stride
  }

  lemma GridGap(column: nat, next: nat, original: nat)
    requires 0 < original && OnGrid(column, original) && OnGrid(next, original) && column < next
    ensures column + original <= next
  {
    var q, r := column / original, next / original;
    if r <= q {
      TimesMonotone(r, q, original);
    } else {
      TimesMonotone(q + 1, r, original);
    }
  }

  /** The column of the block that the end of the file would cut. */
  function EndColumn(n: nat, stride: nat, original: nat): nat
    requires 0 < original && 0 < stride
  {
    n % stride / original * original
  }

  lemma EndColumnOnGrid(n: nat, stride: nat, original: nat)
    requires 0 < original && 0 < stride
    ensures OnGrid(EndColumn(n, stride, original), original)
    ensures EndColumn(n, stride, original) <= n % stride < EndColumn(n, stride, original) + original
  {
    DivUnique(n % stride / original, 0, original);
  }

  /** A block that the end of the file cuts is in the row of the end, at that column. */
  lemma CutBlock(n: nat, stride: nat, row: nat, column: nat, block: nat, original: nat)
    requires 0 < original && block <= original && column + block <= stride && OnGrid(column, original)
    requires At(stride, row, column) < n < At(stride, row, column) + block
    ensures n % stride % original != 0 && EndColumn(n, stride, original) == column
  {
    var rest := n - row * stride;
    DivUnique(row, rest, stride);
    DivUnique(column / original, rest - column, original);
  }

  lemma SameRow(row: nat, end: nat, e: nat, stride: nat)
    requires 0 < e < stride && row * stride < end * stride + e <= row * stride + stride
    ensures row == end
  {
    if row < end {
      TimesMonotone(row + 1, end, stride);
    } else if row > end {
      TimesMonotone(end + 1, row, stride);
    }
  }

  /** The column of the end, in the last row that reaches down to it, is where the end cuts. */
  lemma EndIsCut(n: nat, stride: nat, row: nat, original: nat)
    requires 0 < original && 0 < stride && n % stride % original != 0
    requires var pos := At(stride, row, EndColumn(n, stride, original)); pos < n <= pos + stride
    ensures n < At(stride, row, EndColumn(n, stride, original)) + original
  {
    var rest, column, end := n % stride, EndColumn(n, stride, original), n / stride;
    EndColumnRest(n, stride, original);
    hide EndColumn;
    assert n == At(stride, end, 0) + rest && At(stride, row, column) == At(stride, row, 0) + column;
    RowOfEnd(row, end, rest - column, stride, n - column);
  }

  lemma RowOfEnd(row: nat, end: nat, e: nat, stride: nat, x: nat)
    requires 0 < e < stride && At(stride, row, 0) < x <= At(stride, row, 0) + stride && x == At(stride, end, 0) + e
    ensures row == end
  {
    SameRow(row, end, e, stride);
  }

  lemma EndColumnRest(n: nat, stride: nat, original: nat)
    requires 0 < original && 0 < stride && n % stride % original != 0
    ensures var rest, column := n % stride, EndColumn(n, stride, original);
            0 < rest - column < stride && rest < column + original && n == n / stride * stride + rest
  {
    assert n % stride == EndColumn(n, stride, original) + n % stride % original;
  }

  /** Told to read less than the whole file, the loop goes through the first `n` positions as if they
      were the file, if no block reaches past them. */
  lemma {:induction false} ReadsPart(n: nat, length: nat, stride: nat, row: nat, column: nat, block: nat,
                                     original: nat, written: nat)
    requires 0 < stride < n <= length && n < SIZE_LIMIT && 0 < original && n % stride % original == 0
    requires column <= stride && OnGrid(column, original) && block == Min(original, stride - column)
    requires written + |Order(n, stride, row, column, block)| == n
    ensures Reads(n, length, stride, At(stride, row, column), written, block)
            == Order(n, stride, row, column, block)
    decreases stride - column, n - At(stride, row, column)
  {
    hide NextPos, NextBlock, At, OnGrid, Range;
    var pos := At(stride, row, column);
    if pos < n && block > 0 {
      AtNext(stride, row, column);
      if n < pos + block {
        CutBlock(n, stride, row, column, block, original);
      }
      NextInOrder(n, stride, row, column, block);
      if pos + stride < n {
        ReadsPart(n, length, stride, row + 1, column, block, original, written + block);
      } else if column + block < stride {
        GridNext(column, original);
        ReadsPart(n, length, stride, 0, column + block, Min(block, stride - column - block), original, written + block);
      } else {
        assert Range(pos, block) + [] == Range(pos, block);
      }
    }
  }

  /** A file in even rows is written in the order in which it is read. */
  lemma {:induction false} WritesInOrder(n: nat, stride: nat, row: nat, column: nat, block: nat, original: nat,
                                         written: nat)
    requires 0 < stride < n < SIZE_LIMIT && 0 < original && EvenRows(n, stride, original)
    requires column <= stride && OnGrid(column, original) && block == Min(original, stride - column)
    requires written + |Order(n, stride, row, column, block)| == n
    ensures Writes(n, stride, At(stride, row, column), written, block) == Order(n, stride, row, column, block)
    decreases stride - column, n - At(stride, row, column)
  {
    hide NextPos, NextBlock, At, OnGrid, Writes, Range, EvenRows;
    var pos := At(stride, row, column);
    if pos < n && block > 0 {
      var amount := Min(block, n - pos);
      AtNext(stride, row, column);
      if n < pos + block {
        CutBlockIsLast(n, stride, row, column, block, original);
      }
      assert Min(block, n - written) == amount;
      NextInOrder(n, stride, row, column, block);
      if pos + stride < n {
        WritesInOrder(n, stride, row + 1, column, block, original, written + amount);
        WritesFirst(n, stride, pos, written, block, At(stride, row + 1, column), block);
      } else {
        var next, rest := At(stride, 0, column + block), Min(block, stride - column - block);
        if column + block < stride {
          GridNext(column, original);
          WritesInOrder(n, stride, 0, column + block, rest, original, written + amount);
        } else {
          WritesNothing(n, stride, next, written + amount, rest);
          assert Range(pos, amount) + [] == Range(pos, amount);
        }
        WritesFirst(n, stride, pos, written, block, next, rest);
      }
    } else {
      WritesNothing(n, stride, pos, written, block);
    }
  }

  lemma WritesNothing(n: nat, stride: nat, pos: nat, written: nat, block: nat)
    requires 0 < stride && (written >= n || block == 0)
    ensures Writes(n, stride, pos, written, block) == []
  {
  }

  /** In a file with even rows only a block at the end of the row can be cut. */
  lemma CutBlockIsLast(n: nat, stride: nat, row: nat, column: nat, block: nat, original: nat)
    requires column <= stride < n && 0 < original && 0 < stride && EvenRows(n, stride, original)
    requires OnGrid(column, original) && block == Min(original, stride - column)
    requires At(stride, row, column) < n < At(stride, row, column) + block
    ensures column + block == stride
  {
    hide At, OnGrid;
    CutBlock(n, stride, row, column, block, original);
  }

  lemma WritesFirst(n: nat, stride: nat, pos: nat, written: nat, block: nat, next: nat, nextBlock: nat)
    requires 0 < stride && written < n && 0 < block
    requires next == NextPos(n, stride, pos, block) && nextBlock == NextBlock(n, stride, pos, block)
    ensures var amount := Min(block, n - written);
            Writes(n, stride, pos, written, block)
            == Range(pos, amount) + Writes(n, stride, next, written + amount, nextBlock)
  {
    hide NextPos, NextBlock, Range;
  }

  // ---------------------------------------------------------------------
  // Writing in any file

  /** The row in which a file ends. */
  function LastRow(n: nat, stride: nat): nat
    requires 0 < stride
  {
    n / stride
  }

  /** A file's size, with the block that its end cuts made whole. */
  function WholeSize(n: nat, stride: nat, original: nat): nat
    requires 0 < original && 0 < stride
  {
    if n % stride % original == 0 then n
    else At(stride, LastRow(n, stride), Min(EndColumn(n, stride, original) + original, stride))
  }

  lemma AtColumn(stride: nat, row: nat, column: nat)
    ensures At(stride, row, column) == At(stride, row, 0) + column
  {
  }

  lemma RowsApart(stride: nat, row: nat, below: nat)
    requires row < below
    ensures At(stride, row, 0) + stride <= At(stride, below, 0)
  {
    TimesMonotone(row + 1, below, stride);
  }

  lemma EndsInRow(n: nat, stride: nat)
    requires 0 < stride
    ensures n == At(stride, LastRow(n, stride), 0) + n % stride
  {
  }

  lemma WholeSizeIs(n: nat, stride: nat, original: nat)
    requires 0 < original && 0 < stride
    ensures var whole, start := WholeSize(n, stride, original), At(stride, LastRow(n, stride), 0);
            && n <= whole <= start + stride
            && (whole == n || whole == start + Min(EndColumn(n, stride, original) + original, stride))
  {
    hide At, EndColumn, LastRow;
    EndsInRow(n, stride);
    EndColumnOnGrid(n, stride, original);
    AtColumn(stride, LastRow(n, stride), Min(EndColumn(n, stride, original) + original, stride));
    if n % stride % original != 0 {
      EndColumnRest(n, stride, original);
    }
  }

  lemma ColumnOf(stride: nat, row: nat, column: nat)
    requires column < stride
    ensures At(stride, row, column) % stride == column
  {
    DivUnique(row, column, stride);
  }

  lemma RowEnd(stride: nat, row: nat)
    requires 0 < stride
    ensures At(stride, row, stride) % stride == 0
  {
    AtNext(stride, row, 0);
    hide At;
    AtColumn(stride, row, stride);
    ColumnOf(stride, row + 1, 0);
  }

  /** The whole size ends on the grid or at the end of a row. */
  lemma WholeSizeOnGrid(n: nat, stride: nat, original: nat)
    requires 0 < original && 0 < stride
    ensures WholeSize(n, stride, original) % stride % original == 0
  {
    var row, column := LastRow(n, stride), EndColumn(n, stride, original);
    EndColumnOnGrid(n, stride, original);
    hide At, EndColumn;
    GridNext(column, original);
    if column + original < stride {
      ColumnOf(stride, row, column + original);
    }
    RowEnd(stride, row);
    SmallModulus(0, original);
    DivUnique((column + original) / original, 0, original);
  }

  /** Blocks start below the size exactly if they start below the whole size. */
  lemma StartsBelow(n: nat, stride: nat, row: nat, column: nat, original: nat)
    requires 0 < original && column < stride && OnGrid(column, original)
    ensures At(stride, row, column) < n <==> At(stride, row, column) < WholeSize(n, stride, original)
  {
    WholeSizeIs(n, stride, original);
    EndsInRow(n, stride);
    AtColumn(stride, row, column);
    var pos, end, last := At(stride, row, column), EndColumn(n, stride, original), LastRow(n, stride);
    EndColumnOnGrid(n, stride, original);
    hide At, EndColumn, WholeSize, OnGrid, LastRow;
    if n <= pos < WholeSize(n, stride, original) {
      if row < last {
        RowsApart(stride, row, last);
      } else if row > last {
        RowsApart(stride, last, row);
      } else if column > end {
        GridGap(end, column, original);
      }
    }
  }

  lemma NotBelow(n: nat, stride: nat, row: nat, column: nat, original: nat)
    requires 0 < original && column < stride && OnGrid(column, original) && At(stride, row, column) + stride >= n
    ensures At(stride, row, column) + stride >= WholeSize(n, stride, original)
  {
    AtNext(stride, row, column);
    StartsBelow(n, stride, row + 1, column, original);
  }

  /** No block is cut by the whole size. */
  lemma NotCut(n: nat, stride: nat, row: nat, column: nat, block: nat, original: nat)
    requires 0 < original && column < stride && OnGrid(column, original) && block == Min(original, stride - column)
    requires At(stride, row, column) < WholeSize(n, stride, original)
    ensures At(stride, row, column) + block <= WholeSize(n, stride, original)
  {
    var whole := WholeSize(n, stride, original);
    WholeSizeOnGrid(n, stride, original);
    hide WholeSize;
    if whole < At(stride, row, column) + block {
      CutBlock(whole, stride, row, column, block, original);
    }
  }

  lemma CutPrefix(whole: nat, pos: nat, block: nat, rest: seq<nat>, k: nat)
    requires pos + block <= whole && k <= block + |rest|
    ensures (Range(pos, Min(block, whole - pos)) + rest)[..k]
            == if k <= block then Range(pos, k) else Range(pos, block) + rest[..k - block]
  {
  }

  /** What is written goes in the order of the file whose last block is whole, and ends with the input. */
  lemma {:induction false} WritesWhole(n: nat, stride: nat, row: nat, column: nat, block: nat, original: nat,
                                       written: nat)
    requires 0 < stride < n < SIZE_LIMIT && 0 < original && written <= n
    requires column < stride && OnGrid(column, original) && block == Min(original, stride - column)
    requires var whole := WholeSize(n, stride, original);
             written + |Order(whole, stride, row, column, block)| == whole && n <= whole
    ensures Writes(n, stride, At(stride, row, column), written, block)
            == Order(WholeSize(n, stride, original), stride, row, column, block)[..n - written]
    decreases stride - column, n - At(stride, row, column)
  {
    hide NextPos, NextBlock, At, OnGrid, Writes, Range, WholeSize;
    var pos, whole := At(stride, row, column), WholeSize(n, stride, original);
    StartsBelow(n, stride, row, column, original);
    if written == n {
      WritesNothing(n, stride, pos, written, block);
    } else {
      assert pos < whole;
      AtNext(stride, row, column);
      NotCut(n, stride, row, column, block, original);
      NextInOrder(n, stride, row, column, block);
      var amount, down := Min(block, n - written), pos + stride < n;
      var next := if down then At(stride, row + 1, column) else At(stride, 0, column + block);
      var nextBlock := if down then block else Min(block, stride - column - block);
      var rest := Behind(whole, stride, row, column, block);
      if down {
        StartsBelow(n, stride, row + 1, column, original);
      } else {
        NotBelow(n, stride, row, column, original);
      }
      OrderFirst(whole, stride, row, column, block);
      WritesFirst(n, stride, pos, written, block, next, nextBlock);
      CutPrefix(whole, pos, block, rest, n - written);
      hide Order;
      if written + amount == n {
        WritesNothing(n, stride, next, n, nextBlock);
        AddNothing(Range(pos, amount));
      } else if down {
        WritesWhole(n, stride, row + 1, column, block, original, written + block);
      } else {
        GridNext(column, original);
        WritesWhole(n, stride, 0, column + block, nextBlock, original, written + block);
      }
    }
  }

  /** What follows a block in the order. */
  function Behind(n: nat, stride: nat, row: nat, column: nat, block: nat): seq<nat>
    requires column + block <= stride
  {
    if At(stride, row, column) + stride < n then Order(n, stride, row + 1, column, block)
    else if column + block < stride then Order(n, stride, 0, column + block, Min(block, stride - column - block))
    else []
  }

  lemma OrderFirst(n: nat, stride: nat, row: nat, column: nat, block: nat)
    requires column + block <= stride && 0 < block && At(stride, row, column) + block <= n
    ensures Order(n, stride, row, column, block)
            == Range(At(stride, row, column), block) + Behind(n, stride, row, column, block)
  {
    hide Range, At;
    AddNothing(Range(At(stride, row, column), block));
  }

  lemma AddNothing(s: seq<nat>)
    ensures s + [] == s
  {
  }

  lemma WritesByColumns(n: nat, stride: nat, block: nat)
    requires 0 < block <= stride < n < SIZE_LIMIT
    ensures var order := Order(WholeSize(n, stride, block), stride, 0, 0, block);
            n <= |order| && Writes(n, stride, 0, 0, block) == order[..n]
  {
    hide Order, Writes, WholeSize, Permutation;
    AtNext(stride, 0, 0);
    WholeSizeIs(n, stride, block);
    var whole := WholeSize(n, stride, block);
    OrderIsPermutation(whole, stride, block);
    PermutationLength(Order(whole, stride, 0, 0, block), whole);
    WritesWhole(n, stride, 0, 0, block, block, 0);
  }

  lemma PermutationLength(s: seq<nat>, n: nat)
    requires Permutation(s, n)
    ensures |s| == n
  {
  }

  /** In other files a write goes past the end. */
  lemma {:induction false} WritesPastEnd(n: nat, stride: nat, row: nat, column: nat, original: nat, written: nat)
    returns (k: nat)
    requires 0 < stride < n < SIZE_LIMIT && 0 < original && !EvenRows(n, stride, original)
    requires OnGrid(column, original) && column <= EndColumn(n, stride, original) && At(stride, row, column) < n
    requires column + original <= stride && written + |Order(n, stride, row, column, original)| == n
    ensures var w := Writes(n, stride, At(stride, row, column), written, original); k < |w| && w[k] >= n
    decreases stride - column, n - At(stride, row, column)
  {
    hide NextPos, NextBlock, At, OnGrid, Writes, Range;
    var pos := At(stride, row, column);
    AtNext(stride, row, column);
    EndColumnOnGrid(n, stride, original);
    if n < pos + original {
      CutBlock(n, stride, row, column, original, original);
      AtNext(stride, 0, column + original);
      assert |Order(n, stride, 0, column + original, Min(original, stride - column - original))| >= 1;
      var next, rest := NextPos(n, stride, pos, original), NextBlock(n, stride, pos, original);
      WritesFirst(n, stride, pos, written, original, next, rest);
      k := n - pos;
    } else {
      NextInOrder(n, stride, row, column, original);
      if pos + stride < n {
        k := WritesPastEnd(n, stride, row + 1, column, original, written + original);
        WritesFirst(n, stride, pos, written, original, At(stride, row + 1, column), original);
      } else {
        if column == EndColumn(n, stride, original) {
          EndIsCut(n, stride, row, original);
        }
        GridGap(column, EndColumn(n, stride, original), original);
        GridNext(column, original);
        AtNext(stride, 0, column + original);
        k := WritesPastEnd(n, stride, 0, column + original, original, written + original);
        WritesFirst(n, stride, pos, written, original, At(stride, 0, column + original), original);
      }
      k := k + original;
    }
  }
}
