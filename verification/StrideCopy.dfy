/** stridecat61 and ostridecat61: the copies that they make, and when one undoes the other. */
module StrideCopy {
  import opened Arithmetic
  import Sequences
  import opened Stride
  import opened StrideWide

  /** The bytes of `file` at the given positions. */
  function Gather(file: seq<Byte>, ps: seq<nat>): (bytes: seq<Byte>)
    requires forall i | 0 <= i < |ps| :: ps[i] < |file|
    ensures |bytes| == |ps| && forall i | 0 <= i < |ps| :: bytes[i] == file[ps[i]]
  {
    seq(|ps|, i requires 0 <= i < |ps| => file[ps[i]])
  }

  /** One byte written at a file position; a file grows with zeros up to it. */
  function Put(file: seq<Byte>, p: nat, b: Byte): (r: seq<Byte>)
    ensures |r| == Max(|file|, p + 1) && r[p] == b
    ensures forall x | 0 <= x < |r| && x != p :: r[x] == if x < |file| then file[x] else 0
  {
    if p < |file| then file[p := b] else file + Sequences.Repeat(0, p - |file|) + [b]
  }

  /** The file after one byte has been written at each of the positions. */
  function Scatter(file: seq<Byte>, ps: seq<nat>, bytes: seq<Byte>): seq<Byte>
    requires |ps| <= |bytes|
    decreases |ps|
  {
    if ps == [] then file else Scatter(Put(file, ps[0], bytes[0]), ps[1..], bytes[1..])
  }

  lemma {:induction false} ScatterAppend(file: seq<Byte>, a: seq<nat>, b: seq<nat>, bytes: seq<Byte>)
    requires |a| + |b| <= |bytes|
    ensures Scatter(file, a + b, bytes) == Scatter(Scatter(file, a, bytes[..|a|]), b, bytes[|a|..])
    decreases |a|
  {
    if a == [] {
      assert a + b == b && bytes[|a|..] == bytes;
    } else {
      assert (a + b)[1..] == a[1..] + b;
      ScatterAppend(Put(file, a[0], bytes[0]), a[1..], b, bytes[1..]);
      assert bytes[1..][..|a| - 1] == bytes[..|a|][1..];
      assert bytes[1..][|a| - 1..] == bytes[|a|..];
    }
  }

  lemma {:induction false} ScatterLength(file: seq<Byte>, ps: seq<nat>, bytes: seq<Byte>, n: nat)
    requires |ps| <= |bytes|
    ensures var r := Scatter(file, ps, bytes);
            && |file| <= |r| && (forall k | 0 <= k < |ps| :: ps[k] < |r|)
            && (|file| <= n && (forall k | 0 <= k < |ps| :: ps[k] < n) ==> |r| <= n)
    decreases |ps|
  {
    if ps != [] {
      ScatterLength(Put(file, ps[0], bytes[0]), ps[1..], bytes[1..], n);
      var r := Scatter(file, ps, bytes);
      forall k | 0 <= k < |ps| ensures ps[k] < |r| {
        if k > 0 {
          assert ps[k] == ps[1..][k - 1];
        }
      }
    }
  }

  /** At distinct positions, every byte is where it was put; the others are unchanged, or zeros. */
  lemma {:induction false} ScatterAt(file: seq<Byte>, ps: seq<nat>, bytes: seq<Byte>)
    requires |ps| <= |bytes| && Sequences.NoDuplicates(ps)
    ensures var r := Scatter(file, ps, bytes);
            && (forall k | 0 <= k < |ps| :: ps[k] < |r| && r[ps[k]] == bytes[k])
            && |file| <= |r| && (forall x | 0 <= x < |r| && x !in ps :: r[x] == if x < |file| then file[x] else 0)
    decreases |ps|
  {
    if ps != [] {
      var first := Put(file, ps[0], bytes[0]);
      ScatterAt(first, ps[1..], bytes[1..]);
      var r := Scatter(file, ps, bytes);
      assert ps[0] !in ps[1..];
      forall k | 0 <= k < |ps| ensures ps[k] < |r| && r[ps[k]] == bytes[k] {
        if k > 0 {
          assert ps[k] == ps[1..][k - 1] && bytes[k] == bytes[1..][k - 1];
        }
      }
    }
  }

  // ---------------------------------------------------------------------
  // The programs

  /** What the loop of stridecat61 has still to write. */
  function Rest(input: seq<Byte>, size: nat, stride: nat, pos: nat, written: nat, block: nat): seq<Byte>
    requires stride > 0
  {
    Gather(input, Reads(size, |input|, stride, pos, written, block))
  }

  /** What stridecat61 writes when it is told to copy `size` bytes. */
  function StridedTo(input: seq<Byte>, size: nat, stride: nat, block: nat): seq<Byte>
    requires stride > 0
  {
    Rest(input, size, stride, 0, 0, block)
  }

  /** What stridecat61 writes when it copies the whole file. */
  function Strided(input: seq<Byte>, stride: nat, block: nat): seq<Byte>
    requires stride > 0
  {
    StridedTo(input, |input|, stride, block)
  }

  /** What ostridecat61 leaves in its output file. */
  function Unstrided(input: seq<Byte>, stride: nat, block: nat): seq<Byte>
    requires stride > 0
  {
    Scatter([], Writes(|input|, stride, 0, 0, block), input)
  }

  lemma GatherAppend(file: seq<Byte>, a: seq<nat>, b: seq<nat>)
    requires forall i | 0 <= i < |a| :: a[i] < |file|
    requires forall i | 0 <= i < |b| :: b[i] < |file|
    ensures Gather(file, a + b) == Gather(file, a) + Gather(file, b)
  {
  }

  lemma ReadsStep(output: seq<Byte>, input: seq<Byte>, size: nat, stride: nat, pos: nat, written: nat, block: nat,
                  next: nat, nextBlock: nat)
    requires 0 < stride && written < size && 0 < block && pos < |input|
    requires next == NextPos(size, stride, pos, block) && nextBlock == NextBlock(size, stride, pos, block)
    ensures var amount := Min(block, |input| - pos);
            output + Rest(input, size, stride, pos, written, block)
            == output + input[pos..pos + amount] + Rest(input, size, stride, next, written + amount, nextBlock)
  {
    hide NextPos, NextBlock, Reads, Range;
    var amount := Min(block, |input| - pos);
    ReadsFirst(size, |input|, stride, pos, written, block, next, nextBlock);
    GatherAppend(input, Range(pos, amount), Reads(size, |input|, stride, next, written + amount, nextBlock));
    assert input[pos..pos + amount] == Gather(input, Range(pos, amount));
  }

  /** Where the loops end there is nothing left to copy. */
  lemma ReadsEnd(input: seq<Byte>, size: nat, stride: nat, pos: nat, written: nat, block: nat)
    requires 0 < stride && (written >= size || pos >= |input| || block == 0)
    ensures Rest(input, size, stride, pos, written, block) == []
  {
  }

  lemma WritesEnd(file: seq<Byte>, input: seq<Byte>, stride: nat, pos: nat, written: nat, block: nat)
    requires 0 < stride && written <= |input| && (written == |input| || block == 0)
    ensures Scatter(file, Writes(|input|, stride, pos, written, block), input[written..]) == file
  {
  }

  lemma WritesStep(file: seq<Byte>, input: seq<Byte>, stride: nat, pos: nat, written: nat, block: nat,
                   next: nat, nextBlock: nat)
    requires 0 < stride && written < |input| && 0 < block
    requires next == NextPos(|input|, stride, pos, block) && nextBlock == NextBlock(|input|, stride, pos, block)
    ensures var amount := Min(block, |input| - written);
            Scatter(file, Writes(|input|, stride, pos, written, block), input[written..])
            == Scatter(Scatter(file, Range(pos, amount), input[written..written + amount]),
                       Writes(|input|, stride, next, written + amount, nextBlock), input[written + amount..])
  {
    hide NextPos, NextBlock, Writes, Scatter, Range;
    var amount := Min(block, |input| - written);
    WritesFirst(|input|, stride, pos, written, block, next, nextBlock);
    var later := Writes(|input|, stride, next, written + amount, nextBlock);
    ScatterAppend(file, Range(pos, amount), later, input[written..]);
    assert input[written..][amount..] == input[written + amount..];
    assert input[written..][..amount] == input[written..written + amount];
  }

  /** Moves the position to the next stride. */
  method Advance(inputSize: nat, stride: nat, pos: nat, blockSize: nat) returns (pos': nat, blockSize': nat)
    requires 0 < stride < WORD
    ensures pos' == NextPos(inputSize, stride, pos, blockSize)
    ensures blockSize' == NextBlock(inputSize, stride, pos, blockSize)
  {
    pos', blockSize' := (pos + stride) % WORD, blockSize;
    if pos' >= inputSize {
      pos' := (pos' % stride + blockSize) % WORD;
      if (pos' + blockSize) % WORD > stride {
        blockSize' := (stride - pos') % WORD;
      }
    }
  }

  /** A size that is not given is -1, that is `WORD - 1`; as ssize_t it is negative, and then the size
      is that of the file. A block size that is not given is 0, and then it is 1. */
  method StrideCat(input: seq<Byte>, blockArgument: nat, stride: nat, sizeArgument: nat) returns (output: seq<Byte>)
    requires |input| < SIZE_LIMIT && 0 < stride < WORD && blockArgument < WORD && sizeArgument < WORD
    ensures var block := if blockArgument == 0 then 1 else blockArgument;
            if sizeArgument < SIZE_LIMIT then output == StridedTo(input, sizeArgument, stride, block)
            else output == Strided(input, stride, block)
  {
    hide NextPos, NextBlock, Rest;
    var blockSize: nat := if blockArgument != 0 then blockArgument else 1;
    var inputSize := sizeArgument;
    if inputSize >= SIZE_LIMIT {
      inputSize := |input|;
    }
    ghost var all := StridedTo(input, inputSize, stride, blockSize);
    output := [];
    var pos: nat, written: nat := 0, 0;
    while written < inputSize
      invariant output + Rest(input, inputSize, stride, pos, written, blockSize) == all
      decreases inputSize - written
    {
      var amount := if pos < |input| then Min(blockSize, |input| - pos) else 0;
      if amount <= 0 {
        break;
      }
      var next, nextBlock := Advance(inputSize, stride, pos, blockSize);
      ReadsStep(output, input, inputSize, stride, pos, written, blockSize, next, nextBlock);
      output := output + input[pos..pos + amount];
      written := written + amount;
      pos, blockSize := next, nextBlock;
    }
    ReadsEnd(input, inputSize, stride, pos, written, blockSize);
  }

  method OStrideCat(input: seq<Byte>, blockArgument: nat, stride: nat) returns (output: seq<Byte>)
    requires |input| < SIZE_LIMIT && 0 < stride < WORD && blockArgument < WORD
    ensures output == Unstrided(input, stride, if blockArgument == 0 then 1 else blockArgument)
  {
    hide NextPos, NextBlock, Writes, Scatter, Range;
    var blockSize: nat := if blockArgument != 0 then blockArgument else 1;
    output := [];
    var pos: nat, written: nat := 0, 0;
    while written < |input|
      invariant written <= |input|
      invariant Scatter(output, Writes(|input|, stride, pos, written, blockSize), input[written..])
                == Unstrided(input, stride, if blockArgument == 0 then 1 else blockArgument)
      decreases |input| - written
    {
      var amount := Min(blockSize, |input| - written);
      if amount <= 0 {
        break;
      }
      ghost var before := output;
      output := Scatter(output, Range(pos, amount), input[written..written + amount]);
      var next, nextBlock := Advance(|input|, stride, pos, blockSize);
      WritesStep(before, input, stride, pos, written, blockSize, next, nextBlock);
      written := written + amount;
      pos, blockSize := next, nextBlock;
    }
    WritesEnd(output, input, stride, pos, written, blockSize);
  }

  // ---------------------------------------------------------------------
  // Inverses

  /** Written where it was read, a file is itself again; and the other way round. */
  lemma SameOrderInverts(input: seq<Byte>, ps: seq<nat>)
    requires Permutation(ps, |input|) && forall i | 0 <= i < |ps| :: ps[i] < |input|
    ensures Scatter([], ps, Gather(input, ps)) == input
    ensures var out := Scatter([], ps, input); |out| == |input| && Gather(out, ps) == input
  {
    hide Scatter, Gather;
    ScatterAt([], ps, Gather(input, ps));
    ScatterAt([], ps, input);
    ScatterLength([], ps, Gather(input, ps), |input|);
    ScatterLength([], ps, input, |input|);
    var r := Scatter([], ps, Gather(input, ps));
    forall x | 0 <= x < |input| ensures x < |r| && r[x] == input[x] {
      assert x in ps;
      var k :| 0 <= k < |ps| && ps[k] == x;
    }
    if input != [] {
      assert |input| - 1 in ps;
    }
  }

  lemma WritesAsRead(n: nat, stride: nat, block: nat)
    requires n < SIZE_LIMIT && 0 < block <= stride < WORD && NoWrap(n, stride, block) && EvenRows(n, stride, block)
    ensures Writes(n, stride, 0, 0, block) == Reads(n, n, stride, 0, 0, block)
  {
    hide NextPos, NextBlock, LastButOne;
    if stride < n {
      AtNext(stride, 0, 0);
      OrderIsPermutation(n, stride, block);
      ReadsInOrder(n, stride, 0, 0, block, 0);
      WritesInOrder(n, stride, 0, 0, block, block, 0);
    } else if n > 0 {
      ReadsSequential(n, stride, 0, block, block);
      WritesSequential(n, stride, 0, block, block);
    }
  }

  /** Told to copy less than the whole file, stridecat61 copies the file cut to that size, if no block
      reaches past the cut. */
  lemma PartOfFile(input: seq<Byte>, size: nat, stride: nat, block: nat)
    requires size <= |input| && size < SIZE_LIMIT && 0 < block <= stride < WORD && NoWrap(size, stride, block)
    requires size % stride % block == 0
    ensures StridedTo(input, size, stride, block) == Strided(input[..size], stride, block)
  {
    hide NextPos, NextBlock, LastButOne, NoWrap, Reads;
    if stride < size {
      AtNext(stride, 0, 0);
      OrderIsPermutation(size, stride, block);
      ReadsInOrder(size, stride, 0, 0, block, 0);
      ReadsPart(size, |input|, stride, 0, 0, block, block, 0);
    } else if size > 0 {
      ReadsSequential(size, stride, 0, block, block);
      ReadsSequentialPart(size, |input|, stride, 0, block, block);
    } else {
      ReadsEnd(input, 0, stride, 0, 0, block);
      ReadsEnd(input[..0], 0, stride, 0, 0, block);
    }
  }

  ghost predicate Restored(input: seq<Byte>, stride: nat, block: nat)
    requires stride > 0
  {
    Unstrided(Strided(input, stride, block), stride, block) == input
  }

  /** A file in which the position does not wrap around is restored if and only if its last row is
      even; otherwise the output is longer than the file. */
  lemma UnwrappedInvertsIff(input: seq<Byte>, stride: nat, block: nat)
    requires |input| < SIZE_LIMIT && 0 < block <= stride < WORD && NoWrap(|input|, stride, block)
    ensures Restored(input, stride, block) <==> EvenRows(|input|, stride, block)
    ensures EvenRows(|input|, stride, block) ==> Strided(Unstrided(input, stride, block), stride, block) == input
    ensures !EvenRows(|input|, stride, block) ==> |Unstrided(Strided(input, stride, block), stride, block)| > |input|
  {
    hide NextPos, NextBlock, LastButOne, NoWrap, EvenRows, Reads, Writes, Scatter;
    var n, rs := |input|, Reads(|input|, |input|, stride, 0, 0, block);
    ReadsOnceIff(n, stride, block);
    var mid := Strided(input, stride, block);
    assert |mid| == n;
    if EvenRows(n, stride, block) {
      WritesAsRead(n, stride, block);
      SameOrderInverts(input, rs);
    } else {
      UnevenIsLonger(n, stride, block, mid);
    }
  }

  lemma OneRowIsEven(n: nat, stride: nat, block: nat)
    requires 0 < block <= stride && n <= stride
    ensures EvenRows(n, stride, block)
  {
    if n == stride {
      assert n % stride == 0 && 0 % block == 0;
    }
  }

  lemma UnevenIsLonger(n: nat, stride: nat, block: nat, input: seq<Byte>)
    requires |input| == n < SIZE_LIMIT && 0 < block <= stride < WORD && !EvenRows(n, stride, block)
    ensures |Unstrided(input, stride, block)| > n
  {
    hide EvenRows, Writes, NextPos, NextBlock, Order, Permutation;
    if n <= stride {
      OneRowIsEven(n, stride, block);
    }
    AtNext(stride, 0, 0);
    OrderIsPermutation(n, stride, block);
    assert |Order(n, stride, 0, 0, block)| == n by { PermutationLength(Order(n, stride, 0, 0, block), n); }
    var k := WritesPastEnd(n, stride, 0, 0, block, 0);
    ScatterLength([], Writes(n, stride, 0, 0, block), input, n);
  }

  lemma UnevenDoesNotWrap(n: nat, stride: nat, block: nat)
    requires n < SIZE_LIMIT && 0 < block <= stride && !EvenRows(n, stride, block)
    ensures NoWrap(n, stride, block)
  {
    hide LastButOne;
    if n > block {
      LastButOneOnGrid(n, block);
    }
  }

  /** If the position wraps, the last byte is never read. */
  lemma LastByteLost(input: seq<Byte>, b: Byte, stride: nat, block: nat)
    requires |input| < SIZE_LIMIT && 0 < block <= stride < WORD && !NoWrap(|input|, stride, block)
    ensures |input| > 0 && Strided(input[|input| - 1 := b], stride, block) == Strided(input, stride, block)
  {
    hide Reads, NoWrap;
    LastNeverRead(|input|, stride, block);
  }

  /** The file that ends in `b` instead is read as the same bytes, and not both are restored. */
  ghost predicate TwinLost(input: seq<Byte>, b: Byte, stride: nat, block: nat)
    requires input != [] && stride > 0
  {
    var other := input[|input| - 1 := b];
    && Strided(other, stride, block) == Strided(input, stride, block)
    && !(Restored(input, stride, block) && Restored(other, stride, block))
  }

  /** With 1 <= block <= stride: where the position does not wrap, the last row decides whether a file
      is restored. Where it wraps, the output does not depend on the last byte, so of two files that
      differ only there at most one is restored. */
  lemma UnstridedInvertsIff(input: seq<Byte>, stride: nat, block: nat)
    requires |input| < SIZE_LIMIT && 0 < block <= stride < WORD
    ensures NoWrap(|input|, stride, block) ==> (Restored(input, stride, block) <==> EvenRows(|input|, stride, block))
    ensures NoWrap(|input|, stride, block) && EvenRows(|input|, stride, block) ==>
              Strided(Unstrided(input, stride, block), stride, block) == input
    ensures !EvenRows(|input|, stride, block) ==> |Unstrided(Strided(input, stride, block), stride, block)| > |input|
    ensures !NoWrap(|input|, stride, block) ==>
              input != [] && forall b: Byte | b != input[|input| - 1] :: TwinLost(input, b, stride, block)
  {
    hide Strided, Unstrided, NoWrap, EvenRows;
    if NoWrap(|input|, stride, block) {
      UnwrappedInvertsIff(input, stride, block);
    } else {
      if !EvenRows(|input|, stride, block) {
        UnevenDoesNotWrap(|input|, stride, block);
      }
      LastByteLost(input, 0, stride, block);
      forall b: Byte | b != input[|input| - 1] ensures TwinLost(input, b, stride, block) {
        LastByteLost(input, b, stride, block);
        assert input[|input| - 1 := b][|input| - 1] == b;
      }
    }
  }

  ghost predicate AlwaysInverts(n: nat, stride: nat, block: nat)
    requires stride > 0
  {
    forall input: seq<Byte> | |input| == n :: Restored(input, stride, block)
  }

  /** With 1 <= block <= stride, ostridecat61 undoes stridecat61 on every file of size `n` if and only
      if the position does not wrap around and the last row is even. */
  lemma AlwaysInvertsIff(n: nat, stride: nat, block: nat)
    requires n < SIZE_LIMIT && 0 < block <= stride < WORD
    ensures AlwaysInverts(n, stride, block) <==> NoWrap(n, stride, block) && EvenRows(n, stride, block)
  {
    hide Restored, NoWrap, EvenRows, Strided, Unstrided;
    var zeros := Sequences.Repeat(0, n);
    UnstridedInvertsIff(zeros, stride, block);
    if NoWrap(n, stride, block) {
      forall input: seq<Byte> | |input| == n
        ensures Restored(input, stride, block) <==> EvenRows(n, stride, block)
      {
        UnstridedInvertsIff(input, stride, block);
      }
    } else {
      assert TwinLost(zeros, 1, stride, block);
      assert |zeros[n - 1 := 1]| == n;
    }
  }

  /** A block size of 1, or a stride that divides the size, is enough. */
  lemma EvenEnough(n: nat, stride: nat, block: nat)
    requires 0 < block <= stride && (block == 1 || n % stride == 0)
    ensures EvenRows(n, stride, block)
  {
  }

  /** Files for which the copy is not undone, and for which it is not a permutation. */
  lemma Counterexamples(five: seq<Byte>)
    requires |five| == 5
    ensures |Unstrided(Strided(five, 4, 2), 4, 2)| > 5
    ensures !Permutation(Reads(3, 3, WORD - 1, 0, 0, 1), 3) && EvenRows(3, WORD - 1, 1)
    ensures !AlwaysInverts(3, WORD - 1, 1)
  {
    assert !EvenRows(5, 4, 2) && NoWrap(5, 4, 2);
    assert !NoWrap(3, WORD - 1, 1);
    UnstridedInvertsIff(five, 4, 2);
    ReadsOnceIff(3, WORD - 1, 1);
    AlwaysInvertsIff(3, WORD - 1, 1);
  }
}
