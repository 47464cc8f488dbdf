/** The ChaCha-based random number generator: a 64-byte block buffer refilled from a 128-bit
    counter held as four 32-bit words. The block function (section 2.3 of RFC 8439) is left
    uninterpreted. */
module ChachaRng {
  import opened Sums
  import opened Bytes

  const BLOCK_SIZE := 64
  const KEY_SIZE := 32
  const WORD := 0x1_0000_0000

  newtype word = x: int | 0 <= x < WORD

  type Block = b: Bytes | |b| == 64 witness seq(64, _ => 0)

  datatype Counter = Counter(w0: word, w1: word, w2: word, w3: word)

  type BlockFunction = (Bytes, Counter) -> Block

  // ----- The stream the generator should produce

  /** The four words of n, least significant first; what exceeds 128 bits is dropped. */
  function CounterOf(n: nat): Counter
  {
    var q1 := n / WORD;
    var q2 := q1 / WORD;
    var q3 := q2 / WORD;
    Counter((n % WORD) as word, (q1 % WORD) as word, (q2 % WORD) as word, (q3 % WORD) as word)
  }

  function CounterValue(c: Counter): nat
  {
    c.w0 as nat + WORD * (c.w1 as nat + WORD * (c.w2 as nat + WORD * c.w3 as nat))
  }

  /** The words denote the block number modulo 2^128. */
  lemma CounterDenotes(n: nat)
    ensures CounterValue(CounterOf(n)) == n % (WORD * WORD * WORD * WORD)
  {
    var q1 := n / WORD;
    var q2 := q1 / WORD;
    var q3 := q2 / WORD;
    var q4 := q3 / WORD;
    var v := CounterValue(CounterOf(n));
    assert n == v + (WORD * WORD * WORD * WORD) * q4;
  }

  /** The first word counts, and carries into the second. */
  lemma FirstWordCounts(n: nat)
    requires n < WORD
    ensures CounterOf(n) == Counter(n as word, 0, 0, 0)
    ensures CounterOf(WORD + n) == Counter(n as word, 1, 0, 0)
  {}

  /** Byte i of block(0) || block(1) || ... */
  function StreamByte(f: BlockFunction, key: Bytes, i: nat): byte
  {
    f(key, CounterOf(i / BLOCK_SIZE))[i % BLOCK_SIZE]
  }

  function Stream(f: BlockFunction, key: Bytes, from: nat, count: nat): (s: Bytes)
    ensures |s| == count
  {
    seq(count, j requires 0 <= j < count => StreamByte(f, key, from + j))
  }

  /** 64 bytes from a multiple of 64 on are one block as it is. */
  lemma StreamIsBlocks(f: BlockFunction, key: Bytes, n: nat)
    ensures Stream(f, key, 64 * n, 64) == f(key, CounterOf(n))
  {
    forall j | 0 <= j < 64
      ensures Stream(f, key, 64 * n, 64)[j] == f(key, CounterOf(n))[j]
    {
      assert (64 * n + j) / 64 == n && (64 * n + j) % 64 == j;
    }
  }

  /** The first 32 bytes of the seed, filled up with zeros. */
  function KeyOf(seed: Bytes): (key: Bytes)
    ensures |key| == KEY_SIZE
    ensures forall i :: 0 <= i < 32 ==> key[i] == if i < |seed| then seed[i] else 0
  {
    if |seed| >= KEY_SIZE then seed[..KEY_SIZE] else seed + seq(KEY_SIZE - |seed|, _ => 0)
  }

  // ----- Counting

  function Inc(w: word): word
  {
    if w as int == WORD - 1 then 0 else w + 1
  }

  /** Add one to the least significant word and carry while words wrap around to zero. */
  function Incremented(c: Counter): Counter
  {
    var w0 := Inc(c.w0);
    if w0 != 0 then c.(w0 := w0)
    else
      var w1 := Inc(c.w1);
      if w1 != 0 then c.(w0 := w0, w1 := w1)
      else
        var w2 := Inc(c.w2);
        if w2 != 0 then c.(w0 := w0, w1 := w1, w2 := w2) else Counter(w0, w1, w2, Inc(c.w3))
  }

  lemma DivStep(n: nat)
    ensures (n + 1) % WORD == if n % WORD == WORD - 1 then 0 else n % WORD + 1
    ensures (n + 1) / WORD == if n % WORD == WORD - 1 then n / WORD + 1 else n / WORD
  {}

  lemma IncrementedCounts(n: nat)
    ensures Incremented(CounterOf(n)) == CounterOf(n + 1)
  {
    var q1 := n / WORD;
    var q2 := q1 / WORD;
    DivStep(n);
    DivStep(q1);
    DivStep(q2);
    DivStep(q2 / WORD);
  }

  // ----- The generator

  class ChachaRng {
    const blockFunction: BlockFunction
    const key: Bytes
    var counter: Counter
    const block: array<byte>
    var dataUsed: nat
    ghost var blocks: nat  // number of blocks generated so far

    ghost predicate Valid()
      reads this, block
    {
      && block.Length == BLOCK_SIZE && dataUsed <= BLOCK_SIZE
      && counter == CounterOf(blocks)
      && (blocks == 0 ==> dataUsed == BLOCK_SIZE)
      && (blocks > 0 ==> block[..] == blockFunction(key, CounterOf(blocks - 1)))
    }

    /** Bytes handed out so far. */
    ghost function Consumed(): int
      reads this
    {
      blocks * BLOCK_SIZE - (BLOCK_SIZE - dataUsed)
    }

    constructor (seed: Bytes, blockFunction: BlockFunction)
      ensures Valid() && fresh(block)
      ensures this.blockFunction == blockFunction && key == KeyOf(seed) && Consumed() == 0
      ensures |key| == 32 && forall i :: 0 <= i < 32 ==> key[i] == if i < |seed| then seed[i] else 0
    {
      this.blockFunction := blockFunction;
      var seedSize := if |seed| < KEY_SIZE then |seed| else KEY_SIZE;
      key := seed[..seedSize] + seq(KEY_SIZE - seedSize, _ => 0);
      counter := Counter(0, 0, 0, 0);
      block := new byte[BLOCK_SIZE];
      dataUsed := BLOCK_SIZE;
      blocks := 0;
    }

    method Update()
      requires Valid() && dataUsed == BLOCK_SIZE
      modifies this, block
      ensures Valid() && dataUsed == 0 && Consumed() == old(Consumed())
    {
      var keystream := blockFunction(key, counter);
      forall i | 0 <= i < BLOCK_SIZE {
        block[i] := keystream[i];
      }
      assert block[..] == keystream;
      dataUsed := 0;
      IncrementedCounts(blocks);
      AdvanceCounter();
      blocks := blocks + 1;
    }

    /** Treat the four words as a 128-bit number and add one. */
    method AdvanceCounter()
      modifies this`counter
      ensures counter == Incremented(old(counter))
    {
      counter := counter.(w0 := Inc(counter.w0));
      if counter.w0 != 0 {
        return;
      }
      counter := counter.(w1 := Inc(counter.w1));
      if counter.w1 != 0 {
        return;
      }
      counter := counter.(w2 := Inc(counter.w2));
      if counter.w2 != 0 {
        return;
      }
      counter := counter.(w3 := Inc(counter.w3));
    }

    /** memcpy from the unread part of the block. */
    method CopyOut(output: array<byte>, target: nat, toWrite: nat, ghost start: int)
      requires Valid() && output != block && target + toWrite <= output.Length && dataUsed + toWrite <= BLOCK_SIZE
      requires dataUsed < BLOCK_SIZE && 0 <= start == Consumed() - target
      modifies this`dataUsed, output
      ensures Valid() && Consumed() == old(Consumed()) + toWrite
      ensures forall j :: 0 <= j < target ==> output[j] == old(output[j])
      ensures forall j :: target <= j < target + toWrite ==> output[j] == StreamByte(blockFunction, key, start + j)
    {
      BlockHoldsStream();
      forall i | 0 <= i < toWrite {
        output[target + i] := block[dataUsed + i];
      }
      forall j | target <= j < target + toWrite
        ensures output[j] == StreamByte(blockFunction, key, start + j)
      {
        var p := dataUsed + (j - target);
        assert output[j] == block[p];
      }
      dataUsed := dataUsed + toWrite;
    }

    /** Fill the buffer with the next bytes of the stream. */
    method Random(output: array<byte>)
      requires Valid() && output != block
      modifies this, block, output
      ensures Valid() && Consumed() == old(Consumed()) + output.Length
      ensures output[..] == Stream(blockFunction, key, old(Consumed()), output.Length)
    {
      ghost var start := Consumed();
      var target, outputSize := 0, output.Length;
      while outputSize > 0
        invariant Valid() && 0 <= target <= output.Length && target + outputSize == output.Length
        invariant Consumed() == start + target
        invariant forall j :: 0 <= j < target ==> output[j] == StreamByte(blockFunction, key, start + j)
        decreases outputSize
      {
        if dataUsed == BLOCK_SIZE {
          Update();
        }
        var dataRemaining := BLOCK_SIZE - dataUsed;
        var toWrite := if dataRemaining < outputSize then dataRemaining else outputSize;
        CopyOut(output, target, toWrite, start);
        target := target + toWrite;
        outputSize := outputSize - toWrite;
      }
    }

    /** One request into a new buffer, added to all earlier outputs. */
    method AppendRandom(before: Bytes, size: nat) returns (all: Bytes)
      requires Valid() && Consumed() >= 0 && before == Stream(blockFunction, key, 0, Consumed())
      modifies this, block
      ensures Valid() && Consumed() == old(Consumed()) + size
      ensures all == Stream(blockFunction, key, 0, Consumed())
    {
      StreamAppend(blockFunction, key, 0, Consumed(), size);
      var output := new byte[size];
      Random(output);
      all := before + output[..];
    }

    /** The unread part of the block is the next part of the stream. */
    lemma BlockHoldsStream()
      requires Valid() && dataUsed < BLOCK_SIZE
      ensures forall p :: dataUsed <= p < BLOCK_SIZE ==>
        block[p] == StreamByte(blockFunction, key, Consumed() - dataUsed + p)
    {
      forall p | dataUsed <= p < BLOCK_SIZE
        ensures block[p] == StreamByte(blockFunction, key, Consumed() - dataUsed + p)
      {
        var i := Consumed() - dataUsed + p;
        assert i == (blocks - 1) * BLOCK_SIZE + p;
        assert i / BLOCK_SIZE == blocks - 1 && i % BLOCK_SIZE == p;
        assert block[p] == block[..][p];
      }
    }
  }

  lemma StreamAppend(f: BlockFunction, key: Bytes, from: nat, a: nat, b: nat)
    ensures Stream(f, key, from, a + b) == Stream(f, key, from, a) + Stream(f, key, from + a, b)
  {}

  /** For every seed and every sequence of request sizes, the outputs concatenated are a prefix
      of the one stream: nothing is skipped or repeated at block boundaries. */
  method RandomRequests(seed: Bytes, f: BlockFunction, sizes: seq<nat>) returns (all: Bytes)
    ensures all == Stream(f, KeyOf(seed), 0, Sum(sizes))
  {
    var rng := new ChachaRng(seed, f);
    all := [];
    for i := 0 to |sizes|
      invariant rng.Valid() && rng.blockFunction == f && rng.key == KeyOf(seed)
      invariant fresh(rng) && fresh(rng.block)
      invariant rng.Consumed() == Sum(sizes[..i])
      invariant all == Stream(f, KeyOf(seed), 0, rng.Consumed())
    {
      all := rng.AppendRandom(all, sizes[i]);
      SumStep(sizes, i);
    }
    assert sizes[..|sizes|] == sizes;
  }
}
