/** vip_fr.c, `my_memcpy`: a copy as a chain of DMA descriptors of at most 32 KB each. */
module DmaChain {
  import opened Common
  import opened Memory

  /** A memory-to-memory descriptor; `next` is the index of the following one, none for the null link. Addresses
      count bytes from the start of the destination and of the source. */
  datatype Descriptor = Descriptor(dest: int, src: int, length: int, next: Option<int>)

  /** The outcome of a transfer: `Fault` when the engine is sent to a descriptor that was never built. */
  datatype Outcome = Done(memory: seq<byte>) | Fault

  const MAX_BLOCK := 32 * 1024

  /** `(nSize+nMaxBlockSize-1)/nMaxBlockSize`, C division rounding toward zero. */
  function BlockCount(size: int): int {
    var n := size + MAX_BLOCK - 1;
    if 0 <= n then n / MAX_BLOCK else -(-n / MAX_BLOCK)
  }

  /** What `memcpy` makes of the destination. */
  function Copied(dest: seq<byte>, src: seq<byte>, size: int): (after: seq<byte>)
    requires size <= |dest| && size <= |src|
    ensures |after| == |dest|
  {
    seq(|dest|, k requires 0 <= k < |dest| => if k < size then src[k] else dest[k])
  }

  /** The engine's work on descriptor `at` and on all it links to. `fuel` bounds the descriptors visited. */
  function Transfer(chain: seq<Descriptor>, at: int, fuel: nat, dest: seq<byte>, src: seq<byte>): (o: Outcome)
    ensures o.Done? ==> |o.memory| == |dest|
    decreases fuel
  {
    if !(0 <= at < |chain|) || fuel == 0 then Fault
    else
      var d := chain[at];
      if !(0 <= d.length && 0 <= d.dest <= |dest| - d.length && 0 <= d.src <= |src| - d.length) then Fault
      else
        var after := Stored(dest, d.dest, src[d.src..d.src + d.length]);
        match d.next
        case None => Done(after)
        case Some(i) => Transfer(chain, i, fuel - 1, after, src)
  }

  /** Where the next block would start. */
  function End(chain: seq<Descriptor>): int {
    if chain == [] then 0 else chain[|chain| - 1].dest + chain[|chain| - 1].length
  }

  /** Descriptor `i` of a chain: contiguous with the one before, full unless it is the last one built, linked to the
      next one unless the size is covered. */
  ghost predicate Block(chain: seq<Descriptor>, i: int, size: int)
    requires 0 <= i < |chain|
  {
    && chain[i].dest == chain[i].src == End(chain[..i])
    && 1 <= chain[i].length <= MAX_BLOCK
    && chain[i].dest == i * MAX_BLOCK
    && chain[i].next == if chain[i].dest + chain[i].length == size then None else Some(i + 1)
  }

  /** The descriptors tile the first `done` bytes of a copy of `size` bytes. */
  ghost predicate Tiles(chain: seq<Descriptor>, done: int, size: int) {
    && done == End(chain)
    && forall i :: 0 <= i < |chain| ==> Block(chain, i, size)
  }

  /** The descriptor-building loop: the chain tiles the whole size with the precomputed number of descriptors. */
  method BuildChain(size: int) returns (chain: array<Descriptor>)
    ensures fresh(chain) && chain.Length == Positive(BlockCount(size))
    ensures Tiles(chain[..], Positive(size), size)
  {
    hide Tiles;
    NothingTiled(size);
    chain := new Descriptor[Positive(BlockCount(size))](_ => Descriptor(0, 0, 0, None));
    var remaining, destBlock, srcBlock, index := size, 0, 0, 0;
    assert chain[..0] == [];
    while 0 < remaining
      invariant 0 <= index <= chain.Length
      invariant size <= 0 ==> remaining == size
      invariant 0 <= size ==> 0 <= remaining
      invariant destBlock == srcBlock == size - remaining
      invariant 0 < remaining ==> destBlock == index * MAX_BLOCK
      invariant remaining <= 0 ==> index == chain.Length
      invariant Tiles(chain[..index], destBlock, size)
      decreases remaining
    {
      ghost var was := chain[..index];
      var block := MAX_BLOCK;
      if block > remaining {
        block := remaining;
      }
      remaining := remaining - block;
      var d := Descriptor(destBlock, srcBlock, block, if remaining == 0 then None else Some(index + 1));
      chain[index] := d;
      assert chain[..index + 1] == was + [d];
      TilesGrow(was, d, size);
      destBlock, srcBlock, index := destBlock + block, srcBlock + block, index + 1;
    }
    assert chain[..index] == chain[..];
  }

  lemma NothingTiled(size: int)
    ensures Tiles([], 0, size)
  {
  }

  lemma TilesGrow(chain: seq<Descriptor>, d: Descriptor, size: int)
    requires Tiles(chain, |chain| * MAX_BLOCK, size)
    requires d.dest == d.src == |chain| * MAX_BLOCK && 1 <= d.length <= MAX_BLOCK
    requires d.next == if d.dest + d.length == size then None else Some(|chain| + 1)
    ensures Tiles(chain + [d], d.dest + d.length, size)
  {
    var longer := chain + [d];
    forall i | 0 <= i < |longer|
      ensures Block(longer, i, size)
    {
      assert longer[..i] == chain[..i];
      assert i < |chain| ==> Block(chain, i, size);
      assert chain[..|chain|] == chain;
    }
  }

  /** Every block but the last is full and the last ends the copy. */
  lemma BlocksFull(chain: seq<Descriptor>, i: int, size: int)
    requires Tiles(chain, size, size)
    requires 0 <= i < |chain|
    ensures if i < |chain| - 1 then chain[i].length == 32768 && chain[i].next == Some(i + 1)
            else chain[i].dest + chain[i].length == size && chain[i].next == None
    ensures 0 <= chain[i].dest == chain[i].src <= size - chain[i].length
    ensures 1 <= chain[i].length <= 32768 && chain[i].dest == i * 32768
  {
    var last := |chain| - 1;
    assert Block(chain, i, size) && Block(chain, last, size);
    if i < last {
      assert Block(chain, i + 1, size);
      assert chain[..i + 1][..i] == chain[..i];
    }
  }

  lemma StoreExtendsCopy(dest: seq<byte>, src: seq<byte>, done: int, length: int)
    requires 0 <= done && 0 <= length && done + length <= |dest| && done + length <= |src|
    ensures Stored(Copied(dest, src, done), done, src[done..done + length]) == Copied(dest, src, done + length)
  {
  }

  /** From descriptor `at` on, the engine completes a copy whose first bytes are in place. */
  lemma {:induction false} TransferFrom(chain: seq<Descriptor>, at: int, fuel: nat, dest: seq<byte>, src: seq<byte>,
                                        size: int)
    requires Tiles(chain, size, size)
    requires 0 <= at < |chain| && |chain| - at <= fuel
    requires size <= |dest| && size <= |src|
    ensures 0 <= chain[at].dest <= size
    ensures Transfer(chain, at, fuel, Copied(dest, src, chain[at].dest), src) == Done(Copied(dest, src, size))
    decreases |chain| - at
  {
    BlocksFull(chain, at, size);
    StoreExtendsCopy(dest, src, chain[at].dest, chain[at].length);
    if at + 1 < |chain| {
      TransferFrom(chain, at + 1, fuel - 1, dest, src, size);
      assert Block(chain, at, size) && Block(chain, at + 1, size);
    }
  }

  /** A chain that tiles a size moves what `memcpy` moves. */
  lemma ChainIsMemcpy(chain: seq<Descriptor>, dest: seq<byte>, src: seq<byte>, size: int)
    requires Tiles(chain, size, size) && 0 < size
    requires size <= |dest| && size <= |src|
    ensures Transfer(chain, 0, |chain|, dest, src) == Done(Copied(dest, src, size))
  {
    assert Copied(dest, src, 0) == dest;
    assert Block(chain, 0, size);
    TransferFrom(chain, 0, |chain|, dest, src, size);
  }

  /** A frame as the bytes of its words. */
  function BytesOf(frame: seq<word>): (bytes: seq<byte>)
    ensures |bytes| == 4 * |frame|
  {
    seq(4 * |frame|, k requires 0 <= k < 4 * |frame| => Bytes32(frame[k / 4])[k % 4])
  }

  /** The bytes determine the words. */
  lemma WordsBack(frame: seq<word>, i: int)
    requires 0 <= i < |frame|
    ensures Load32(BytesOf(frame), 4 * i) == frame[i]
  {
    WordOfBytes(frame[i]);
  }

  lemma WordOfBytes(w: word)
    ensures Load32(Bytes32(w), 0) == w
  {
  }

  /** Reserving the background by DMA: the draw frame takes the words of the displayed one. */
  lemma DmaReserves(chain: seq<Descriptor>, hidden: seq<word>, shown: seq<word>)
    requires |hidden| == |shown| && 0 < |shown|
    requires Tiles(chain, 4 * |shown|, 4 * |shown|)
    ensures Transfer(chain, 0, |chain|, BytesOf(hidden), BytesOf(shown)) == Done(BytesOf(shown))
  {
    ChainIsMemcpy(chain, BytesOf(hidden), BytesOf(shown), 4 * |shown|);
    assert Copied(BytesOf(hidden), BytesOf(shown), 4 * |shown|) == BytesOf(shown);
  }

  /** What `my_memcpy` does to a destination that does not overlap the source. Without a DMA device it does nothing.
      With one it starts the transfer at its first descriptor; when the size is not positive no descriptor has been
      built, and nothing is known of the destination afterwards. */
  method MyMemcpy(dmaFound: bool, dest: array<byte>, src: seq<byte>, size: int) returns (completed: bool)
    requires size <= dest.Length && size <= |src|
    modifies dest
    ensures completed <==> dmaFound && 0 < size
    ensures completed ==> dest[..] == Copied(old(dest[..]), src, size)
    ensures completed ==> forall k :: 0 <= k < dest.Length ==> dest[k] == if k < size then src[k] else old(dest[k])
    ensures !dmaFound ==> dest[..] == old(dest[..])
  {
    if !dmaFound {
      return false;
    }
    var chain := BuildChain(size);
    var outcome := Transfer(chain[..], 0, chain.Length, dest[..], src);
    if 0 < size {
      ChainIsMemcpy(chain[..], dest[..], src, size);
    }
    match outcome
    case Fault =>
      for k := 0 to dest.Length {
        dest[k] := *;
      }
      return false;
    case Done(after) =>
      forall k | 0 <= k < dest.Length {
        dest[k] := after[k];
      }
      return true;
  }
}
