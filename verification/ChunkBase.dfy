/** The accessors of the baseline heap: headers only, no footers. They share the unit layout of
    `Chunk`, and check far less than its accessors do. */
module ChunkBase {
  import opened Chunk

  function BaseStatus(mem: Memory, c: int): int
    requires Addressable(mem, c)
    reads mem
  {
    mem[c].word0
  }

  function BaseSpan(mem: Memory, c: int): int
    requires Addressable(mem, c)
    reads mem
  {
    mem[c].word1
  }

  function BaseNext(mem: Memory, c: int): int
    requires Addressable(mem, c)
    reads mem
  {
    mem[c].link
  }

  /** The header after the block at `c`, or null when the block ends at or beyond `end`. */
  function BaseAdjacent(mem: Memory, c: int, start: int, end: int): int
    requires Addressable(mem, c) && start <= c
    reads mem
  {
    if c + mem[c].word1 >= end then NULL else c + mem[c].word1
  }

  predicate BaseIsValid(mem: Memory, c: int, start: int, end: int)
    requires Addressable(mem, c) && start != NULL && end != NULL
    reads mem
  {
    start <= c < end && 0 < mem[c].word1
  }

  method SetBaseStatus(mem: Memory, c: int, status: int)
    requires Addressable(mem, c)
    modifies mem
    ensures mem[..] == old(mem[..])[c := old(mem[c]).(word0 := status)]
  {
    mem[c] := mem[c].(word0 := status);
  }

  method SetBaseSpan(mem: Memory, c: int, span: int)
    requires Addressable(mem, c)
    modifies mem
    ensures mem[..] == old(mem[..])[c := old(mem[c]).(word1 := span)]
  {
    mem[c] := mem[c].(word1 := span);
  }

  method SetBaseNext(mem: Memory, c: int, n: int)
    requires Addressable(mem, c)
    modifies mem
    ensures mem[..] == old(mem[..])[c := old(mem[c]).(link := n)]
  {
    mem[c] := mem[c].(link := n);
  }
}
