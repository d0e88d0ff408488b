/** The chunk accessors, over memory made of 16-byte units.

    A unit is the overlay of a header and a footer: both put an `int` at byte 0 and a pointer at
    byte 8, and only the header uses the `int` at byte 4. So a header's status shares its word with
    a footer's span, and a header's next link with a footer's prev link. Payload units are the same
    kind of unit. An address is a unit number, and 0 is the null pointer. */
module Chunk {

  const NULL := 0
  const FREE := 0
  const USED := 1

  datatype Unit = Unit(word0: int, word1: int, link: int)

  type Memory = array<Unit>

  const SBRK_FAILED := -1

  /** The least number of 16-byte units that hold `bytes` bytes. */
  function BytesToPayloadUnits(bytes: nat): (units: int)
    ensures 16 * (units - 1) < bytes <= 16 * units
  {
    (bytes + 15) / 16
  }

  function HeaderFromPayload(p: int): int {
    p - 1
  }

  /** `c` is an address at which a header can be read. */
  predicate Addressable(mem: Memory, c: int) {
    0 < c < mem.Length
  }

  /** The unit holding the footer of the block whose header is at `c`. */
  predicate HasFooter(mem: Memory, c: int)
    reads mem
  {
    Addressable(mem, c) && 2 <= mem[c].word1 && c + mem[c].word1 <= mem.Length
  }

  /** A link that the accessors may follow or store: null, or a header with status FREE. */
  predicate FreeLink(mem: Memory, n: int)
    reads mem
  {
    n == NULL || (Addressable(mem, n) && mem[n].word0 == FREE)
  }

  function GetStatus(mem: Memory, c: int): int
    requires Addressable(mem, c)
    reads mem
  {
    mem[c].word0
  }

  function GetSpanUnits(mem: Memory, c: int): int
    requires Addressable(mem, c) && 2 <= mem[c].word1
    reads mem
  {
    mem[c].word1
  }

  function GetFooterFromHeader(mem: Memory, h: int): (f: int)
    requires Addressable(mem, h) && 2 <= mem[h].word1
    reads mem
  {
    h + (mem[h].word1 - 1)
  }

  function GetHeaderFromFooter(mem: Memory, f: int): int
    requires Addressable(mem, f) && 2 <= mem[f].word0
    reads mem
  {
    f - (mem[f].word0 - 1)
  }

  function GetNextFree(mem: Memory, c: int): int
    requires Addressable(mem, c) && FreeLink(mem, mem[c].link)
    reads mem
  {
    mem[c].link
  }

  function GetPrevFree(mem: Memory, c: int): int
    requires HasFooter(mem, c) && FreeLink(mem, mem[GetFooterFromHeader(mem, c)].link)
    reads mem
  {
    mem[GetFooterFromHeader(mem, c)].link
  }

  /** The header after the block at `c`, or null when the block ends at or beyond `end`. */
  function GetAdjacent(mem: Memory, c: int, start: int, end: int): int
    requires Addressable(mem, c) && start != NULL && end != NULL && start <= c && 2 <= mem[c].word1
    reads mem
  {
    if c + mem[c].word1 >= end then NULL else c + mem[c].word1
  }

  predicate IsValid(mem: Memory, c: int, start: int, end: int)
    requires Addressable(mem, c) && start != NULL && end != NULL && end <= mem.Length
    reads mem
  {
    && mem[c].word1 >= 2
    && start <= end
    && start <= c < end
    && (mem[c].word0 == FREE || mem[c].word0 == USED)
    && (var f := GetFooterFromHeader(mem, c);
        start <= f < end && mem[f].word0 >= 2 && mem[c].word1 == mem[f].word0)
    && c + mem[c].word1 <= end
  }

  /** The header before the block at `c`, found through the footer just below it. */
  function GetPrevAdjacent(mem: Memory, c: int, start: int, end: int): int
    requires Addressable(mem, c) && start > NULL && end != NULL && end <= mem.Length && c < end
    requires c <= start || mem[c - 1].word0 >= 2
    requires c <= start || (var p := GetHeaderFromFooter(mem, c - 1); Addressable(mem, p) && IsValid(mem, p, start, end))
    reads mem
  {
    if c <= start then NULL
    else if c - 1 < start then NULL
    else
      var p := GetHeaderFromFooter(mem, c - 1);
      if p < start then NULL else p
  }

  // What each setter does to the contents of memory.

  function WithStatus(m: seq<Unit>, c: int, status: int): seq<Unit>
    requires 0 <= c < |m|
  {
    m[c := m[c].(word0 := status)]
  }

  /** Writes the span in the header and in the footer this span implies. The prev link of that
      footer keeps whatever the unit held before. */
  function WithSpan(m: seq<Unit>, c: int, span: int): seq<Unit>
    requires 0 <= c && 2 <= span && c + span <= |m|
  {
    m[c := m[c].(word1 := span)][c + span - 1 := m[c + span - 1].(word0 := span)]
  }

  function WithNext(m: seq<Unit>, c: int, n: int): seq<Unit>
    requires 0 <= c < |m|
  {
    m[c := m[c].(link := n)]
  }

  function WithPrev(m: seq<Unit>, c: int, p: int): seq<Unit>
    requires 0 <= c < |m| && 2 <= m[c].word1 && c + m[c].word1 <= |m|
  {
    m[c + m[c].word1 - 1 := m[c + m[c].word1 - 1].(link := p)]
  }

  method SetStatus(mem: Memory, c: int, status: int)
    requires Addressable(mem, c) && (status == FREE || status == USED)
    modifies mem
    ensures mem[..] == WithStatus(old(mem[..]), c, status)
  {
    mem[c] := mem[c].(word0 := status);
  }

  method SetSpanUnits(mem: Memory, c: int, span: int)
    requires Addressable(mem, c) && 2 <= span && c + span <= mem.Length
    modifies mem
    ensures mem[..] == WithSpan(old(mem[..]), c, span)
  {
    mem[c] := mem[c].(word1 := span);
    var f := GetFooterFromHeader(mem, c);
    mem[f] := mem[f].(word0 := span);
  }

  method SetNextFree(mem: Memory, c: int, n: int)
    requires Addressable(mem, c) && FreeLink(mem, n)
    modifies mem
    ensures mem[..] == WithNext(old(mem[..]), c, n)
  {
    mem[c] := mem[c].(link := n);
  }

  method SetPrevFree(mem: Memory, c: int, p: int)
    requires HasFooter(mem, c) && FreeLink(mem, p)
    modifies mem
    ensures mem[..] == WithPrev(old(mem[..]), c, p)
  {
    var f := GetFooterFromHeader(mem, c);
    mem[f] := mem[f].(link := p);
  }
}
