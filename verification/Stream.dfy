/** std::ifstream over a file that does not change, with its two sticky error bits. */
module Streams {
  import opened Bytes

  const WORD: int := 0x1_0000_0000_0000_0000
  const OFFSET_LIMIT: int := 0x8000_0000_0000_0000

  /** A 64-bit unsigned sum that is handed over as a signed stream offset. */
  function ToOffset(n: int): (r: int)
    ensures 0 <= n < OFFSET_LIMIT ==> r == n
    ensures OFFSET_LIMIT <= n < WORD ==> r < 0
  {
    var word := n % WORD;
    if word < OFFSET_LIMIT then word else word - WORD
  }

  /** How many bytes a read from a position gets. */
  function Available(data: seq<Byte>, pos: nat, n: nat): (r: nat)
    ensures r <= n && pos + r <= |data| + if pos > |data| then pos - |data| else 0
  {
    if pos >= |data| then 0 else if pos + n <= |data| then n else |data| - pos
  }

  class Stream {
    const data: seq<Byte>
    var pos: nat
    var eof: bool
    var failed: bool
    var gcount: nat

    constructor (data: seq<Byte>)
      ensures this.data == data && Good() && pos == 0
    {
      this.data := data;
      pos := 0;
      eof := false;
      failed := false;
      gcount := 0;
    }

    predicate Good()
      reads this
    {
      !eof && !failed
    }

    method Clear()
      modifies this
      ensures Good() && pos == old(pos) && gcount == old(gcount)
    {
      eof := false;
      failed := false;
    }

    /** A seek forgets the end of the file, but does nothing on a failed stream; a negative
        position fails, a position behind the end does not. */
    method Seek(offset: int)
      modifies this
      ensures !eof && failed == (old(failed) || offset < 0)
      ensures pos == if failed then old(pos) else offset
    {
      eof := false;
      if !failed {
        if offset < 0 {
          failed := true;
        } else {
          pos := offset;
        }
      }
    }

    method SeekEnd()
      modifies this
      ensures !eof && failed == old(failed) && pos == if failed then old(pos) else |data|
    {
      eof := false;
      if !failed {
        pos := |data|;
      }
    }

    method Tell() returns (r: int)
      modifies this
      ensures eof == old(eof) && failed == !old(Good()) && pos == old(pos)
      ensures r == if old(Good()) then pos else -1
    {
      if !Good() {
        failed := true;
        return -1;
      }
      return pos;
    }

    /** Reads up to n bytes into the buffer, which has to hold those that are there; a short read sets
        both error bits. */
    method Read(buffer: array<Byte>, n: nat)
      requires Good() ==> Available(data, pos, n) <= buffer.Length
      modifies this, buffer
      ensures gcount == if old(Good()) then Available(data, old(pos), n) else 0
      ensures pos == old(pos) + gcount
      ensures gcount <= buffer.Length
      ensures gcount > 0 ==> pos <= |data| && buffer[..gcount] == data[old(pos)..pos]
      ensures Good() <==> old(Good()) && gcount == n
      ensures !Good() ==> failed
    {
      if !Good() {
        failed := true;
        gcount := 0;
      } else {
        gcount := Available(data, pos, n);
        forall i | 0 <= i < gcount {
          buffer[i] := data[pos + i];
        }
        pos := pos + gcount;
        if gcount < n {
          eof := true;
          failed := true;
        }
      }
    }
  }
}
