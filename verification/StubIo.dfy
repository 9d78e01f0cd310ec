/** The byte source and the reader that limits it to one archived file. */
module StubIo {
  import opened Wrappers

  /** A source held in memory: the bytes from `pos` on are still to be read. */
  class SliceReader {
    const data: seq<byte>
    var pos: nat

    ghost predicate Valid()
      reads this
    {
      pos <= |data|
    }

    constructor (bytes: seq<byte>)
      ensures Valid() && pos == 0 && data == bytes
    {
      data, pos := bytes, 0;
    }

    /** Read into the first `len` places of `buf` as much as there is. */
    method ReadAll(buf: array<byte>, len: nat) returns (n: nat)
      requires Valid() && len <= buf.Length
      modifies this, buf
      ensures Valid() && n <= len && n <= |data| - old(pos) && (n == len || n == |data| - old(pos))
      ensures pos == old(pos) + n
      ensures buf[..] == data[old(pos)..pos] + old(buf[n..])
    {
      n := if len <= |data| - pos then len else |data| - pos;
      forall i | 0 <= i < n {
        buf[i] := data[pos + i];
      }
      pos := pos + n;
      assert buf[..n] == data[old(pos)..pos];
      assert buf[n..] == old(buf[n..]);
    }

    /** Read exactly `len` bytes, or fail without reading any. */
    method ReadExact(len: nat) returns (r: Result<seq<byte>>)
      requires Valid()
      modifies this
      ensures Valid() && (r.Ok? <==> old(pos) + len <= |data|)
      ensures pos == old(pos) + (if r.Ok? then len else 0)
      ensures r.Ok? ==> r.value == data[old(pos)..pos]
    {
      if len > |data| - pos {
        return Err(Io);
      }
      var buf := new byte[len];
      var n := ReadAll(buf, len);
      return Ok(buf[..]);
    }
  }

  class Take {
    const inner: SliceReader
    var limit: nat

    ghost predicate Valid()
      reads this, inner
    {
      inner.Valid()
    }

    /** The bytes that can still be read. */
    ghost function Available(): seq<byte>
      reads this, inner
      requires Valid()
    {
      var rest := inner.data[inner.pos..];
      if limit <= |rest| then rest[..limit] else rest
    }

    /** The position in the source at which the file ends: no read ever moves it. */
    ghost function End(): nat
      reads this, inner
    {
      inner.pos + limit
    }

    constructor (inner: SliceReader, limit: nat)
      requires inner.Valid()
      ensures this.inner == inner && this.limit == limit && Valid()
    {
      this.inner, this.limit := inner, limit;
    }

    method ReadAll(buf: array<byte>) returns (n: nat)
      requires Valid()
      modifies this, inner, buf
      ensures Valid() && End() == old(End())
      ensures n <= buf.Length && n <= |old(Available())| && (n == buf.Length || n == |old(Available())|)
      ensures buf[..] == old(Available())[..n] + old(buf[n..])
      ensures Available() == old(Available())[n..]
      ensures inner.pos == old(inner.pos) + n
    {
      if limit == 0 {
        return 0;
      }
      var max := if buf.Length <= limit then buf.Length else limit;
      n := inner.ReadAll(buf, max);
      limit := limit - n;
    }

    /** Read exactly `len` bytes, or fail without reading any. */
    method ReadExact(len: nat) returns (r: Result<seq<byte>>)
      requires Valid()
      modifies this, inner
      ensures Valid() && End() == old(End())
      ensures r.Ok? <==> len <= |old(Available())|
      ensures r.Ok? ==> r.value == old(Available())[..len] && Available() == old(Available())[len..]
      ensures r.Err? ==> Available() == old(Available())
      ensures inner.pos == old(inner.pos) + (if r.Ok? then len else 0)
    {
      if len > limit || len > |inner.data| - inner.pos {
        return Err(Io);
      }
      var buf := new byte[len];
      var n := inner.ReadAll(buf, len);
      limit := limit - len;
      r := Ok(buf[..]);
    }
  }

  /** Read and drop everything up to the limit, a buffer at a time. */
  method DiscardToEnd(rd: Take, size: nat)
    requires rd.Valid() && size != 0
    modifies rd, rd.inner
    ensures rd.Valid() && rd.End() == old(rd.End())
    ensures rd.Available() == []
  {
    var buf := new byte[size];
    var n := rd.ReadAll(buf);
    while n != 0
      invariant rd.Valid() && rd.End() == old(rd.End())
      invariant n == 0 ==> rd.Available() == []
      invariant fresh(buf) && buf.Length == size
      decreases |rd.Available()|, n
    {
      n := rd.ReadAll(buf);
    }
  }
}
