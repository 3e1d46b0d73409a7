/**
 * A buffering decorator in front of a byte source: java.io.BufferedInputStream
 * of the Avian class library. The underlying InputStream is modelled as a
 * scripted source whose every read answers either end-of-data (-1) or between
 * one and the requested number of bytes.
 */
module BufferedInput {

  /** The unsigned bit pattern of a Java `byte`. */
  type Byte = x: int | 0 <= x < 256

  /** The value InputStream.read returns for end-of-data. */
  const EndOfStream: int := -1

  /** Buffer capacity when none is given. */
  const DefaultSize: int := 32

  function Min(a: int, b: int): int { if a < b then a else b }

  function Max(a: int, b: int): int { if a < b then b else a }

  /**
   * `s` with `piece` written over it from index `at` on, one element at a
   * time as an array copy does it.
   */
  function Splice(s: seq<Byte>, at: int, piece: seq<Byte>): (r: seq<Byte>)
    requires 0 <= at && at + |piece| <= |s|
    ensures |r| == |s|
    decreases |piece|
  {
    if piece == [] then s else Splice(s[at := piece[0]], at + 1, piece[1..])
  }

  /** The spliced sequence is the prefix of s, the piece, then the rest of s. */
  lemma {:induction false} SpliceParts(s: seq<Byte>, at: int, piece: seq<Byte>)
    requires 0 <= at && at + |piece| <= |s|
    ensures Splice(s, at, piece) == s[..at] + piece + s[at + |piece|..]
    decreases |piece|
  {
    if piece != [] {
      var t := s[at := piece[0]];
      SpliceParts(t, at + 1, piece[1..]);
      assert t[..at + 1] == s[..at] + [piece[0]];
      assert t[at + 1 + |piece[1..]|..] == s[at + |piece|..];
      assert [piece[0]] + piece[1..] == piece;
    }
  }

  /** Two adjacent splices are one splice of the concatenated pieces. */
  lemma SpliceTwice(s: seq<Byte>, at: int, p: seq<Byte>, q: seq<Byte>)
    requires 0 <= at && at + |p| + |q| <= |s|
    ensures Splice(Splice(s, at, p), at + |p|, q) == Splice(s, at, p + q)
  {
    var t := Splice(s, at, p);
    SpliceParts(s, at, p);
    SpliceParts(t, at + |p|, q);
    SpliceParts(s, at, p + q);
    assert t[..at + |p|] == s[..at] + p;
    assert t[at + |p| + |q|..] == s[at + |p| + |q|..];
  }

  // ---------------------------------------------------------------------------
  // Byte values
  // ---------------------------------------------------------------------------

  /** The int a Java `byte` widens to: bytes 0x80..0xFF become negative. */
  function SignExtend(b: Byte): (r: int)
    ensures -128 <= r <= 127
    ensures r < 0 <==> b >= 0x80
  {
    if b < 0x80 then b else b - 256
  }

  /** Sign extension keeps the low eight bits of the byte. */
  lemma SignExtendKeepsLowByte(b: Byte)
    ensures SignExtend(b) % 256 == b
  {
  }

  /** Widening a byte as written cannot be told apart from end-of-data. */
  lemma SignExtendCollidesWithEndOfStream()
    ensures SignExtend(0xFF) == EndOfStream
  {
  }

  /** The value the InputStream contract asks read() to return for a byte. */
  function UnsignedByte(b: Byte): (r: int)
    ensures 0 <= r <= 255 && r != EndOfStream
  {
    b
  }

  /**
   * Unsigned widening keeps distinct bytes distinct, never yields -1, and
   * agrees with sign extension on the low eight bits.
   */
  lemma {:induction false} UnsignedByteInjective(x: Byte, y: Byte)
    ensures UnsignedByte(x) == UnsignedByte(y) <==> x == y
    ensures UnsignedByte(x) != EndOfStream
    ensures UnsignedByte(x) == SignExtend(x) % 256
  {
    SignExtendKeepsLowByte(x);
  }

  // ---------------------------------------------------------------------------
  // The underlying source, as a script of answers
  // ---------------------------------------------------------------------------

  /** One answer of the underlying source: end-of-data, or a run of bytes. */
  datatype Chunk = EndOfData | Bytes(data: seq<Byte>)

  /** A source never answers a non-empty request with zero bytes. */
  predicate WellFormed(script: seq<Chunk>)
  {
    forall i :: 0 <= i < |script| ==> script[i].Bytes? ==> |script[i].data| > 0
  }

  /** Every byte a script will ever hand out, in order. */
  function AllBytes(script: seq<Chunk>): seq<Byte>
  {
    if script == [] then []
    else (if script[0].Bytes? then script[0].data else []) + AllBytes(script[1..])
  }

  /** The count one read of `len` bytes returns. */
  function Answer(script: seq<Chunk>, len: nat): (n: int)
    requires WellFormed(script)
    ensures len == 0 ==> n == 0
    ensures len > 0 ==> n == EndOfStream || 1 <= n <= len
  {
    if len == 0 then 0
    else if script == [] || script[0].EndOfData? then EndOfStream
    else Min(|script[0].data|, len)
  }

  /** The bytes one read of `len` bytes hands out. */
  function Served(script: seq<Chunk>, len: nat): (bytes: seq<Byte>)
    requires WellFormed(script)
    ensures |bytes| == Max(Answer(script, len), 0)
  {
    if Answer(script, len) <= 0 then [] else script[0].data[..Answer(script, len)]
  }

  /** The script that is left after one read of `len` bytes. */
  function Rest(script: seq<Chunk>, len: nat): (rest: seq<Chunk>)
    requires WellFormed(script)
  {
    var n := Answer(script, len);
    if n == 0 then script
    else if n < 0 then (if script == [] then [] else script[1..])
    else if n < |script[0].data| then [Bytes(script[0].data[n..])] + script[1..]
    else script[1..]
  }

  /** One read neither loses nor reorders bytes and keeps the script well formed. */
  lemma {:induction false} ReadConservesBytes(script: seq<Chunk>, len: nat)
    requires WellFormed(script)
    ensures WellFormed(Rest(script, len))
    ensures Served(script, len) + AllBytes(Rest(script, len)) == AllBytes(script)
  {
    var n := Answer(script, len);
    if n > 0 {
      var d := script[0].data;
      var later := AllBytes(script[1..]);
      assert AllBytes(script) == d + later;
      if n < |d| {
        var r := [Bytes(d[n..])] + script[1..];
        assert Rest(script, len) == r;
        assert r[1..] == script[1..];
        assert forall i :: 1 <= i < |r| ==> r[i] == script[i];
        assert AllBytes(r) == d[n..] + later;
        assert d[..n] + (d[n..] + later) == (d[..n] + d[n..]) + later;
        assert d[..n] + d[n..] == d;
      } else {
        assert Rest(script, len) == script[1..];
        assert d[..n] == d;
      }
    } else if n < 0 && script != [] {
      assert AllBytes(script) == AllBytes(script[1..]);
    }
  }

  /**
   * A scripted InputStream. `requests` records the length asked for by every
   * read call; `delivered` every byte handed out so far.
   */
  class ScriptedSource {
    var script: seq<Chunk>
    var requests: seq<int>
    var closeCount: nat
    ghost var delivered: seq<Byte>

    ghost predicate Valid()
      reads this
    {
      WellFormed(script)
    }

    constructor (script: seq<Chunk>)
      requires WellFormed(script)
      ensures Valid() && this.script == script
      ensures requests == [] && delivered == [] && closeCount == 0
    {
      this.script := script;
      requests := [];
      closeCount := 0;
      delivered := [];
    }

    /** read(b, off, len): answers from the script into b[off..]. */
    method Read(b: array<Byte>, off: int, len: int) returns (n: int)
      requires Valid()
      requires 0 <= off && 0 <= len && off + len <= b.Length
      modifies this, b
      ensures Valid() && closeCount == old(closeCount)
      ensures requests == old(requests) + [len]
      ensures n == Answer(old(script), len) && script == Rest(old(script), len)
      ensures delivered == old(delivered) + Served(old(script), len)
      ensures b[..] == Splice(old(b[..]), off, Served(old(script), len))
    {
      ReadConservesBytes(script, len);
      requests := requests + [len];
      n := Answer(script, len);
      if n > 0 {
        var d := script[0].data;
        forall i | 0 <= i < n {
          b[off + i] := d[i];
        }
        SpliceParts(old(b[..]), off, d[..n]);
        assert b[..] == old(b[..])[..off] + d[..n] + old(b[..])[off + n..];
      }
      delivered := delivered + Served(script, len);
      script := Rest(script, len);
    }

    /** close(): recorded, nothing else changes. */
    method Close()
      modifies this
      ensures closeCount == old(closeCount) + 1
      ensures script == old(script) && requests == old(requests) && delivered == old(delivered)
    {
      closeCount := closeCount + 1;
    }
  }

  /** Moving bytes from the front of the pending part to the consumed part keeps the order. */
  lemma FifoShift(delivered: seq<Byte>, prior: seq<Byte>, before: seq<Byte>, taken: seq<Byte>, left: seq<Byte>, pending: seq<Byte>)
    requires pending == taken + left && delivered == prior + before + pending
    ensures delivered == prior + (before + taken) + left
  {
  }

  /** System.arraycopy between two distinct arrays. */
  method ArrayCopy(src: array<Byte>, srcPos: int, dst: array<Byte>, dstPos: int, n: int)
    requires src != dst
    requires 0 <= srcPos && 0 <= dstPos && 0 <= n
    requires srcPos + n <= src.Length && dstPos + n <= dst.Length
    modifies dst
    ensures dst[..] == Splice(old(dst[..]), dstPos, src[srcPos..srcPos + n])
  {
    var k := 0;
    while k < n
      invariant 0 <= k <= n
      invariant forall i :: dstPos <= i < dstPos + k ==> dst[i] == src[srcPos + (i - dstPos)]
      invariant forall i :: 0 <= i < dst.Length && !(dstPos <= i < dstPos + k) ==> dst[i] == old(dst[i])
    {
      dst[dstPos + k] := src[srcPos + k];
      k := k + 1;
    }
    SpliceParts(old(dst[..]), dstPos, src[srcPos..srcPos + n]);
    assert dst[..] == old(dst[..])[..dstPos] + src[srcPos..srcPos + n] + old(dst[..])[dstPos + n..];
  }

  // ---------------------------------------------------------------------------
  // The buffered stream
  // ---------------------------------------------------------------------------

  class BufferedInputStream {
    const source: ScriptedSource
    const buffer: array<Byte>
    var position: int
    var limit: int
    /** Bytes handed to this stream's callers so far. */
    ghost var consumed: seq<Byte>
    /** Bytes the source had handed out before this stream wrapped it. */
    ghost const prior: seq<Byte>

    /** The fetched bytes not yet handed to a caller. */
    ghost function Pending(): seq<Byte>
      reads this, buffer
    {
      if 0 <= position <= limit <= buffer.Length then buffer[position..limit] else []
    }

    /** Number of bytes a read can serve without asking the source. */
    function Buffered(): int
      reads this
    {
      if position < limit then limit - position else 0
    }

    ghost predicate Valid()
      reads this, source, buffer
    {
      && source.Valid()
      && buffer.Length > 0
      && -1 <= limit <= buffer.Length
      && (limit == -1 ==> position == 0)
      && (limit >= 0 ==> 0 <= position <= limit)
      && (limit == -1 ==> source.delivered == prior + consumed)
      && (limit >= 0 ==> source.delivered == prior + consumed + buffer[position..limit])
    }

    /** BufferedInputStream(in, size). */
    constructor (underlying: ScriptedSource, size: int)
      requires underlying.Valid() && size > 0
      ensures Valid() && fresh(buffer)
      ensures source == underlying && buffer.Length == size
      ensures position == 0 && limit == 0
      ensures consumed == [] && prior == underlying.delivered
    {
      source := underlying;
      buffer := new Byte[size];
      position := 0;
      limit := 0;
      consumed := [];
      prior := underlying.delivered;
    }

    /** BufferedInputStream(in): a buffer of the default size. */
    constructor WithDefaultSize(underlying: ScriptedSource)
      requires underlying.Valid()
      ensures Valid() && fresh(buffer)
      ensures source == underlying && buffer.Length == DefaultSize
      ensures position == 0 && limit == 0
      ensures consumed == [] && prior == underlying.delivered
    {
      source := underlying;
      buffer := new Byte[DefaultSize];
      position := 0;
      limit := 0;
      consumed := [];
      prior := underlying.delivered;
    }

    /** fill(): one source read into the whole buffer. */
    method Fill()
      requires Valid() && position >= limit
      modifies this, buffer, source
      ensures Valid() && consumed == old(consumed)
      ensures position == 0
      ensures limit == Answer(old(source.script), buffer.Length)
      ensures limit == EndOfStream || 1 <= limit <= buffer.Length
      ensures limit >= 0 ==> buffer[..limit] == Served(old(source.script), buffer.Length)
      ensures source.script == Rest(old(source.script), buffer.Length)
      ensures source.delivered == old(source.delivered) + Served(old(source.script), buffer.Length)
      ensures source.requests == old(source.requests) + [buffer.Length]
      ensures source.closeCount == old(source.closeCount)
    {
      ghost var script, before := source.script, buffer[..];
      assert source.delivered == prior + consumed;
      position := 0;
      limit := source.Read(buffer, 0, buffer.Length);
      ghost var served := Served(script, buffer.Length);
      SpliceParts(before, 0, served);
      if limit >= 0 {
        assert buffer[..limit] == buffer[0..limit] == served;
      } else {
        assert served == [];
      }
    }

    /** read(): the next byte, sign-extended, or -1 when the source reports end-of-data. */
    method Read() returns (r: int)
      requires Valid()
      modifies this, buffer, source
      ensures Valid() && source.closeCount == old(source.closeCount)
      ensures old(position < limit) ==>
        && r == SignExtend(old(buffer[position]))
        && position == old(position) + 1 && limit == old(limit)
        && buffer[..] == old(buffer[..]) && unchanged(source)
        && consumed == old(consumed) + [old(buffer[position])]
      ensures old(position >= limit) ==>
        && source.requests == old(source.requests) + [buffer.Length]
        && source.script == Rest(old(source.script), buffer.Length)
        && source.delivered == old(source.delivered) + Served(old(source.script), buffer.Length)
        && limit == Answer(old(source.script), buffer.Length)
        && (limit == EndOfStream ==> r == EndOfStream && position == 0 && consumed == old(consumed))
        && (limit != EndOfStream ==>
              && position == 1 && buffer[..limit] == Served(old(source.script), buffer.Length)
              && r == SignExtend(buffer[0]) && consumed == old(consumed) + [buffer[0]])
    {
      if position >= limit {
        Fill();
        if limit == -1 {
          return -1;
        }
      }
      ghost var p := position;
      r := SignExtend(buffer[position]);
      Advance(1);
      assert buffer[p..p + 1] == [buffer[p]];
    }

    /**
     * read() as the InputStream contract intends it: the same step as Read,
     * with the byte widened unsigned, so that -1 comes back exactly at end
     * of data and every byte, 0xFF included, comes back as itself.
     */
    method ReadUnsigned() returns (r: int)
      requires Valid()
      modifies this, buffer, source
      ensures Valid() && source.closeCount == old(source.closeCount)
      ensures r == EndOfStream <==> old(position >= limit) && limit == EndOfStream
      ensures r != EndOfStream ==> 0 <= r <= 255 && consumed == old(consumed) + [r]
      ensures r == EndOfStream ==> consumed == old(consumed)
      ensures old(position < limit) ==>
        && position == old(position) + 1 && limit == old(limit)
        && buffer[..] == old(buffer[..]) && unchanged(source)
      ensures old(position >= limit) ==>
        && source.requests == old(source.requests) + [buffer.Length]
        && source.script == Rest(old(source.script), buffer.Length)
        && limit == Answer(old(source.script), buffer.Length)
    {
      if position >= limit {
        Fill();
        if limit == -1 {
          return -1;
        }
      }
      ghost var p := position;
      r := UnsignedByte(buffer[position]);
      Advance(1);
      assert buffer[p..p + 1] == [buffer[p]];
    }

    /** position += n: hands the next n buffered bytes to the caller. */
    method Advance(n: int)
      requires Valid() && position < limit && 0 <= n <= limit - position
      modifies this
      ensures Valid() && limit == old(limit) && position == old(position) + n
      ensures consumed == old(consumed) + buffer[old(position)..old(position) + n]
      ensures n == old(Buffered()) ==> Pending() == []
    {
      ghost var taken := buffer[position..position + n];
      ghost var left := buffer[position + n..limit];
      assert Pending() == taken + left;
      FifoShift(source.delivered, prior, consumed, taken, left, Pending());
      consumed := consumed + taken;
      position := position + n;
      assert Pending() == left;
    }

    /**
     * The first block of read(b, offset, length): copy as many buffered bytes
     * as are wanted into b at offset.
     */
    method Drain(b: array<Byte>, offset: int, length: int) returns (copied: int)
      requires Valid() && b != buffer
      requires 0 <= offset && 0 <= length && offset + length <= b.Length
      modifies this, b
      ensures Valid() && limit == old(limit)
      ensures copied == Min(old(Buffered()), length) && position == old(position) + copied
      ensures b[..] == Splice(old(b[..]), offset, buffer[old(position)..old(position) + copied])
      ensures consumed == old(consumed) + buffer[old(position)..old(position) + copied]
      ensures copied < length ==> Pending() == []
    {
      copied := 0;
      if position < limit {
        var remaining := limit - position;
        if remaining > length {
          remaining := length;
        }
        ArrayCopy(buffer, position, b, offset, remaining);
        Advance(remaining);
        copied := remaining;
      } else {
        assert b[..] == Splice(b[..], offset, []);
      }
    }

    /**
     * The second block of read(b, offset, length): with the buffer drained,
     * one source read straight into b at offset.
     */
    method Forward(b: array<Byte>, offset: int, length: int) returns (c: int)
      requires Valid() && b != buffer && Pending() == []
      requires 0 <= offset && 0 < length && offset + length <= b.Length
      modifies this, source, b
      ensures Valid() && position == old(position) && limit == old(limit)
      ensures source.closeCount == old(source.closeCount)
      ensures source.requests == old(source.requests) + [length]
      ensures c == Answer(old(source.script), length) && source.script == Rest(old(source.script), length)
      ensures b[..] == Splice(old(b[..]), offset, Served(old(source.script), length))
      ensures consumed == old(consumed) + Served(old(source.script), length)
    {
      ghost var script := source.script;
      c := source.Read(b, offset, length);
      consumed := consumed + Served(script, length);
    }

    /**
     * read(b, offset, length): buffered bytes first, then at most one direct
     * source read into b for whatever is still wanted.
     */
    method ReadInto(b: array<Byte>, offset: int, length: int) returns (count: int)
      requires Valid() && b != buffer
      requires 0 <= offset && 0 <= length && offset + length <= b.Length
      modifies this, source, b
      ensures Valid() && limit == old(limit) && source.closeCount == old(source.closeCount)
      ensures var k := Min(old(Buffered()), length);
        var direct := Served(old(source.script), length - k);
        && position == old(position) + k
        && b[..] == Splice(old(b[..]), offset, buffer[old(position)..old(position) + k] + direct)
        && consumed == old(consumed) + buffer[old(position)..old(position) + k] + direct
        && source.requests == old(source.requests) + (if k < length then [length - k] else [])
        && source.script == Rest(old(source.script), length - k)
        && count == (if k == 0 && length > 0 && Answer(old(source.script), length) == EndOfStream then EndOfStream else k + |direct|)
      ensures count == EndOfStream || 0 <= count <= length
      ensures count == EndOfStream <==> length > 0 && old(Buffered()) == 0 && Answer(old(source.script), length) == EndOfStream
    {
      ghost var b0, p0, c0, script := b[..], position, consumed, source.script;
      count := Drain(b, offset, length);
      ghost var fromBuffer := buffer[p0..p0 + count];
      var off, len := offset + count, length - count;
      if len > 0 {
        var c := Forward(b, off, len);
        ghost var direct := Served(script, len);
        SpliceTwice(b0, offset, fromBuffer, direct);
        assert consumed == c0 + fromBuffer + direct;
        if c == -1 {
          if count == 0 {
            count := -1;
          }
        } else {
          count := count + c;
        }
      } else {
        assert fromBuffer + [] == fromBuffer;
      }
    }

    /** close(): delegates once to the source. */
    method Close()
      requires Valid()
      modifies source
      ensures source.closeCount == old(source.closeCount) + 1
      ensures source.script == old(source.script) && source.requests == old(source.requests)
      ensures Valid()
    {
      source.Close();
    }
  }
}
