/**
 * Callers of BufferedInputStream: whole read sequences against a source that
 * offers one run of bytes, as much of it per call as the caller asks for.
 */
module BufferedInputClients {
  import opened Arithmetic
  import opened BufferedInput

  /** A script offering `data` as one run, then end-of-data for ever. */
  function Offer(data: seq<Byte>): (script: seq<Chunk>)
    ensures WellFormed(script)
  {
    if data == [] then [] else [Bytes(data)]
  }

  /** One read of `len` from the rest of an offered run: the next bytes of the run, or -1 once it is used up. */
  lemma OfferRead(data: seq<Byte>, done: nat, len: nat)
    requires done <= |data| && len > 0
    ensures var m := Min(len, |data| - done);
      && Answer(Offer(data[done..]), len) == (if done == |data| then EndOfStream else m)
      && Served(Offer(data[done..]), len) == data[done..done + m]
      && Rest(Offer(data[done..]), len) == Offer(data[done + m..])
  {
    var m := Min(len, |data| - done);
    if done < |data| {
      assert data[done..][..m] == data[done..done + m];
      if m < |data| - done {
        assert data[done..][m..] == data[done + m..];
      }
    }
  }

  /**
   * After n bytes of the offered run were read one at a time through a buffer
   * of `capacity` bytes: the caller has had the first n bytes, the source has
   * handed out a prefix of the run and offers the rest, and it was asked
   * `capacity` bytes each time, once per buffer-full fetched.
   */
  ghost predicate Fetched(data: seq<Byte>, n: nat, capacity: int, consumed: seq<Byte>,
                          delivered: seq<Byte>, script: seq<Chunk>, requests: seq<int>)
  {
    && capacity > 0 && n <= |data| && |delivered| <= |data|
    && consumed == data[..n]
    && data[..|delivered|] == delivered
    && script == Offer(data[|delivered|..])
    && |delivered| == (if |requests| * capacity < |data| then |requests| * capacity else |data|)
    && (|requests| == 0 || (|requests| - 1) * capacity < |data|)
    && (forall j :: 0 <= j < |requests| ==> requests[j] == capacity)
  }

  /** A byte taken from the buffer is the next byte of the run; nothing else moves. */
  lemma {:induction false} BufferedStep(data: seq<Byte>, n: nat, capacity: int, consumed: seq<Byte>, pending: seq<Byte>,
                                        delivered: seq<Byte>, script: seq<Chunk>, requests: seq<int>)
    requires Fetched(data, n, capacity, consumed, delivered, script, requests)
    requires delivered == [] + consumed + pending && pending != []
    ensures n < |data| && pending[0] == data[n]
    ensures Fetched(data, n + 1, capacity, consumed + [pending[0]], delivered, script, requests)
  {
    assert delivered[n] == pending[0];
    assert data[..n + 1] == data[..n] + [data[n]];
  }

  /**
   * A refill once everything fetched was consumed: the source hands out the
   * next buffer-full of the run, the first of which goes to the caller.
   */
  lemma {:induction false} RefillStep(data: seq<Byte>, n: nat, capacity: int, consumed: seq<Byte>,
                                      delivered: seq<Byte>, script: seq<Chunk>, requests: seq<int>)
    requires Fetched(data, n, capacity, consumed, delivered, script, requests)
    requires delivered == [] + consumed + [] && n < |data|
    ensures Answer(script, capacity) >= 1 && Served(script, capacity)[0] == data[n]
    ensures Fetched(data, n + 1, capacity, consumed + [Served(script, capacity)[0]],
                    delivered + Served(script, capacity), Rest(script, capacity), requests + [capacity])
  {
    var k, m := |requests|, Min(capacity, |data| - n);
    assert |delivered| == n && script == Offer(data[n..]);
    OfferRead(data, n, capacity);
    var served, rest := Served(script, capacity), Rest(script, capacity);
    assert served == data[n..n + m] && rest == Offer(data[n + m..]);
    RefillCount(|data|, n, k, capacity);
    RefillBytes(data, n, m, consumed, delivered, served);
    AllRequestsAre(requests, capacity);
  }

  /** The bytes of one refill continue the run where the consumed prefix ends. */
  lemma RefillBytes(data: seq<Byte>, n: nat, m: nat, consumed: seq<Byte>, delivered: seq<Byte>, served: seq<Byte>)
    requires 0 < m && n + m <= |data| && consumed == data[..n] && delivered == consumed && served == data[n..n + m]
    ensures delivered + served == data[..n + m] && |delivered + served| == n + m
    ensures served[0] == data[n] && consumed + [served[0]] == data[..n + 1]
  {
    assert data[..n + 1] == data[..n] + [data[n]];
  }

  /** One more request for `size` keeps every request at `size`. */
  lemma AllRequestsAre(requests: seq<int>, size: int)
    requires forall j :: 0 <= j < |requests| ==> requests[j] == size
    ensures forall j :: 0 <= j < |requests + [size]| ==> (requests + [size])[j] == size
  {
  }

  /** After k full reads that fetched exactly n < total bytes, one more read keeps the count formula. */
  lemma RefillCount(total: nat, n: nat, k: nat, size: nat)
    requires size > 0 && n < total
    requires n == (if k * size < total then k * size else total)
    ensures k * size == n
    ensures n + Min(size, total - n) == (if (k + 1) * size < total then (k + 1) * size else total)
    ensures (k + 1 - 1) * size < total
  {
    assert (k + 1) * size == k * size + size;
  }

  /** The stream-level view: a valid stream over the source whose state is Fetched. */
  ghost predicate Progress(stream: BufferedInputStream, data: seq<Byte>, n: nat, capacity: int)
    reads stream, stream.source, stream.buffer
  {
    && stream.Valid() && stream.buffer.Length == capacity && stream.prior == []
    && Fetched(data, n, capacity, stream.consumed, stream.source.delivered, stream.source.script, stream.source.requests)
  }

  /** read() with bytes still in the buffer: the next byte of the run, no source call. */
  method TakeBuffered(stream: BufferedInputStream, data: seq<Byte>, n: nat, capacity: int) returns (r: int)
    requires Progress(stream, data, n, capacity) && n < |data| && stream.position < stream.limit
    modifies stream, stream.buffer, stream.source
    ensures Progress(stream, data, n + 1, capacity) && r == SignExtend(data[n])
  {
    ghost var source := stream.source;
    BufferedStep(data, n, capacity, stream.consumed, stream.buffer[stream.position..stream.limit],
                 source.delivered, source.script, source.requests);
    r := stream.Read();
  }

  /** read() with the buffer used up: one more buffer-full of the run is fetched. */
  method TakeRefilled(stream: BufferedInputStream, data: seq<Byte>, n: nat, capacity: int) returns (r: int)
    requires Progress(stream, data, n, capacity) && n < |data| && stream.position >= stream.limit
    modifies stream, stream.buffer, stream.source
    ensures Progress(stream, data, n + 1, capacity) && r == SignExtend(data[n])
  {
    ghost var source := stream.source;
    ghost var script := source.script;
    RefillStep(data, n, capacity, stream.consumed, source.delivered, script, source.requests);
    r := stream.Read();
    assert stream.buffer[0] == stream.buffer[..stream.limit][0];
  }

  /** One read() while bytes of the run are left: the next byte, sign-extended. */
  method ReadNextByte(stream: BufferedInputStream, data: seq<Byte>, n: nat, capacity: int) returns (r: int)
    requires Progress(stream, data, n, capacity) && n < |data|
    modifies stream, stream.buffer, stream.source
    ensures Progress(stream, data, n + 1, capacity) && r == SignExtend(data[n])
  {
    if stream.position < stream.limit {
      r := TakeBuffered(stream, data, n, capacity);
    } else {
      r := TakeRefilled(stream, data, n, capacity);
    }
  }

  /** The read() after the whole run: -1, after one more request for a buffer-full. */
  method ReadPastEnd(stream: BufferedInputStream, data: seq<Byte>, capacity: int) returns (r: int)
    requires Progress(stream, data, |data|, capacity)
    modifies stream, stream.buffer, stream.source
    ensures r == EndOfStream
    ensures |stream.source.requests| == Ceiling(|data|, capacity) + 1
    ensures forall j :: 0 <= j < |stream.source.requests| ==> stream.source.requests[j] == capacity
  {
    ghost var source := stream.source;
    assert stream.consumed == data && source.delivered == data;
    CeilingLeast(|data|, capacity, |source.requests|);
    OfferRead(data, |data|, capacity);
    r := stream.Read();
  }

  /** Appending the next widened byte extends a widened prefix by one. */
  lemma AppendWidened(values: seq<int>, data: seq<Byte>, r: int)
    requires |values| < |data| && r == SignExtend(data[|values|])
    requires forall i :: 0 <= i < |values| ==> values[i] == SignExtend(data[i])
    ensures forall i :: 0 <= i < |values| + 1 ==> (values + [r])[i] == SignExtend(data[i])
  {
  }

  /** read() once per byte of the run: the run's bytes, sign-extended, in order. */
  method ReadRun(stream: BufferedInputStream, data: seq<Byte>, capacity: int) returns (values: seq<int>)
    requires Progress(stream, data, 0, capacity)
    modifies stream, stream.buffer, stream.source
    ensures Progress(stream, data, |data|, capacity)
    ensures |values| == |data|
    ensures forall i :: 0 <= i < |data| ==> values[i] == SignExtend(data[i])
  {
    values := [];
    var n := 0;
    while n < |data|
      invariant Progress(stream, data, n, capacity)
      invariant |values| == n
      invariant forall i :: 0 <= i < n ==> values[i] == SignExtend(data[i])
    {
      var r := ReadNextByte(stream, data, n, capacity);
      AppendWidened(values, data, r);
      values := values + [r];
      n := n + 1;
    }
  }

  /**
   * Reads data byte by byte with read() until it answers -1: every byte comes
   * back sign-extended in order, then -1; the source was asked once per
   * buffer-full plus once more for the end, always for the whole buffer.
   */
  method ReadEachByte(data: seq<Byte>, capacity: int) returns (values: seq<int>, requests: seq<int>)
    requires capacity > 0
    ensures |values| == |data| + 1 && values[|data|] == EndOfStream
    ensures forall i :: 0 <= i < |data| ==> values[i] == SignExtend(data[i])
    ensures |requests| == Ceiling(|data|, capacity) + 1
    ensures forall j :: 0 <= j < |requests| ==> requests[j] == capacity
  {
    var source := new ScriptedSource(Offer(data));
    var stream := new BufferedInputStream(source, capacity);
    values := ReadRun(stream, data, capacity);
    var r := ReadPastEnd(stream, data, capacity);
    values := values + [r];
    requests := source.requests;
  }

  /** The first read of `len` from an offered run: its first bytes, -1 if it is empty, nothing if len is 0. */
  lemma FirstRead(data: seq<Byte>, len: nat)
    ensures Answer(Offer(data), len) == (if len == 0 then 0 else if data == [] then EndOfStream else Min(len, |data|))
    ensures Served(Offer(data), len) == data[..Max(Answer(Offer(data), len), 0)]
  {
    if len > 0 {
      OfferRead(data, 0, len);
      assert data[0..] == data;
    }
  }

  /** read(b, 0, length) while nothing is buffered: all of it is one source read straight into b. */
  method BulkReadFresh(stream: BufferedInputStream, b: array<Byte>, length: int) returns (count: int, got: seq<Byte>)
    requires stream.Valid() && b != stream.buffer && b.Length == length
    requires stream.position == 0 && stream.limit == 0
    modifies stream, stream.source, b
    ensures length == 0 ==> count == 0 && stream.source.requests == old(stream.source.requests)
    ensures length > 0 ==> stream.source.requests == old(stream.source.requests) + [length]
    ensures count == Answer(old(stream.source.script), length)
    ensures got == Served(old(stream.source.script), length)
  {
    ghost var b0, direct := b[..], Served(stream.source.script, length);
    assert stream.Buffered() == 0;
    count := stream.ReadInto(b, 0, length);
    assert stream.buffer[0..0] + direct == direct;
    assert b[..] == Splice(b0, 0, direct);
    SpliceParts(b0, 0, direct);
    assert b[..|direct|] == direct;
    got := if count > 0 then b[..count] else [];
  }

  /**
   * read(b, 0, length) on a new stream: the empty buffer is bypassed, so the
   * source is asked once for all `length` bytes, however small the buffer.
   */
  method ReadAtOnce(data: seq<Byte>, capacity: int, length: int) returns (count: int, got: seq<Byte>, requests: seq<int>)
    requires capacity > 0 && length >= 0
    ensures length == 0 ==> count == 0 && requests == []
    ensures length > 0 ==> requests == [length]
    ensures length > 0 && data == [] ==> count == EndOfStream
    ensures length > 0 && data != [] ==> count == Min(length, |data|) && got == data[..count]
  {
    var source := new ScriptedSource(Offer(data));
    var stream := new BufferedInputStream(source, capacity);
    var b := new Byte[length];
    FirstRead(data, length);
    count, got := BulkReadFresh(stream, b, length);
    requests := source.requests;
  }
}
