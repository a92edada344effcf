/** Incremental reassembly: the residue kept between chunks of a stream. */
module PacketSpliter {
  import opened Wrappers
  import opened Bytes
  import opened Framing

  /** What one call delivers, what it drops on error, the error, and what is kept for the next. */
  datatype Fed = Fed(packets: seq<seq<Byte>>, dropped: seq<seq<Byte>>, error: Option<Error>, held: seq<Byte>)

  function Feed(f: Format, held: seq<Byte>, data: seq<Byte>): Fed
    requires f.lfb > 0
  {
    if data == [] then Fed([], [], None, held)
    else
      var p := Parsed(f, held + data);
      if p.error.Some? then Fed([], p.packets, p.error, []) else Fed(p.packets, [], None, p.left)
  }

  class PacketSpliter {
    const format: Format
    var recvBuf: seq<Byte>

    constructor (format: Format)
      ensures this.format == format && recvBuf == []
    {
      this.format, recvBuf := format, [];
    }

    /** Split: the packets completed by `data`. On error the caller gets no packet at all. */
    method Split(data: seq<Byte>) returns (packets: seq<seq<Byte>>, error: Option<Error>)
      requires format.Valid()
      modifies this
      ensures var r := Feed(format, old(recvBuf), data);
        packets == r.packets && error == r.error && recvBuf == r.held
    {
      if |data| == 0 {
        return [], None;
      }
      var buf := data;
      if |recvBuf| > 0 {
        recvBuf := recvBuf + data;
        buf := recvBuf;
      }
      assert buf == old(recvBuf) + data;
      var left;
      packets, left, error := Framing.Split(format, buf);
      if error.Some? {
        recvBuf := [];
        return [], error;
      }
      recvBuf := if |left| > 0 then left else [];
    }
  }

  /** Calls one after another, up to the first error. */
  function FeedAll(f: Format, held: seq<Byte>, chunks: seq<seq<Byte>>): Fed
    requires f.lfb > 0
    decreases |chunks|
  {
    if chunks == [] then Fed([], [], None, held)
    else
      var r := Feed(f, held, chunks[0]);
      if r.error.Some? then r
      else
        var rest := FeedAll(f, r.held, chunks[1..]);
        rest.(packets := r.packets + rest.packets)
  }

  /** A residue: bytes that hold no complete frame and no oversized header. */
  ghost predicate Residue(f: Format, held: seq<Byte>)
    requires f.lfb > 0
  {
    Parsed(f, held) == Parse([], held, None)
  }

  lemma FeedKeepsResidue(f: Format, held: seq<Byte>, data: seq<Byte>)
    requires f.Valid() && Residue(f, held)
    ensures Residue(f, Feed(f, held, data).held)
  {
    SplitIsLegal(f, held + data);
  }

  ghost predicate Agrees(r: Fed, whole: Parse) {
    && r.packets + r.dropped == whole.packets
    && r.error == whole.error
    && (whole.error.None? ==> r.dropped == [] && r.held == whole.left)
  }

  /** One call, against the parse of what was held and the new data. */
  lemma FeedAgrees(f: Format, held: seq<Byte>, data: seq<Byte>)
    requires f.Valid() && Residue(f, held)
    ensures Agrees(Feed(f, held, data), Parsed(f, held + data))
  {
    var p := Parsed(f, held + data);
    if data == [] {
      assert held + data == held;
    } else {
      assert [] + p.packets == p.packets && p.packets + [] == p.packets;
    }
  }

  lemma AgreesAfter(ps: seq<seq<Byte>>, t: Fed, whole: Parse)
    requires Agrees(t, whole)
    ensures Agrees(t.(packets := ps + t.packets), After(ps, whole))
  {
    assert ps + t.packets + t.dropped == ps + (t.packets + t.dropped);
  }

  /** Chunking independence: however the stream is chopped up, the packets delivered, in order, with
      the ones a failing call drops, are those of one Split of the whole; the error is the same; and
      without an error nothing is dropped and the residue is the same. */
  lemma {:induction false} ChunkingIsImmaterial(f: Format, held: seq<Byte>, chunks: seq<seq<Byte>>)
    requires f.Valid() && Residue(f, held)
    ensures Agrees(FeedAll(f, held, chunks), Parsed(f, held + Concat(chunks)))
    decreases |chunks|
  {
    if chunks == [] {
      assert held + Concat(chunks) == held;
    } else {
      var data, rest := chunks[0], Concat(chunks[1..]);
      assert held + Concat(chunks) == (held + data) + rest;
      ParseContinues(f, held + data, rest);
      FeedAgrees(f, held, data);
      FeedKeepsResidue(f, held, data);
      var r := Feed(f, held, data);
      if r.error.None? {
        assert r.packets + [] == r.packets;
        ChunkingIsImmaterial(f, r.held, chunks[1..]);
        AgreesAfter(r.packets, FeedAll(f, r.held, chunks[1..]), Parsed(f, r.held + rest));
      }
    }
  }

  /** The stream meets an oversized header within chunk k and not before it. */
  ghost predicate FailsIn(f: Format, held: seq<Byte>, chunks: seq<seq<Byte>>, k: nat)
    requires f.lfb > 0
  {
    && k < |chunks|
    && Parsed(f, held + Concat(chunks[..k])).error.None?
    && Parsed(f, held + Concat(chunks[..k + 1])).error.Some?
  }

  /** The first chunk of some, and what the stream up to chunk k is without it. */
  lemma FirstChunk(f: Format, held: seq<Byte>, chunks: seq<seq<Byte>>, k: nat)
    requires f.Valid() && 0 < k <= |chunks|
    ensures held + Concat(chunks[..k]) == (held + chunks[0]) + Concat(chunks[1..][..k - 1])
    ensures Parsed(f, held + Concat(chunks[..k]))
         == Continued(f, Parsed(f, held + chunks[0]), Concat(chunks[1..][..k - 1]))
  {
    assert chunks[..k][1..] == chunks[1..][..k - 1];
    assert held + (chunks[0] + Concat(chunks[1..][..k - 1])) == (held + chunks[0]) + Concat(chunks[1..][..k - 1]);
    ParseContinues(f, held + chunks[0], Concat(chunks[1..][..k - 1]));
  }

  /** What is delivered is exactly the frames completed before the failing chunk. */
  lemma {:induction false} DeliveredBeforeFailure(f: Format, held: seq<Byte>, chunks: seq<seq<Byte>>, k: nat)
    requires f.Valid() && Residue(f, held) && FailsIn(f, held, chunks, k)
    ensures FeedAll(f, held, chunks).packets == Parsed(f, held + Concat(chunks[..k])).packets
    decreases k
  {
    FirstChunk(f, held, chunks, k + 1);
    var rest := chunks[1..];
    if k == 0 {
      assert chunks[..0] == [] && held + [] == held;
      assert Parsed(f, held + chunks[0]).error.Some? by {
        assert rest[..0] == [] && held + chunks[0] + [] == held + chunks[0];
      }
    } else {
      FirstChunk(f, held, chunks, k);
      FeedAgrees(f, held, chunks[0]);
      FeedKeepsResidue(f, held, chunks[0]);
      var r := Feed(f, held, chunks[0]);
      assert r.packets + [] == r.packets;
      DeliveredBeforeFailure(f, r.held, rest, k - 1);
    }
  }

  /** An oversized header somewhere in the stream is met within one of the chunks. */
  lemma {:induction false} SomeChunkFails(f: Format, chunks: seq<seq<Byte>>, n: nat) returns (k: nat)
    requires f.Valid() && n <= |chunks| && Parsed(f, Concat(chunks[..n])).error.Some?
    ensures k < n && FailsIn(f, [], chunks, k)
    decreases n
  {
    assert n > 0 by {
      assert chunks[..0] == [];
    }
    assert [] + Concat(chunks[..n]) == Concat(chunks[..n]);
    assert [] + Concat(chunks[..n - 1]) == Concat(chunks[..n - 1]);
    if Parsed(f, Concat(chunks[..n - 1])).error.Some? {
      k := SomeChunkFails(f, chunks, n - 1);
    } else {
      k := n - 1;
    }
  }

  /** Without an oversized header everything is delivered. With one, met in chunk k, the frames
      before chunk k are delivered and nothing else; so everything is delivered if and only if
      chunk k, put behind the residue before it, completes no frame. */
  lemma DeliveredIffFailingChunkHasNoFrame(f: Format, chunks: seq<seq<Byte>>, k: nat)
    requires f.Valid()
    ensures Parsed(f, Concat(chunks)).error.None? ==>
      FeedAll(f, [], chunks).packets == Parsed(f, Concat(chunks)).packets
    ensures FailsIn(f, [], chunks, k) ==>
      var before := Parsed(f, Concat(chunks[..k]));
      && FeedAll(f, [], chunks).packets == before.packets
      && (FeedAll(f, [], chunks).packets == Parsed(f, Concat(chunks)).packets
          <==> Parsed(f, before.left + chunks[k]).packets == [])
  {
    ChunkingIsImmaterial(f, [], chunks);
    assert [] + Concat(chunks) == Concat(chunks);
    if Parsed(f, Concat(chunks)).error.None? {
      var r := FeedAll(f, [], chunks);
      assert r.packets + [] == r.packets;
    }
    if FailsIn(f, [], chunks, k) {
      DeliveredBeforeFailure(f, [], chunks, k);
      assert [] + Concat(chunks[..k]) == Concat(chunks[..k]);
      FailingChunkEnds(f, chunks, k);
      var before := Parsed(f, Concat(chunks[..k]));
      var more := Parsed(f, before.left + chunks[k]).packets;
      assert |before.packets + more| == |before.packets| + |more|;
      assert more == [] ==> before.packets + more == before.packets;
    }
  }

  /** The whole parse ends with the frames of the failing chunk. */
  lemma FailingChunkEnds(f: Format, chunks: seq<seq<Byte>>, k: nat)
    requires f.Valid() && FailsIn(f, [], chunks, k)
    ensures var before := Parsed(f, Concat(chunks[..k]));
      Parsed(f, Concat(chunks)).packets == before.packets + Parsed(f, before.left + chunks[k]).packets
  {
    var a, b, c := Concat(chunks[..k]), chunks[k], Concat(chunks[k + 1..]);
    assert [] + a == a && [] + Concat(chunks[..k + 1]) == Concat(chunks[..k + 1]);
    assert chunks[..k + 1] == chunks[..k] + [b] && chunks == chunks[..k + 1] + chunks[k + 1..];
    ConcatAppend(chunks[..k], [b]);
    ConcatAppend(chunks[..k + 1], chunks[k + 1..]);
    var one := [b];
    assert one[1..] == [] && b + [] == b;
    assert Concat(one) == b;
    ParseContinues(f, a, b);
    ParseContinues(f, a + b, c);
  }

  /** A legal frame and an oversized header: in one chunk the frame is lost, in two it is not. */
  lemma FailingChunkDropsFrames()
    ensures var f := Format(2, 10, Little);
      && f.Valid()
      && FeedAll(f, [], [[0, 0, 255, 255]]).packets == []
      && FeedAll(f, [], [[0, 0], [255, 255]]).packets == [[0, 0]]
  {
    var f := Format(2, 10, Little);
    assert Pow256(2) == 65536 by {
      assert Pow256(1) == 256 * Pow256(0);
    }
    Headers(f);
    Oversized(f);
    OneChunk(f);
    TwoChunks(f);
  }

  const FRAME: seq<Byte> := [0, 0]
  const OVERSIZED: seq<Byte> := [255, 255]

  lemma Oversized(f: Format)
    requires f == Format(2, 10, Little)
    ensures Parsed(f, OVERSIZED) == Parse([], OVERSIZED, Some(MaxSize))
    ensures Parsed(f, FRAME) == Parse([FRAME], [], None)
  {
    Headers(f);
    assert OVERSIZED[..2] == OVERSIZED && FRAME[..2] == FRAME && FRAME[2..] == [];
  }

  lemma OneChunk(f: Format)
    requires f == Format(2, 10, Little)
    ensures FeedAll(f, [], [[0, 0, 255, 255]]).packets == []
  {
    var a: seq<Byte> := [0, 0, 255, 255];
    Oversized(f);
    Headers(f);
    assert a[2..] == OVERSIZED && a[..2] == FRAME && [] + a == a;
    ParseFrame(f, [], a, 2);
    assert Parsed(f, a) == Parse([FRAME], OVERSIZED, Some(MaxSize));
    assert Feed(f, [], a) == Fed([], [FRAME], Some(MaxSize), []);
  }

  lemma TwoChunks(f: Format)
    requires f == Format(2, 10, Little)
    ensures FeedAll(f, [], [[0, 0], [255, 255]]).packets == [[0, 0]]
  {
    Oversized(f);
    assert [] + FRAME == FRAME && [] + OVERSIZED == OVERSIZED;
    assert Feed(f, [], FRAME) == Fed([FRAME], [], None, []);
    assert Feed(f, [], OVERSIZED) == Fed([], [], Some(MaxSize), []);
    assert [FRAME, OVERSIZED][1..] == [OVERSIZED];
  }

  lemma Headers(f: Format)
    requires f == Format(2, 10, Little)
    ensures Read(f.order, [0, 0]) == 0 && Read(f.order, [255, 255]) == 65535
  {
    TwoBytes(0, 0);
    TwoBytes(255, 255);
  }

  lemma TwoBytes(a: Byte, b: Byte)
    ensures Read(Little, [a, b]) == a + 256 * b
  {
    var low: seq<Byte>, high: seq<Byte> := [a, b], [b];
    assert low[1..] == high && high[1..] == [];
    assert ReadLittle(high) == b + 256 * ReadLittle([]);
    assert ReadLittle(low) == a + 256 * ReadLittle(high);
  }
}
