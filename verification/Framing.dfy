/** The length-field stream packet: [length, message] frames, split off a byte stream. */
module Framing {
  import opened Wrappers
  import opened Bytes

  datatype Error = TooShort | MaxSize | Invalid

  datatype Result<T> = Ok(value: T) | Err(error: Error)

  /** A frame format; the constructor panics on any other length-field width or maximum. */
  datatype Format = Format(lfb: nat, maxSize: nat, order: Order) {
    ghost predicate Valid() {
      && (lfb == 2 || lfb == 4)
      && 0 < maxSize < Pow256(lfb)
    }
  }

  function ReadMessageSize(f: Format, packet: seq<Byte>): Result<nat> {
    if |packet| < f.lfb then Err(TooShort) else Ok(Read(f.order, packet[..f.lfb]))
  }

  function MessageBytes(f: Format, packet: seq<Byte>): Result<seq<Byte>> {
    if |packet| < f.lfb then Err(TooShort) else Ok(packet[f.lfb..])
  }

  function CheckPacket(f: Format, packet: seq<Byte>): Result<()> {
    if |packet| < f.lfb then Err(TooShort)
    else if |packet| > f.maxSize then Err(MaxSize)
    else if |packet| != Read(f.order, packet[..f.lfb]) + f.lfb then Err(Invalid)
    else Ok(())
  }

  function Pack(f: Format, message: seq<Byte>): Result<seq<Byte>> {
    if |message| > f.maxSize - f.lfb then Err(MaxSize)
    else Ok(Write(f.order, |message|, f.lfb) + message)
  }

  function Unpack(f: Format, packet: seq<Byte>): Result<seq<Byte>> {
    match ReadMessageSize(f, packet)
    case Err(e) => Err(e)
    case Ok(n) =>
      if |packet| < f.lfb + n then Err(Invalid) else Ok(packet[f.lfb..f.lfb + n])
  }

  /** A message that fits is packed into a legal frame that unpacks to it, and the legal frames are
      exactly the packings. */
  lemma PackUnpack(f: Format, message: seq<Byte>)
    requires f.Valid()
    ensures Pack(f, message).Ok? <==> |message| + f.lfb <= f.maxSize
    ensures Pack(f, message).Ok? ==>
      && CheckPacket(f, Pack(f, message).value).Ok?
      && Unpack(f, Pack(f, message).value) == Ok(message)
  {
    if Pack(f, message).Ok? {
      var packet := Pack(f, message).value;
      HeaderOf(f, message, message);
      assert packet[f.lfb..f.lfb + |message|] == message;
    }
  }

  /** A frame byte by byte: the message's length in the format's order and width, then the message. */
  lemma PackedAt(f: Format, message: seq<Byte>, i: nat)
    requires f.Valid() && Pack(f, message).Ok? && i < f.lfb + |message|
    ensures |Pack(f, message).value| == f.lfb + |message|
    ensures Pack(f, message).value[i] ==
      if i < f.lfb then |message| / Place(f.order, f.lfb, i) % 256 else message[i - f.lfb]
  {
    if i < f.lfb {
      WrittenAt(f.order, |message|, f.lfb, i);
    }
  }

  /** The header of a frame tells its size, whatever follows it. */
  lemma HeaderOf(f: Format, message: seq<Byte>, rest: seq<Byte>)
    requires f.Valid() && |message| + f.lfb <= f.maxSize
    ensures ReadMessageSize(f, Write(f.order, |message|, f.lfb) + rest) == Ok(|message|)
  {
    var header := Write(f.order, |message|, f.lfb);
    assert (header + rest)[..f.lfb] == header;
    SizeReadBack(f, |message|);
  }

  lemma SizeReadBack(f: Format, n: nat)
    requires f.Valid() && n < f.maxSize
    ensures Read(f.order, Write(f.order, n, f.lfb)) == n
  {
    RoundTrip(f.order, n, f.lfb);
    SmallModulo(n, Pow256(f.lfb));
  }

  lemma SmallModulo(n: nat, p: nat)
    requires n < p
    ensures n % p == n
  {
  }

  lemma LegalIsPacked(f: Format, packet: seq<Byte>)
    requires f.Valid() && CheckPacket(f, packet).Ok?
    ensures Pack(f, packet[f.lfb..]) == Ok(packet)
  {
    Inverse(f.order, packet[..f.lfb]);
    assert packet == packet[..f.lfb] + packet[f.lfb..];
  }

  // ---------------------------------------------------------------- split

  datatype Parse = Parse(packets: seq<seq<Byte>>, left: seq<Byte>, error: Option<Error>)

  /** What splitting `data` yields, frame by frame. */
  function Parsed(f: Format, data: seq<Byte>): Parse
    requires f.lfb > 0
    decreases |data|
  {
    if |data| < f.lfb then Parse([], data, None)
    else
      var total := f.lfb + Read(f.order, data[..f.lfb]);
      if total > f.maxSize then Parse([], data, Some(MaxSize))
      else if |data| < total then Parse([], data, None)
      else
        var rest := Parsed(f, data[total..]);
        rest.(packets := [data[..total]] + rest.packets)
  }

  /** The parse after frames already found. */
  function After(packets: seq<seq<Byte>>, p: Parse): Parse {
    p.(packets := packets + p.packets)
  }

  ghost predicate HasFrame(f: Format, data: seq<Byte>, total: int) {
    && |data| >= f.lfb > 0
    && total == f.lfb + Read(f.order, data[..f.lfb])
    && total <= f.maxSize && total <= |data|
  }

  lemma ParseFrame(f: Format, packets: seq<seq<Byte>>, data: seq<Byte>, total: int)
    requires HasFrame(f, data, total)
    ensures Parsed(f, data) == After([data[..total]], Parsed(f, data[total..]))
    ensures After(packets, Parsed(f, data)) == After(packets + [data[..total]], Parsed(f, data[total..]))
  {
    var rest := Parsed(f, data[total..]).packets;
    assert packets + ([data[..total]] + rest) == packets + [data[..total]] + rest;
  }

  /** The parse of `data` is that of `rest` behind the packets found so far. */
  ghost predicate Reached(f: Format, data: seq<Byte>, packets: seq<seq<Byte>>, rest: seq<Byte>)
    requires f.lfb > 0
  {
    Parsed(f, data) == After(packets, Parsed(f, rest))
  }

  lemma NextFrame(f: Format, data: seq<Byte>, packets: seq<seq<Byte>>, pos: nat, total: nat)
    requires pos <= |data| && HasFrame(f, data[pos..], total) && Reached(f, data, packets, data[pos..])
    ensures Reached(f, data, packets + [data[pos..pos + total]], data[pos + total..])
  {
    ParseFrame(f, packets, data[pos..], total);
    assert data[pos..][..total] == data[pos..pos + total] && data[pos..][total..] == data[pos + total..];
  }

  /** The header at the front of the bytes tells of a frame above the maximum. */
  ghost predicate Oversized(f: Format, data: seq<Byte>) {
    |data| >= f.lfb && f.lfb + Read(f.order, data[..f.lfb]) > f.maxSize
  }

  /** The bytes are the beginning of a frame that is not complete, or too few to tell. */
  ghost predicate Unfinished(f: Format, data: seq<Byte>) {
    |data| < f.lfb || |data| < f.lfb + Read(f.order, data[..f.lfb])
  }

  /** A rest without a frame ends the parse. */
  lemma LastPart(f: Format, data: seq<Byte>, packets: seq<seq<Byte>>, rest: seq<Byte>)
    requires f.lfb > 0 && Reached(f, data, packets, rest) && (Oversized(f, rest) || Unfinished(f, rest))
    ensures Parsed(f, data) == Parse(packets, rest, if Oversized(f, rest) then Some(MaxSize) else None)
  {
    assert packets + [] == packets;
  }

  /** Split: the loop over positions. `left` is empty where the source returns nil. */
  method Split(f: Format, data: seq<Byte>) returns (packets: seq<seq<Byte>>, left: seq<Byte>, error: Option<Error>)
    requires f.Valid()
    ensures Parse(packets, left, error) == Parsed(f, data)
  {
    packets, left, error := [], [], None;
    if |data| == 0 {
      return;
    }
    var pos := 0;
    assert data[0..] == data;
    while pos < |data|
      invariant 0 <= pos <= |data| && left == [] && error == None
      invariant Reached(f, data, packets, data[pos..])
    {
      var here := data[pos..];
      if |data| - pos < f.lfb {
        LastPart(f, data, packets, here);
        left := here;
        return;
      }
      var messageLen := Read(f.order, here[..f.lfb]);
      var totalLen := f.lfb + messageLen;
      if totalLen > f.maxSize {
        LastPart(f, data, packets, here);
        left, error := here, Some(MaxSize);
        return;
      }
      if |data| - pos < totalLen {
        LastPart(f, data, packets, here);
        left := here;
        return;
      }
      NextFrame(f, data, packets, pos, totalLen);
      packets := packets + [data[pos..pos + totalLen]];
      pos := pos + totalLen;
    }
    LastPart(f, data, packets, []);
  }

  function Concat(ps: seq<seq<Byte>>): seq<Byte> {
    if ps == [] then [] else ps[0] + Concat(ps[1..])
  }

  lemma {:induction false} ConcatAppend(ps: seq<seq<Byte>>, qs: seq<seq<Byte>>)
    ensures Concat(ps + qs) == Concat(ps) + Concat(qs)
  {
    if ps == [] {
      assert [] + qs == qs;
    } else {
      ConcatAppend(ps[1..], qs);
      assert (ps + qs)[1..] == ps[1..] + qs && (ps + qs)[0] == ps[0];
      Associative(ps[0], Concat(ps[1..]), Concat(qs));
    }
  }

  lemma Associative(a: seq<Byte>, b: seq<Byte>, c: seq<Byte>)
    ensures (a + b) + c == a + (b + c)
  {
  }

  lemma FirstOf(data: seq<Byte>, total: nat, rest: seq<seq<Byte>>, left: seq<Byte>)
    requires total <= |data| && Concat(rest) + left == data[total..]
    ensures Concat([data[..total]] + rest) + left == data
  {
    assert ([data[..total]] + rest)[1..] == rest;
    assert data[..total] + Concat(rest) + left == data[..total] + (Concat(rest) + left);
  }

  /** Nothing is lost or invented: packets and residue make up the input. */
  lemma {:induction false} SplitConserves(f: Format, data: seq<Byte>)
    requires f.Valid()
    ensures Concat(Parsed(f, data).packets) + Parsed(f, data).left == data
    decreases |data|
  {
    if |data| >= f.lfb {
      var total := f.lfb + Read(f.order, data[..f.lfb]);
      if HasFrame(f, data, total) {
        ParseFrame(f, [], data, total);
        var p := Parsed(f, data[total..]);
        SplitConserves(f, data[total..]);
        assert Parsed(f, data).packets == [data[..total]] + p.packets;
        FirstOf(data, total, p.packets, p.left);
      }
    }
  }

  /** Each packet is a legal frame; the residue holds no complete frame, and an oversized header
      exactly on error. */
  lemma {:induction false} SplitIsLegal(f: Format, data: seq<Byte>)
    requires f.Valid()
    ensures forall i :: 0 <= i < |Parsed(f, data).packets| ==> CheckPacket(f, Parsed(f, data).packets[i]).Ok?
    ensures Parsed(f, Parsed(f, data).left) == Parse([], Parsed(f, data).left, Parsed(f, data).error)
    decreases |data|
  {
    if |data| >= f.lfb {
      var total := f.lfb + Read(f.order, data[..f.lfb]);
      if HasFrame(f, data, total) {
        ParseFrame(f, [], data, total);
        SplitIsLegal(f, data[total..]);
        assert data[..total][..f.lfb] == data[..f.lfb];
      }
    }
  }

  /** Splitting fails exactly on a residue whose header is oversized, and otherwise stops only at
      an unfinished frame. */
  lemma {:induction false} SplitStops(f: Format, data: seq<Byte>)
    requires f.Valid()
    ensures var p := Parsed(f, data);
      && (p.error == Some(MaxSize) <==> Oversized(f, p.left))
      && (p.error == None <==> Unfinished(f, p.left) && !Oversized(f, p.left))
    decreases |data|
  {
    if |data| >= f.lfb {
      var total := f.lfb + Read(f.order, data[..f.lfb]);
      if HasFrame(f, data, total) {
        SplitStops(f, data[total..]);
      }
    }
  }

  /** The packets and residue of a split are the only ones with these properties: legal frames and a
      residue that make up the input, with nothing complete or an oversized header at its front. */
  lemma {:induction false} SplitIsUnique(f: Format, packets: seq<seq<Byte>>, left: seq<Byte>)
    requires f.Valid() && (Oversized(f, left) || Unfinished(f, left))
    requires forall i :: 0 <= i < |packets| ==> CheckPacket(f, packets[i]).Ok?
    ensures Parsed(f, Concat(packets) + left)
         == Parse(packets, left, if Oversized(f, left) then Some(MaxSize) else None)
    decreases |packets|
  {
    if packets == [] {
      assert Concat(packets) + left == left;
    } else {
      var m := packets[0][f.lfb..];
      LegalIsPacked(f, packets[0]);
      SplitIsUnique(f, packets[1..], left);
      Associative(packets[0], Concat(packets[1..]), left);
      FirstFrame(f, m, Concat(packets[1..]) + left);
      assert [packets[0]] + packets[1..] == packets;
    }
  }

  /** Splitting packed messages gives the frames back. */
  lemma {:induction false} SplitPacked(f: Format, messages: seq<seq<Byte>>)
    requires f.Valid()
    requires forall i :: 0 <= i < |messages| ==> Pack(f, messages[i]).Ok?
    ensures Parsed(f, Concat(PackAll(f, messages))) == Parse(PackAll(f, messages), [], None)
  {
    if messages != [] {
      SplitPacked(f, messages[1..]);
      var m := messages[0];
      var rest := Concat(PackAll(f, messages[1..]));
      FirstFrame(f, m, rest);
      assert PackAll(f, messages)[1..] == PackAll(f, messages[1..]);
    }
  }

  lemma FirstFrame(f: Format, m: seq<Byte>, rest: seq<Byte>)
    requires f.Valid() && Pack(f, m).Ok?
    ensures Parsed(f, Pack(f, m).value + rest) == After([Pack(f, m).value], Parsed(f, rest))
  {
    var packet := Pack(f, m).value;
    var data := packet + rest;
    HeaderOf(f, m, m + rest);
    assert data == Write(f.order, |m|, f.lfb) + (m + rest);
    assert data[|packet|..] == rest && data[..|packet|] == packet;
    ParseFrame(f, [], data, |packet|);
  }

  function PackAll(f: Format, messages: seq<seq<Byte>>): seq<seq<Byte>>
    requires forall i :: 0 <= i < |messages| ==> Pack(f, messages[i]).Ok?
  {
    if messages == [] then [] else [Pack(f, messages[0]).value] + PackAll(f, messages[1..])
  }

  /** A parse, given more input. */
  function Continued(f: Format, p: Parse, b: seq<Byte>): Parse
    requires f.lfb > 0
  {
    if p.error.Some? then p.(left := p.left + b) else After(p.packets, Parsed(f, p.left + b))
  }

  /** More input only continues the parse: the frames found so far stay, and the rest of the parse
      is that of the residue and the new bytes. */
  lemma {:induction false} ParseContinues(f: Format, a: seq<Byte>, b: seq<Byte>)
    requires f.Valid()
    ensures Parsed(f, a + b) == Continued(f, Parsed(f, a), b)
    decreases |a|
  {
    if |a| >= f.lfb {
      SplitFront(a, b, f.lfb);
      var total := f.lfb + Read(f.order, a[..f.lfb]);
      if HasFrame(f, a, total) {
        ParseContinues(f, a[total..], b);
        SplitFront(a, b, total);
        ParseFrame(f, [], a, total);
        ParseFrame(f, [], a + b, total);
        var q := Parsed(f, a[total..]);
        AfterAfter([a[..total]], q.packets, Parsed(f, q.left + b));
      }
    }
  }

  lemma SplitFront<T>(a: seq<T>, b: seq<T>, n: nat)
    requires n <= |a|
    ensures (a + b)[..n] == a[..n] && (a + b)[n..] == a[n..] + b
  {
  }

  lemma AfterAfter(ps: seq<seq<Byte>>, qs: seq<seq<Byte>>, p: Parse)
    ensures After(ps, After(qs, p)) == After(ps + qs, p)
  {
    assert ps + (qs + p.packets) == ps + qs + p.packets;
  }

  // ---------------------------------------------------------------- split off a stream reader

  /** SplitSR on a reader holding `buf`: the packet taken, if one is complete, and what stays. */
  function SplitOne(f: Format, buf: seq<Byte>): (Option<seq<Byte>>, seq<Byte>, Option<Error>) {
    if |buf| < f.lfb then (None, buf, None)
    else
      var total := f.lfb + Read(f.order, buf[..f.lfb]);
      if total > f.maxSize then (None, buf, Some(MaxSize))
      else if |buf| < total then (None, buf, None)
      else (Some(buf[..total]), buf[total..], None)
  }

  /** OnTraffic's loop: SplitSR until it yields nothing. */
  method SplitAll(f: Format, data: seq<Byte>) returns (packets: seq<seq<Byte>>, left: seq<Byte>, error: Option<Error>)
    requires f.Valid()
    ensures Parse(packets, left, error) == Parsed(f, data)
  {
    packets, left, error := [], data, None;
    var more := true;
    while more
      invariant more ==> error == None && Parsed(f, data) == After(packets, Parsed(f, left))
      invariant !more ==> Parsed(f, data) == Parse(packets, left, error)
      decreases more, |left|
    {
      var (packet, rest, err) := SplitOne(f, left);
      if packet.Some? {
        ParseFrame(f, packets, left, |packet.value|);
        packets := packets + [packet.value];
      } else {
        assert packets + [] == packets;
        more := false;
      }
      left, error := rest, err;
    }
  }
}
