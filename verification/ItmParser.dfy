/** The ITM packet parser: class StreamManager of firmware/stm32/ros_usbnode/swo_parser.py. */
module ItmParser {
  import opened Basics
  import opened ItmStream

  /** A header byte the parser takes for a packet: bit 2 clear, the two low bits not both clear. */
  predicate IsHeader(h: byte) {
    h as int / 4 % 2 == 0 && h as int % 4 != 0
  }

  /** `2**(header & 0x03 - 1)`, where the subtraction binds first: 2 to the power of `header & 2`. */
  function PayloadSize(h: byte): (n: nat)
    ensures n == 1 || n == 4
  {
    if h as int / 2 % 2 == 1 then 4 else 1
  }

  /** The size the ITM protocol gives (ARMv7-M Architecture Reference Manual, Appendix D4): 1, 2 or 4. */
  function ArmPayloadSize(h: byte): nat
    requires IsHeader(h)
  {
    if h as int % 4 == 1 then 1 else if h as int % 4 == 2 then 2 else 4
  }

  /** The parser reads packets at the protocol's size except the two-byte ones, which it takes for four. */
  lemma SizesAgreeExceptTwo(h: byte)
    requires IsHeader(h)
    ensures PayloadSize(h) == ArmPayloadSize(h) <==> h as int % 4 != 2
  {
    assert h as int % 4 == 2 * (h as int / 2 % 2) + h as int % 2;
  }

  predicate Ascii(bs: seq<byte>) {
    forall k :: 0 <= k < |bs| ==> bs[k] < 128
  }

  function Decoded(bs: seq<byte>): (s: string)
    requires Ascii(bs)
    ensures |s| == |bs|
  {
    seq(|bs|, k requires 0 <= k < |bs| => (bs[k] as int) as char)
  }

  // ---------------------------------------------------------------- one pass over some bytes

  /** `buffers` has an entry per registered stream; `failed` is a decode error, which ends the program. */
  datatype Parsed = Parsed(buffers: map<nat, string>, leftover: seq<byte>, printed: seq<Line>, failed: bool)

  datatype Turn = Wait | Drop(rest: seq<byte>) | Packet(id: nat, payload: seq<byte>, rest: seq<byte>)

  function TurnOf(bs: seq<byte>): (t: Turn)
    requires bs != []
    ensures !t.Wait? ==> |t.rest| < |bs|
  {
    if !IsHeader(bs[0]) then Drop(bs[1..])
    else
      var size := PayloadSize(bs[0]);
      if size >= |bs| then Wait else Packet(bs[0] as nat / 8, bs[1..size + 1], bs[size + 1..])
  }

  /** A packet's effect on the stream buffers. */
  function Dispatch(headers: map<nat, string>, buffers: map<nat, string>, id: nat, payload: seq<byte>): Parsed
    requires headers.Keys == buffers.Keys
  {
    if id !in buffers then Parsed(buffers, [], [], false)
    else if !Ascii(payload) then Parsed(buffers, [], [], true)
    else
      var f := AddChars(id, headers[id], buffers[id], Decoded(payload));
      Parsed(buffers[id := f.buffer], [], f.printed, false)
  }

  function Parse(headers: map<nat, string>, buffers: map<nat, string>, bs: seq<byte>): (p: Parsed)
    requires headers.Keys == buffers.Keys
    ensures p.buffers.Keys == buffers.Keys
    decreases |bs|
  {
    if bs == [] then Parsed(buffers, [], [], false)
    else
      match TurnOf(bs)
      case Wait => Parsed(buffers, bs, [], false)
      case Drop(rest) => Parse(headers, buffers, rest)
      case Packet(id, payload, rest) =>
        var d := Dispatch(headers, buffers, id, payload);
        if d.failed then d
        else
          var p := Parse(headers, d.buffers, rest);
          p.(printed := d.printed + p.printed)
  }

  /** Parsing more bytes after `p`; after a failure nothing more happens. */
  function Resume(headers: map<nat, string>, p: Parsed, bs: seq<byte>): Parsed
    requires headers.Keys == p.buffers.Keys
  {
    if p.failed then p
    else
      var q := Parse(headers, p.buffers, p.leftover + bs);
      q.(printed := p.printed + q.printed)
  }

  // ---------------------------------------------------------------- cutting the stream

  lemma TurnIsStable(x: seq<byte>, y: seq<byte>)
    requires x != [] && !TurnOf(x).Wait?
    ensures TurnOf(x + y) == TurnOf(x).(rest := TurnOf(x).rest + y)
  {
    if IsHeader(x[0]) {
      var size := PayloadSize(x[0]);
      assert (x + y)[1..size + 1] == x[1..size + 1] && (x + y)[size + 1..] == x[size + 1..] + y;
    } else {
      assert (x + y)[1..] == x[1..] + y;
    }
  }

  lemma {:induction false} ParseSplits(headers: map<nat, string>, buffers: map<nat, string>, x: seq<byte>, y: seq<byte>)
    requires headers.Keys == buffers.Keys
    ensures Parse(headers, buffers, x + y) == Resume(headers, Parse(headers, buffers, x), y)
    decreases |x|
  {
    if x == [] {
      assert x + y == y && [] + y == y;
      var q := Parse(headers, buffers, y);
      assert [] + q.printed == q.printed;
    } else if TurnOf(x).Wait? {
      var q := Parse(headers, buffers, x + y);
      assert [] + q.printed == q.printed;
    } else {
      TurnIsStable(x, y);
      var rest := TurnOf(x).rest;
      if TurnOf(x).Drop? {
        ParseSplits(headers, buffers, rest, y);
      } else {
        var d := Dispatch(headers, buffers, TurnOf(x).id, TurnOf(x).payload);
        if !d.failed {
          ParseSplits(headers, d.buffers, rest, y);
          PrependPrinted(headers, d, Parse(headers, d.buffers, rest), y);
        }
      }
    }
  }

  lemma PrependPrinted(headers: map<nat, string>, d: Parsed, p: Parsed, y: seq<byte>)
    requires headers.Keys == p.buffers.Keys
    ensures var r := Resume(headers, p, y);
            Resume(headers, p.(printed := d.printed + p.printed), y) == r.(printed := d.printed + r.printed)
  {
    if !p.failed {
      var q := Parse(headers, p.buffers, p.leftover + y);
      assert d.printed + p.printed + q.printed == d.printed + (p.printed + q.printed);
    }
  }

  /** Having printed `printed`, what remains of `whole` is `p`. */
  ghost predicate Continues(whole: Parsed, printed: seq<Line>, p: Parsed) {
    whole == p.(printed := printed + p.printed)
  }

  lemma ContinuesAfter(whole: Parsed, printed: seq<Line>, d: Parsed, p: Parsed)
    requires Continues(whole, printed, p.(printed := d.printed + p.printed))
    ensures Continues(whole, printed + d.printed, p)
  {
    assert printed + d.printed + p.printed == printed + (d.printed + p.printed);
  }

  /** One packet consumed. */
  lemma AfterPacket(
    headers: map<nat, string>, buffers: map<nat, string>, bs: seq<byte>, whole: Parsed, printed: seq<Line>)
    requires headers.Keys == buffers.Keys && bs != [] && TurnOf(bs).Packet?
    requires Continues(whole, printed, Parse(headers, buffers, bs))
    ensures var d := Dispatch(headers, buffers, TurnOf(bs).id, TurnOf(bs).payload);
            if d.failed then whole == d.(printed := printed + d.printed)
            else Continues(whole, printed + d.printed, Parse(headers, d.buffers, TurnOf(bs).rest))
  {
    var d := Dispatch(headers, buffers, TurnOf(bs).id, TurnOf(bs).payload);
    if !d.failed {
      ContinuesAfter(whole, printed, d, Parse(headers, d.buffers, TurnOf(bs).rest));
    }
  }

  /** A byte dropped, or nothing left to do but wait. */
  lemma AfterDropOrWait(
    headers: map<nat, string>, buffers: map<nat, string>, bs: seq<byte>, whole: Parsed, printed: seq<Line>)
    requires headers.Keys == buffers.Keys && bs != [] && !TurnOf(bs).Packet?
    requires Continues(whole, printed, Parse(headers, buffers, bs))
    ensures TurnOf(bs).Drop? ==> Continues(whole, printed, Parse(headers, buffers, TurnOf(bs).rest))
    ensures TurnOf(bs).Wait? ==> whole == Parsed(buffers, bs, printed, false)
  {
    assert printed + [] == printed;
  }

  lemma NothingLeft(headers: map<nat, string>, buffers: map<nat, string>, whole: Parsed, printed: seq<Line>)
    requires headers.Keys == buffers.Keys && Continues(whole, printed, Parse(headers, buffers, []))
    ensures whole == Parsed(buffers, [], printed, false)
  {
    assert printed + [] == printed;
  }

  /** The header test and the slices of the loop body. */
  method JudgeFirst(bs: seq<byte>) returns (turn: Turn)
    requires bs != []
    ensures turn == TurnOf(bs)
  {
    if bs[0] as int / 4 % 2 != 0 || bs[0] as int % 4 == 0 {
      return Drop(bs[1..]);
    }
    var size := PayloadSize(bs[0]);
    if size >= |bs| {
      return Wait;
    }
    return Packet(bs[0] as nat / 8, bs[1..size + 1], bs[size + 1..]);
  }

  // ---------------------------------------------------------------- what each stream receives

  /** The printed lines of one stream. */
  function Only(printed: seq<Line>, id: nat): seq<Line> {
    if printed == [] then []
    else
      var last := printed[|printed| - 1];
      Only(printed[..|printed| - 1], id) + if last.id == id then [last] else []
  }

  lemma {:induction false} OnlyAppend(a: seq<Line>, b: seq<Line>, id: nat)
    ensures Only(a + b, id) == Only(a, id) + Only(b, id)
    decreases |b|
  {
    if b == [] {
      assert a + b == a && Only(a, id) + [] == Only(a, id);
    } else {
      assert (a + b)[..|a + b| - 1] == a + b[..|b| - 1];
      OnlyAppend(a, b[..|b| - 1], id);
    }
  }

  lemma OneCharLines(id: nat, header: string, buffer: string, c: char, k: nat)
    ensures var printed := AddChar(id, header, buffer, c).printed;
            Only(printed, k) == if k == id then printed else []
  {
    var printed := AddChar(id, header, buffer, c).printed;
    if |printed| == 2 {
      assert printed[..1] == [printed[0]] && [printed[0]][..0] == [];
      assert Only([printed[0]], k) == if k == id then [printed[0]] else [];
    } else if |printed| == 1 {
      assert printed[..0] == [];
    }
  }

  lemma {:induction false} OwnLines(id: nat, header: string, buffer: string, s: string, k: nat)
    ensures var f := AddChars(id, header, buffer, s);
            Only(f.printed, k) == if k == id then f.printed else []
  {
    if s != "" {
      var before := AddChars(id, header, buffer, s[..|s| - 1]);
      var last := AddChar(id, header, before.buffer, s[|s| - 1]);
      OwnLines(id, header, buffer, s[..|s| - 1], k);
      OneCharLines(id, header, before.buffer, s[|s| - 1], k);
      OnlyAppend(before.printed, last.printed, k);
    }
  }

  /** The characters addressed to stream `id`, up to the first payload that does not decode. */
  function Addressed(registered: set<nat>, bs: seq<byte>, id: nat): string
    decreases |bs|
  {
    if bs == [] then ""
    else
      match TurnOf(bs)
      case Wait => ""
      case Drop(rest) => Addressed(registered, rest, id)
      case Packet(to, payload, rest) =>
        if to in registered && !Ascii(payload) then ""
        else (if to == id && id in registered then Decoded(payload) else "") + Addressed(registered, rest, id)
  }

  lemma DispatchReaches(headers: map<nat, string>, buffers: map<nat, string>, to: nat, payload: seq<byte>, id: nat)
    requires headers.Keys == buffers.Keys && id in headers
    requires !Dispatch(headers, buffers, to, payload).failed
    ensures var d := Dispatch(headers, buffers, to, payload);
            var s := if to == id then Decoded(payload) else "";
            d.buffers.Keys == buffers.Keys
            && AddChars(id, headers[id], buffers[id], s) == Fed(d.buffers[id], Only(d.printed, id))
  {
    if to in buffers {
      OwnLines(to, headers[to], buffers[to], Decoded(payload), id);
    }
  }

  lemma FeedOn(
    id: nat, header: string, buffer: string, s: string, t: string, a: Fed, b: Fed, p: seq<Line>, q: seq<Line>)
    requires a == Fed(a.buffer, Only(p, id)) == AddChars(id, header, buffer, s)
    requires b == Fed(b.buffer, Only(q, id)) == AddChars(id, header, a.buffer, t)
    ensures AddChars(id, header, buffer, s + t) == Fed(b.buffer, Only(p + q, id))
  {
    AddCharsAppend(id, header, buffer, s, t);
    OnlyAppend(p, q, id);
  }

  /** Every stream behaves as if it alone had been fed the characters addressed to it. */
  lemma {:induction false} StreamsAreSeparate(
    headers: map<nat, string>, buffers: map<nat, string>, bs: seq<byte>, id: nat)
    requires headers.Keys == buffers.Keys && id in headers
    ensures var p := Parse(headers, buffers, bs);
            AddChars(id, headers[id], buffers[id], Addressed(headers.Keys, bs, id))
            == Fed(p.buffers[id], Only(p.printed, id))
    decreases |bs|
  {
    if bs != [] {
      match TurnOf(bs) {
        case Wait =>
        case Drop(rest) => StreamsAreSeparate(headers, buffers, rest, id);
        case Packet(to, payload, rest) =>
          var d := Dispatch(headers, buffers, to, payload);
          if !d.failed {
            DispatchReaches(headers, buffers, to, payload, id);
            StreamsAreSeparate(headers, d.buffers, rest, id);
            var s := if to == id then Decoded(payload) else "";
            var t := Addressed(headers.Keys, rest, id);
            var p := Parse(headers, d.buffers, rest);
            FeedOn(id, headers[id], buffers[id], s, t, Fed(d.buffers[id], Only(d.printed, id)),
                   Fed(p.buffers[id], Only(p.printed, id)), d.printed, p.printed);
          }
      }
    }
  }

  /** From empty streams: what a stream printed and still buffers accounts for every character addressed to it. */
  lemma NoCharacterIsLost(headers: map<nat, string>, bs: seq<byte>, id: nat)
    requires id in headers
    ensures var p := Parse(headers, map k | k in headers :: "", bs);
            && Accounted(Only(p.printed, id)) + p.buffers[id] == Addressed(headers.Keys, bs, id)
            && |p.buffers[id]| <= MAX_LINE_LENGTH && WellPrinted(Only(p.printed, id))
  {
    var empty := map k | k in headers :: "";
    StreamsAreSeparate(headers, empty, bs, id);
    NothingIsLost(id, headers[id], Addressed(headers.Keys, bs, id));
  }

  // ---------------------------------------------------------------- the object

  function Concat(chunks: seq<seq<byte>>): seq<byte> {
    if chunks == [] then [] else Concat(chunks[..|chunks| - 1]) + chunks[|chunks| - 1]
  }

  class StreamManager {
    var streams: map<nat, Stream>
    var itmBuffer: seq<byte>

    ghost predicate Valid() reads `streams {
      forall k :: k in streams ==> streams[k].id == k
    }

    ghost function Headers(): map<nat, string> reads `streams {
      map k | k in streams :: streams[k].header
    }

    ghost function Buffers(): map<nat, string> reads `streams, streams.Values {
      map k | k in streams :: streams[k].buffer
    }

    constructor ()
      ensures Valid() && streams == map[] && itmBuffer == []
    {
      streams, itmBuffer := map[], [];
    }

    method AddStream(s: Stream)
      requires Valid()
      modifies this
      ensures Valid() && streams == old(streams)[s.id := s] && itmBuffer == old(itmBuffer)
    {
      streams := streams[s.id := s];
    }

    /** Hands a payload to the stream it names, if that stream is registered. */
    method Forward(id: nat, payload: seq<byte>) returns (printed: seq<Line>, failed: bool)
      requires Valid()
      modifies streams.Values
      ensures Valid() && Headers() == old(Headers())
      ensures Parsed(Buffers(), [], printed, failed) == Dispatch(old(Headers()), old(Buffers()), id, payload)
    {
      if id !in streams {
        return [], false;
      }
      if !Ascii(payload) {
        return [], true;
      }
      var s := streams[id];
      printed := s.AddAll(Decoded(payload));
      failed := false;
      assert Buffers() == old(Buffers())[id := s.buffer];
    }

    /**
     One packet of the buffer. `whole` is what the parse at hand amounts to, `headers` are the streams'
     and `before` is what has been printed.
     */
    method TakePacket(
      t: Turn, ghost bs: seq<byte>, ghost headers: map<nat, string>, ghost whole: Parsed, ghost before: seq<Line>)
      returns (printed: seq<Line>, failed: bool)
      requires Valid() && headers == Headers() && bs != [] && t.Packet? && t == TurnOf(bs)
      requires Continues(whole, before, Parse(headers, Buffers(), bs))
      modifies streams.Values
      ensures Valid() && Headers() == headers
      ensures if failed then whole == Parsed(Buffers(), [], before + printed, true)
              else Continues(whole, before + printed, Parse(headers, Buffers(), t.rest))
    {
      AfterPacket(headers, Buffers(), bs, whole, before);
      printed, failed := Forward(t.id, t.payload);
    }

    /** The loop over the bytes at hand. */
    method ConsumeAll(start: seq<byte>) returns (printed: seq<Line>, left: seq<byte>, failed: bool)
      requires Valid()
      modifies streams.Values
      ensures Valid() && Headers() == old(Headers())
      ensures Parsed(Buffers(), left, printed, failed) == Parse(old(Headers()), old(Buffers()), start)
    {
      var bs := start;
      ghost var headers, buffers := Headers(), Buffers();
      ghost var whole := Parse(headers, buffers, bs);
      printed, failed := [], false;
      assert [] + whole.printed == whole.printed;
      while |bs| > 0
        invariant Valid() && headers == Headers() && buffers == Buffers()
        invariant Continues(whole, printed, Parse(headers, buffers, bs))
        decreases |bs|
      {
        var turn := JudgeFirst(bs);
        if turn.Packet? {
          var lines;
          lines, failed := TakePacket(turn, bs, headers, whole, printed);
          printed, buffers := printed + lines, Buffers();
          if failed {
            return printed, [], true;
          }
        } else {
          AfterDropOrWait(headers, buffers, bs, whole, printed);
          if turn.Wait? {
            return printed, bs, false;
          }
        }
        bs := turn.rest;
      }
      NothingLeft(headers, buffers, whole, printed);
      return printed, [], false;
    }

    method ParseItmBytes(chunk: seq<byte>) returns (printed: seq<Line>, failed: bool)
      requires Valid()
      modifies this, streams.Values
      ensures Valid() && streams == old(streams)
      ensures Parsed(Buffers(), itmBuffer, printed, failed)
              == Parse(old(Headers()), old(Buffers()), old(itmBuffer) + chunk)
    {
      var left;
      printed, left, failed := ConsumeAll(itmBuffer + chunk);
      itmBuffer := left;
    }

    /** Feeding chunk after chunk, until a decode error ends the program, is one pass over the whole stream. */
    method ParseAll(chunks: seq<seq<byte>>) returns (printed: seq<Line>, failed: bool)
      requires Valid() && itmBuffer == []
      modifies this, streams.Values
      ensures Valid() && streams == old(streams)
      ensures Parsed(Buffers(), itmBuffer, printed, failed)
              == Parse(old(Headers()), old(Buffers()), Concat(chunks))
    {
      ghost var was, headers := Buffers(), Headers();
      printed, failed := [], false;
      for i := 0 to |chunks|
        invariant Valid() && streams == old(streams) && Headers() == headers
        invariant Parsed(Buffers(), itmBuffer, printed, failed) == Parse(headers, was, Concat(chunks[..i]))
      {
        assert chunks[..i + 1][..i] == chunks[..i];
        ParseSplits(headers, was, Concat(chunks[..i]), chunks[i]);
        if !failed {
          var lines;
          lines, failed := ParseItmBytes(chunks[i]);
          printed := printed + lines;
        }
      }
      assert chunks[..|chunks|] == chunks;
    }
  }
}
