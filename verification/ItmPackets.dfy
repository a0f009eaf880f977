/**
 Writing ITM packets and having them parsed (firmware/stm32/ros_usbnode/swo_parser.py): the bytes here are
 described on their own, without the parser's view of them.
 */
module ItmPackets {
  import opened Basics
  import opened ItmStream
  import opened ItmParser

  /**
   A byte between packets (bit 2 set, or both low bits clear), or a packet for stream `id`: its low header
   bits are 1 before one character, 2 or 3 before four.
   */
  datatype Piece = Noise(b: byte) | Sent(id: nat, low: nat, text: string)

  predicate Writable(p: Piece) {
    match p
    case Noise(b) => b as nat / 4 % 2 == 1 || b as nat % 4 == 0
    case Sent(id, low, text) =>
      && id < 32 && 1 <= low <= 3 && |text| == (if low == 1 then 1 else 4)
      && forall k :: 0 <= k < |text| ==> text[k] < 128 as char
  }

  function Bytes(p: Piece): (bs: seq<byte>)
    requires Writable(p)
    ensures bs != []
  {
    match p
    case Noise(b) => [b]
    case Sent(id, low, text) =>
      [(8 * id + low) as byte] + seq(|text|, k requires 0 <= k < |text| => (text[k] as int) as byte)
  }

  function Written(ps: seq<Piece>): seq<byte>
    requires forall k :: 0 <= k < |ps| ==> Writable(ps[k])
  {
    if ps == [] then [] else Bytes(ps[0]) + Written(ps[1..])
  }

  /** The characters sent to stream `id`, in order. */
  function TextFor(ps: seq<Piece>, id: nat): string {
    if ps == [] then ""
    else (if ps[0].Sent? && ps[0].id == id then ps[0].text else "") + TextFor(ps[1..], id)
  }

  lemma HeaderBits(id: nat, low: nat, h: byte)
    requires id < 32 && 1 <= low <= 3 && h as nat == 8 * id + low
    ensures IsHeader(h) && h as nat / 8 == id && PayloadSize(h) == if low == 1 then 1 else 4
  {
    assert h as nat % 4 == low && h as nat / 4 % 2 == 0;
    assert h as nat / 2 == 4 * id + low / 2;
  }

  lemma NoiseTurn(b: byte, rest: seq<byte>)
    requires Writable(Noise(b))
    ensures TurnOf([b] + rest) == Drop(rest)
  {
    assert ([b] + rest)[1..] == rest;
  }

  lemma SentTurn(p: Piece, rest: seq<byte>, payload: seq<byte>)
    requires p.Sent? && Writable(p) && payload == Bytes(p)[1..]
    ensures TurnOf(Bytes(p) + rest) == Packet(p.id, payload, rest)
    ensures Ascii(payload) && Decoded(payload) == p.text
  {
    var bs := Bytes(p) + rest;
    HeaderBits(p.id, p.low, bs[0]);
    PacketSlices(Bytes(p)[0], payload, rest);
    assert Bytes(p) == [Bytes(p)[0]] + payload;
    assert forall k :: 0 <= k < |payload| ==> payload[k] == Bytes(p)[k + 1];
    assert Decoded(payload) == p.text;
  }

  lemma PacketSlices(h: byte, payload: seq<byte>, rest: seq<byte>)
    ensures var bs := [h] + payload + rest;
            bs[0] == h && bs[1..|payload| + 1] == payload && bs[|payload| + 1..] == rest
  {
  }

  /** One packet written and parsed: its stream gets its text, nobody else gets anything. */
  lemma SentReaches(headers: map<nat, string>, buffers: map<nat, string>, p: Piece, id: nat)
    requires headers.Keys == buffers.Keys && id in headers && p.Sent? && Writable(p)
    ensures var d := Dispatch(headers, buffers, p.id, Bytes(p)[1..]);
            var s := if p.id == id then p.text else "";
            !d.failed && d.buffers.Keys == buffers.Keys
            && AddChars(id, headers[id], buffers[id], s) == Fed(d.buffers[id], Only(d.printed, id))
  {
    SentTurn(p, [], Bytes(p)[1..]);
    DispatchReaches(headers, buffers, p.id, Bytes(p)[1..], id);
  }

  /**
   Whatever packets are written, with noise between them and to registered streams or not: every
   registered stream is fed exactly the characters sent to it, in order, and no byte is left over.
   */
  lemma {:induction false} PacketsReachTheirStreams(
    headers: map<nat, string>, buffers: map<nat, string>, ps: seq<Piece>, id: nat)
    requires headers.Keys == buffers.Keys && id in headers
    requires forall k :: 0 <= k < |ps| ==> Writable(ps[k])
    ensures var p := Parse(headers, buffers, Written(ps));
            && !p.failed && p.leftover == []
            && AddChars(id, headers[id], buffers[id], TextFor(ps, id)) == Fed(p.buffers[id], Only(p.printed, id))
    decreases |ps|
  {
    if ps != [] {
      var rest := Written(ps[1..]);
      match ps[0] {
        case Noise(b) =>
          NoiseTurn(b, rest);
          PacketsReachTheirStreams(headers, buffers, ps[1..], id);
          assert "" + TextFor(ps[1..], id) == TextFor(ps[1..], id);
        case Sent(_, _, _) => PacketFirst(headers, buffers, ps, id);
      }
    }
  }

  lemma {:induction false} PacketFirst(headers: map<nat, string>, buffers: map<nat, string>, ps: seq<Piece>, id: nat)
    requires headers.Keys == buffers.Keys && id in headers
    requires ps != [] && ps[0].Sent? && forall k :: 0 <= k < |ps| ==> Writable(ps[k])
    ensures var p := Parse(headers, buffers, Written(ps));
            && !p.failed && p.leftover == []
            && AddChars(id, headers[id], buffers[id], TextFor(ps, id)) == Fed(p.buffers[id], Only(p.printed, id))
    decreases |ps|, 0
  {
    var s, payload, rest := ps[0], Bytes(ps[0])[1..], Written(ps[1..]);
    SentTurn(s, rest, payload);
    SentReaches(headers, buffers, s, id);
    var d := Dispatch(headers, buffers, s.id, payload);
    PacketsReachTheirStreams(headers, d.buffers, ps[1..], id);
    var p := Parse(headers, d.buffers, rest);
    FeedOn(id, headers[id], buffers[id], if s.id == id then s.text else "", TextFor(ps[1..], id),
           Fed(d.buffers[id], Only(d.printed, id)), Fed(p.buffers[id], Only(p.printed, id)), d.printed, p.printed);
  }

  /** A packet cut short stays in the parser's buffer, untouched. */
  lemma CutPacketWaits(headers: map<nat, string>, buffers: map<nat, string>, p: Piece, n: nat)
    requires headers.Keys == buffers.Keys && p.Sent? && Writable(p) && 0 < n < |Bytes(p)|
    ensures Parse(headers, buffers, Bytes(p)[..n]) == Parsed(buffers, Bytes(p)[..n], [], false)
  {
    HeaderBits(p.id, p.low, Bytes(p)[0]);
    assert Bytes(p)[..n][0] == Bytes(p)[0];
  }

  /** A payload byte outside ASCII, sent to a registered stream, ends the program. */
  lemma ForeignByteFails(headers: map<nat, string>, buffers: map<nat, string>, id: nat, b: byte, rest: seq<byte>)
    requires headers.Keys == buffers.Keys && id in headers && id < 32 && b >= 128
    ensures Parse(headers, buffers, [(8 * id + 1) as byte, b] + rest).failed
  {
    var h := (8 * id + 1) as byte;
    HeaderBits(id, 1, h);
    var bs := [h, b] + rest;
    assert bs[1..2] == [b] && bs[2..] == rest;
    assert [b][0] == b && !Ascii([b]);
  }
}
