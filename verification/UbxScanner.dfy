/** The incremental UBX frame scan of ros2/scripts/serial_latency_probe.py. */
module UbxScanner {
  import opened Basics
  import opened UbxChecksum

  const KEEP := 4096

  predicate PreambleAt(buf: seq<byte>, i: nat) {
    i + 1 < |buf| && buf[i] == SYNC1 && buf[i + 1] == SYNC2
  }

  /** Index of the first preamble from `i` on, or |buf| when there is none. */
  function FindFrom(buf: seq<byte>, i: nat): (r: nat)
    requires i <= |buf|
    ensures i <= r <= |buf| && (r < |buf| ==> PreambleAt(buf, r))
    ensures forall j :: i <= j < r ==> !PreambleAt(buf, j)
    decreases |buf| - i
  {
    if i < |buf| && !PreambleAt(buf, i) then FindFrom(buf, i + 1) else i
  }

  function Find(buf: seq<byte>): nat {
    FindFrom(buf, 0)
  }

  lemma FindIs(buf: seq<byte>, i: nat)
    requires i <= |buf| && (i < |buf| ==> PreambleAt(buf, i))
    requires forall j :: 0 <= j < i ==> !PreambleAt(buf, j)
    ensures Find(buf) == i
  {
    var k := Find(buf);
    assert k < |buf| ==> PreambleAt(buf, k);
    assert i < |buf| ==> PreambleAt(buf, i);
  }

  /** The length field of a frame that starts at 0. */
  function PayloadLength(b: seq<byte>): nat
    requires |b| >= 6
  {
    b[4] as nat + 256 * b[5] as nat
  }

  function FrameLength(b: seq<byte>): nat
    requires |b| >= 6
  {
    PayloadLength(b) + 8
  }

  /** A whole frame starts at 0. */
  predicate Complete(b: seq<byte>) {
    |b| >= 6 && |b| >= FrameLength(b)
  }

  function MessageAt(b: seq<byte>): (m: Message)
    requires Complete(b)
    ensures |m.payload| == PayloadLength(b)
  {
    Message(b[2], b[3], b[6..6 + PayloadLength(b)])
  }

  predicate ChecksumMatches(b: seq<byte>)
    requires Complete(b)
  {
    var n := PayloadLength(b);
    ChecksumOf(Covered(MessageAt(b))) == (b[6 + n], b[7 + n])
  }

  datatype Scanned = Scanned(frames: seq<Message>, rest: seq<byte>)

  function Trimmed(buf: seq<byte>): seq<byte> {
    if |buf| > KEEP then buf[|buf| - KEEP..] else buf
  }

  /** One turn of the scan: stop and keep some bytes, accept a frame, or skip a preamble with a bad checksum. */
  datatype Turn = Stop(kept: seq<byte>) | Accept(message: Message, left: seq<byte>) | Skip(left: seq<byte>)

  function TurnOf(buf: seq<byte>): (t: Turn)
    ensures !t.Stop? ==> |t.left| < |buf|
  {
    var i := Find(buf);
    if i == |buf| then Stop(Trimmed(buf)) else Judged(buf[i..])
  }

  /** The turn for bytes that begin with a preamble. */
  function Judged(b: seq<byte>): (t: Turn)
    requires PreambleAt(b, 0)
    ensures !t.Stop? ==> |t.left| < |b|
  {
    if !Complete(b) then Stop(b)
    else if ChecksumMatches(b) then Accept(MessageAt(b), b[FrameLength(b)..])
    else Skip(b[2..])
  }

  /** One pass over `buf`: the frames accepted and the bytes kept for the next read. */
  function Scan(buf: seq<byte>): Scanned
    decreases |buf|
  {
    match TurnOf(buf)
    case Stop(kept) => Scanned([], kept)
    case Accept(m, left) => var s := Scan(left); Scanned([m] + s.frames, s.rest)
    case Skip(left) => Scan(left)
  }

  function Concat(chunks: seq<seq<byte>>): seq<byte> {
    if chunks == [] then [] else Concat(chunks[..|chunks| - 1]) + chunks[|chunks| - 1]
  }

  // ---------------------------------------------------------------- which bytes can still matter

  /** From the first preamble on, or a final byte that may be half of one. */
  function Live(buf: seq<byte>): seq<byte> {
    if Find(buf) < |buf| then buf[Find(buf)..]
    else if buf != [] && buf[|buf| - 1] == SYNC1 then [SYNC1]
    else []
  }

  /** Two scans that accepted the same frames and will go on alike. */
  ghost predicate Alike(s: Scanned, t: Scanned) {
    s.frames == t.frames && Live(s.rest) == Live(t.rest)
  }

  lemma PreambleShift(buf: seq<byte>, k: nat, j: nat)
    requires k <= |buf|
    ensures PreambleAt(buf[k..], j) == PreambleAt(buf, k + j)
  {
  }

  /** Dropping bytes before the first preamble moves it to the front. */
  lemma FindAfterDrop(buf: seq<byte>, k: nat)
    requires k <= Find(buf)
    ensures Find(buf[k..]) == Find(buf) - k
  {
    forall j | 0 <= j < Find(buf) - k ensures !PreambleAt(buf[k..], j) {
      PreambleShift(buf, k, j);
    }
    FindIs(buf[k..], Find(buf) - k);
  }

  lemma ScanSkipsGarbage(buf: seq<byte>, k: nat)
    requires k <= Find(buf) < |buf|
    ensures Scan(buf) == Scan(buf[k..])
  {
    FindAfterDrop(buf, k);
    DropOfDrop(buf, k, Find(buf) - k);
    SameTurn(buf, buf[k..]);
  }

  lemma SameTurn(a: seq<byte>, b: seq<byte>)
    requires Find(a) < |a| && Find(b) < |b| && a[Find(a)..] == b[Find(b)..]
    ensures TurnOf(a) == TurnOf(b)
  {
  }

  lemma QuietTail(buf: seq<byte>, k: nat)
    requires k < |buf| == Find(buf)
    ensures Live(buf[k..]) == Live(buf)
  {
    FindAfterDrop(buf, k);
    NoPreambleLive(buf, buf[k..]);
  }

  /** With no preamble in sight the kept tail is as good as everything. */
  lemma TrimKeepsLive(buf: seq<byte>)
    requires Find(buf) == |buf|
    ensures Live(Trimmed(buf)) == Live(buf)
  {
    if |buf| > KEEP {
      QuietTail(buf, |buf| - KEEP);
      assert Trimmed(buf) == buf[|buf| - KEEP..];
    } else {
      assert Trimmed(buf) == buf;
    }
  }

  lemma NoPreambleLive(a: seq<byte>, b: seq<byte>)
    requires Find(a) == |a| > 0 && Find(b) == |b| > 0 && a[|a| - 1] == b[|b| - 1]
    ensures Live(a) == Live(b)
  {
  }

  /** Appending does not hide a preamble that is already there. */
  lemma FindInPrefix(x: seq<byte>, y: seq<byte>)
    requires Find(x) < |x|
    ensures Find(x + y) == Find(x)
  {
    forall j | 0 <= j < Find(x) ensures !PreambleAt(x + y, j) {
      assert !PreambleAt(x, j);
      assert PreambleAt(x, Find(x));
    }
    assert PreambleAt(x, Find(x));
    FindIs(x + y, Find(x));
  }

  /** Without a preamble in `x`, the first one of `x + y` starts in the live part or later. */
  lemma NoEarlierPreamble(x: seq<byte>, y: seq<byte>, k: nat)
    requires Find(x) == |x| && k == |x| - |Live(x)|
    ensures k <= Find(x + y)
  {
    forall j | 0 <= j < k ensures !PreambleAt(x + y, j) {
      assert !PreambleAt(x, j);
    }
    assert Find(x + y) < |x + y| ==> PreambleAt(x + y, Find(x + y));
  }

  lemma DeadHead(x: seq<byte>, y: seq<byte>)
    ensures var k := |x| - |Live(x)|;
            (x + y)[k..] == Live(x) + y && (Find(x + y) < |x + y| ==> k <= Find(x + y))
  {
    var k := |x| - |Live(x)|;
    assert x[k..] == Live(x);
    DropOfAppend(x, y, k);
    if Find(x) < |x| {
      FindInPrefix(x, y);
    } else {
      NoEarlierPreamble(x, y, k);
    }
  }

  lemma DropOfAppend(x: seq<byte>, y: seq<byte>, k: nat)
    requires k <= |x|
    ensures (x + y)[k..] == x[k..] + y
  {
  }

  lemma QuietScan(buf: seq<byte>, k: nat)
    requires k <= |buf| == Find(buf)
    ensures Alike(Scan(buf), Scanned([], buf)) && Alike(Scan(buf[k..]), Scanned([], buf[k..]))
  {
    FindAfterDrop(buf, k);
    TrimKeepsLive(buf);
    TrimKeepsLive(buf[k..]);
  }

  /** What is not live never takes part in a later frame. */
  lemma OnlyLiveMatters(x: seq<byte>, y: seq<byte>)
    ensures Alike(Scan(x + y), Scan(Live(x) + y))
  {
    var k := |x| - |Live(x)|;
    DeadHead(x, y);
    if Find(x + y) < |x + y| {
      ScanSkipsGarbage(x + y, k);
    } else {
      QuietScan(x + y, k);
      SameLastByte(x, y);
    }
  }

  lemma SameLastByte(x: seq<byte>, y: seq<byte>)
    requires Find(x + y) == |x + y|
    ensures Live(x + y) == Live(Live(x) + y)
  {
    DeadHead(x, y);
    FindAfterDrop(x + y, |x| - |Live(x)|);
  }

  // ---------------------------------------------------------------- cutting the stream

  /** A frame that could be judged is judged the same when more bytes follow. */
  lemma TurnIsStable(x: seq<byte>, y: seq<byte>)
    requires !TurnOf(x).Stop?
    ensures TurnOf(x + y) == TurnOf(x).(left := TurnOf(x).left + y)
  {
    var i := Find(x);
    FindInPrefix(x, y);
    DropOfAppend(x, y, i);
    JudgedAlike(x[i..], y, PayloadLength(x[i..]));
  }

  lemma JudgedAlike(b: seq<byte>, y: seq<byte>, n: nat)
    requires Complete(b) && n == PayloadLength(b)
    ensures Complete(b + y) && MessageAt(b + y) == MessageAt(b) && ChecksumMatches(b + y) == ChecksumMatches(b)
    ensures (b + y)[FrameLength(b + y)..] == b[FrameLength(b)..] + y && (b + y)[2..] == b[2..] + y
  {
    assert (b + y)[6..6 + n] == b[6..6 + n];
    DropOfAppend(b, y, n + 8);
    DropOfAppend(b, y, 2);
  }

  /** When the scan stops, only dead bytes are gone. */
  lemma StopKeepsLive(x: seq<byte>)
    requires TurnOf(x).Stop?
    ensures Live(TurnOf(x).kept) == Live(x)
  {
    if Find(x) == |x| {
      TrimKeepsLive(x);
    } else {
      FindAfterDrop(x, Find(x));
      assert x[Find(x)..][0..] == x[Find(x)..];
    }
  }

  /** The scan of `x`, then of what it left followed by `y`. */
  function ScanTwice(x: seq<byte>, y: seq<byte>): Scanned {
    var s := Scan(x);
    var t := Scan(s.rest + y);
    Scanned(s.frames + t.frames, t.rest)
  }

  lemma StopSplits(x: seq<byte>, y: seq<byte>)
    requires TurnOf(x).Stop?
    ensures Alike(Scan(x + y), ScanTwice(x, y))
  {
    var kept := TurnOf(x).kept;
    StopKeepsLive(x);
    OnlyLiveMatters(kept, y);
    OnlyLiveMatters(x, y);
    StopThenScan(x, y, kept);
  }

  lemma StopThenScan(x: seq<byte>, y: seq<byte>, kept: seq<byte>)
    requires TurnOf(x) == Stop(kept)
    ensures ScanTwice(x, y) == Scan(kept + y)
  {
    assert [] + Scan(kept + y).frames == Scan(kept + y).frames;
  }

  lemma TwiceAfterAccept(x: seq<byte>, y: seq<byte>)
    requires TurnOf(x).Accept?
    ensures var t := ScanTwice(TurnOf(x).left, y);
            ScanTwice(x, y) == Scanned([TurnOf(x).message] + t.frames, t.rest)
  {
    var m, s := TurnOf(x).message, Scan(TurnOf(x).left);
    ConsAppend(m, s.frames, Scan(s.rest + y).frames);
  }

  lemma ConsAppend(m: Message, a: seq<Message>, b: seq<Message>)
    ensures ([m] + a) + b == [m] + (a + b)
  {
  }

  lemma AcceptSplits(x: seq<byte>, y: seq<byte>)
    requires TurnOf(x).Accept? && Alike(Scan(TurnOf(x).left + y), ScanTwice(TurnOf(x).left, y))
    ensures Alike(Scan(x + y), ScanTwice(x, y))
  {
    TurnIsStable(x, y);
    TwiceAfterAccept(x, y);
  }

  lemma SkipSplits(x: seq<byte>, y: seq<byte>)
    requires TurnOf(x).Skip? && Alike(Scan(TurnOf(x).left + y), ScanTwice(TurnOf(x).left, y))
    ensures Alike(Scan(x + y), ScanTwice(x, y))
  {
    TurnIsStable(x, y);
  }

  /** Scanning in two reads is scanning at once. */
  lemma {:induction false} ScanSplits(x: seq<byte>, y: seq<byte>)
    ensures Alike(Scan(x + y), ScanTwice(x, y))
    decreases |x|
  {
    match TurnOf(x) {
      case Stop(_) => StopSplits(x, y);
      case Accept(_, left) => ScanSplits(left, y); AcceptSplits(x, y);
      case Skip(left) => ScanSplits(left, y); SkipSplits(x, y);
    }
  }

  /** What is left to do after the loop has accepted `accepted` and holds `buf`. */
  ghost predicate Drained(whole: Scanned, accepted: seq<Message>, s: Scanned) {
    whole == Scanned(accepted + s.frames, s.rest)
  }

  lemma DrainOn(whole: Scanned, accepted: seq<Message>, buf: seq<byte>)
    requires Drained(whole, accepted, Scan(buf))
    ensures match TurnOf(buf)
            case Stop(kept) => whole == Scanned(accepted, kept)
            case Accept(m, left) => Drained(whole, accepted + [m], Scan(left))
            case Skip(left) => Drained(whole, accepted, Scan(left))
  {
    if TurnOf(buf).Accept? {
      AppendCons(accepted, TurnOf(buf).message, Scan(TurnOf(buf).left).frames);
    } else if TurnOf(buf).Stop? {
      assert accepted + [] == accepted;
    }
  }

  lemma AppendCons(a: seq<Message>, m: Message, b: seq<Message>)
    ensures a + ([m] + b) == (a + [m]) + b
  {
  }

  /** The inner loop: every iteration that goes on has shortened the buffer. */
  method Drain(start: seq<byte>) returns (accepted: seq<Message>, buf: seq<byte>)
    ensures Scan(start) == Scanned(accepted, buf)
  {
    accepted, buf := [], start;
    ghost var whole := Scan(start);
    assert [] + whole.frames == whole.frames;
    while true
      invariant Drained(whole, accepted, Scan(buf))
      decreases |buf|
    {
      DrainOn(whole, accepted, buf);
      var turn := JudgeFirst(buf);
      match turn {
        case Stop(kept) =>
          buf := kept;
          return;
        case Accept(m, left) =>
          accepted, buf := accepted + [m], left;
        case Skip(left) =>
          buf := left;
      }
    }
  }

  /** The loop's body: look for a preamble, wait for the whole frame, compare the checksum. */
  method JudgeFirst(buf: seq<byte>) returns (turn: Turn)
    ensures turn == TurnOf(buf)
  {
    var i := Find(buf);
    if i == |buf| {
      return Stop(if |buf| > KEEP then buf[|buf| - KEEP..] else buf);
    }
    if |buf| < i + 6 {
      return Stop(buf[i..]);
    }
    var n := buf[i + 4] as nat + 256 * buf[i + 5] as nat;
    if |buf| < i + 6 + n + 2 {
      return Stop(buf[i..]);
    }
    var m := Message(buf[i + 2], buf[i + 3], buf[i + 6..i + 6 + n]);
    var a', b' := Checksum(Covered(m));
    DrainTurn(buf, i, n, m);
    if a' == buf[i + 6 + n] && b' == buf[i + 6 + n + 1] {
      return Accept(m, buf[i + 6 + n + 2..]);
    }
    return Skip(buf[i + 2..]);
  }

  /** The loop body's slices of the buffer are the turn's. */
  lemma DrainTurn(buf: seq<byte>, i: nat, n: nat, m: Message)
    requires i == Find(buf) && i + 6 <= |buf| && n == PayloadLength(buf[i..]) && i + n + 8 <= |buf|
    requires m == Message(buf[i + 2], buf[i + 3], buf[i + 6..i + 6 + n])
    ensures TurnOf(buf)
            == if ChecksumOf(Covered(m)) == (buf[i + 6 + n], buf[i + 6 + n + 1]) then Accept(m, buf[i + 6 + n + 2..])
               else Skip(buf[i + 2..])
  {
    var b := buf[i..];
    SliceOfDrop(buf, i, 6, 6 + n);
    DropOfDrop(buf, i, n + 8);
    DropOfDrop(buf, i, 2);
    assert MessageAt(b) == m && b[6 + n] == buf[i + 6 + n] && b[7 + n] == buf[i + 7 + n];
  }

  lemma SliceOfDrop(s: seq<byte>, i: nat, j: nat, k: nat)
    requires j <= k && i + k <= |s|
    ensures s[i..][j..k] == s[i + j..i + k]
  {
  }

  lemma DropOfDrop(s: seq<byte>, i: nat, j: nat)
    requires i + j <= |s|
    ensures s[i..][j..] == s[i + j..]
  {
  }

  lemma NextRead(stream: seq<byte>, accepted: seq<Message>, buf: seq<byte>, chunk: seq<byte>)
    requires Alike(Scan(stream), Scanned(accepted, buf))
    ensures var s := Scan(buf + chunk);
            Alike(Scan(stream + chunk), Scanned(accepted + s.frames, s.rest))
  {
    ScanSplits(stream, chunk);
    OnlyLiveMatters(Scan(stream).rest, chunk);
    OnlyLiveMatters(buf, chunk);
  }

  /**
   The read loop of `main`. However the stream is cut into reads, the frames accepted are those of one
   pass over the whole stream, and the bytes left behind will go on like the bytes that pass leaves.
   */
  method Probe(cuts: seq<seq<byte>>) returns (accepted: seq<Message>, buf: seq<byte>)
    ensures accepted == Scan(Concat(cuts)).frames
    ensures Live(buf) == Live(Scan(Concat(cuts)).rest)
  {
    accepted, buf := [], [];
    for r := 0 to |cuts|
      invariant Alike(Scan(Concat(cuts[..r])), Scanned(accepted, buf))
    {
      var chunk := cuts[r];
      assert cuts[..r + 1][..r] == cuts[..r];
      if chunk == [] {
        assert Concat(cuts[..r]) + chunk == Concat(cuts[..r]);
        continue;
      }
      NextRead(Concat(cuts[..r]), accepted, buf, chunk);
      var frames;
      frames, buf := Drain(buf + chunk);
      accepted := accepted + frames;
    }
    assert cuts[..|cuts|] == cuts;
  }

  // ---------------------------------------------------------------- built frames come back

  lemma BuiltFrameShape(m: Message, y: seq<byte>)
    requires |m.payload| <= MAX_PAYLOAD
    ensures var b := FrameBytes(m) + y;
            Complete(b) && FrameLength(b) == |FrameBytes(m)| && MessageAt(b) == m && ChecksumMatches(b)
            && PreambleAt(b, 0)
  {
    var f, n := FrameBytes(m), |m.payload|;
    assert (f + y)[6..6 + n] == m.payload;
  }

  ghost predicate PreambleFree(g: seq<byte>) {
    forall j :: 0 <= j < |g| ==> !PreambleAt(g, j)
  }

  lemma FrameAfterGarbage(g: seq<byte>, m: Message, y: seq<byte>)
    requires PreambleFree(g) && |m.payload| <= MAX_PAYLOAD
    ensures var s := Scan(y);
            Scan(g + FrameBytes(m) + y) == Scanned([m] + s.frames, s.rest)
  {
    var f := FrameBytes(m);
    var buf := g + f + y;
    assert buf[|g|..] == f + y;
    BuiltFrameShape(m, y);
    PreambleShift(buf, |g|, 0);
    forall j | 0 <= j < |g| ensures !PreambleAt(buf, j) {
      assert !PreambleAt(g, j);
      assert buf[|g|] == SYNC1;
    }
    FindIs(buf, |g|);
    assert (f + y)[|f|..] == y;
  }

  datatype Piece = Piece(garbage: seq<byte>, message: Message)

  /** Garbage, frame, garbage, frame, ... */
  function Line(ps: seq<Piece>): seq<byte>
    requires forall p :: p in ps ==> |p.message.payload| <= MAX_PAYLOAD
  {
    if ps == [] then [] else ps[0].garbage + FrameBytes(ps[0].message) + Line(ps[1..])
  }

  function Messages(ps: seq<Piece>): seq<Message> {
    if ps == [] then [] else [ps[0].message] + Messages(ps[1..])
  }

  /** Everything sent through `build_ubx` is received, once, in order, and nothing else is. */
  lemma {:induction false} ScanInvertsBuild(ps: seq<Piece>, tail: seq<byte>)
    requires forall p :: p in ps ==> |p.message.payload| <= MAX_PAYLOAD && PreambleFree(p.garbage)
    requires PreambleFree(tail)
    ensures Scan(Line(ps) + tail).frames == Messages(ps)
  {
    if ps == [] {
      assert Line(ps) + tail == tail;
      FindIs(tail, |tail|);
    } else {
      ScanInvertsBuild(ps[1..], tail);
      var p := ps[0];
      assert Line(ps) + tail == p.garbage + FrameBytes(p.message) + (Line(ps[1..]) + tail);
      FrameAfterGarbage(p.garbage, p.message, Line(ps[1..]) + tail);
    }
  }

  // ---------------------------------------------------------------- damaged frames

  /** The payload length two length bytes announce. */
  function Announced(lo: byte, hi: byte): nat {
    lo as nat + 256 * hi as nat
  }

  /** As many bytes as a header announces are there, and their checksum and the header's is the one that follows. */
  predicate Passes(cls: byte, id: byte, lo: byte, hi: byte, tail: seq<byte>) {
    var n := Announced(lo, hi);
    n + 2 <= |tail| && ChecksumOf([cls, id, lo, hi] + tail[..n]) == (tail[n], tail[n + 1])
  }

  /** Payload and checksum of a frame. */
  function Body(m: Message): (r: seq<byte>)
    requires |m.payload| <= MAX_PAYLOAD
    ensures |r| == |m.payload| + 2
  {
    var (a, b) := ChecksumOf(Covered(m));
    m.payload + [a, b]
  }

  /** What any header and any bytes behind it, from whatever damage, are taken for. */
  lemma JudgedExactly(cls: byte, id: byte, lo: byte, hi: byte, tail: seq<byte>)
    ensures var n, b := lo as nat + 256 * hi as nat, [0xB5, 0x62, cls, id, lo, hi] + tail;
            TurnOf(b) == if |tail| < n + 2 then Stop(b)
                         else if Passes(cls, id, lo, hi, tail) then Accept(Message(cls, id, tail[..n]), tail[n + 2..])
                         else Skip(b[2..])
  {
    var n, b := Announced(lo, hi), [SYNC1, SYNC2, cls, id, lo, hi] + tail;
    assert PreambleAt(b, 0);
    FindIs(b, 0);
    assert b[0..] == b;
    if n + 2 <= |tail| {
      BehindHeader([SYNC1, SYNC2, cls, id, lo, hi], tail, n);
      assert n % 256 == lo as nat && n / 256 == hi as nat;
    }
  }

  lemma BehindHeader(head: seq<byte>, tail: seq<byte>, n: nat)
    requires |head| == 6 && n + 2 <= |tail|
    ensures var b := head + tail;
            b[6..6 + n] == tail[..n] && b[n + 8..] == tail[n + 2..] && b[6 + n] == tail[n] && b[7 + n] == tail[n + 1]
  {
  }

  lemma HeaderAndRest(g: seq<byte>, y: seq<byte>)
    requires |g| >= 6 && PreambleAt(g, 0)
    ensures g + y == [SYNC1, SYNC2, g[2], g[3], g[4], g[5]] + (g[6..] + y)
  {
  }

  /** Without the two preamble bytes in a row anywhere, the scan accepts nothing and keeps the last 4096 bytes. */
  lemma NoPreambleKeepsTheTail(buf: seq<byte>)
    requires forall j :: 0 <= j < |buf| - 1 ==> buf[j] != 0xB5 || buf[j + 1] != 0x62
    ensures Scan(buf) == Scanned([], if |buf| > 4096 then buf[|buf| - 4096..] else buf)
  {
    FindIs(buf, |buf|);
  }

  /** A frame whose preamble and length survived is judged by its own bytes alone. */
  lemma KeptLengthIsJudged(g: seq<byte>, n: nat, y: seq<byte>)
    requires |g| == n + 8 && PreambleAt(g, 0) && n == Announced(g[4], g[5])
    ensures TurnOf(g + y) == if ChecksumOf(g[2..6 + n]) == (g[6 + n], g[7 + n])
                             then Accept(Message(g[2], g[3], g[6..6 + n]), y)
                             else Skip((g + y)[2..])
  {
    HeaderAndRest(g, y);
    JudgedExactly(g[2], g[3], g[4], g[5], g[6..] + y);
    OwnBytes(g, n, y, g[6..] + y);
  }

  lemma OwnBytes(g: seq<byte>, n: nat, y: seq<byte>, tail: seq<byte>)
    requires |g| == n + 8 && tail == g[6..] + y
    ensures tail[..n] == g[6..6 + n] && tail[n + 2..] == y && tail[n] == g[6 + n] && tail[n + 1] == g[7 + n]
    ensures g[2..6 + n] == [g[2], g[3], g[4], g[5]] + tail[..n]
  {
  }

  /** The parts of a frame, for comparing a damaged one with it. */
  lemma FrameParts(m: Message)
    requires |m.payload| <= MAX_PAYLOAD
    ensures var f, n := FrameBytes(m), |m.payload|;
            && |f| == n + 8 && f[2..6 + n] == Covered(m) && (f[6 + n], f[7 + n]) == ChecksumOf(Covered(m))
            && |Covered(m)| == n + 4 && f[6..] == Body(m)
            && PreambleAt(f, 0) && f[2] == m.cls && f[3] == m.id && Announced(f[4], f[5]) == n
  {
    var f, n := FrameBytes(m), |m.payload|;
    assert f[2..6 + n] == Covered(m) && f[6..] == Body(m);
  }

  /** Changing one byte of a frame, other than its preamble and length, makes the scan skip the frame's preamble. */
  lemma CorruptedFrameIsRejected(m: Message, k: nat, v: byte, y: seq<byte>)
    requires |m.payload| <= MAX_PAYLOAD
    requires 2 <= k < |FrameBytes(m)| && k != 4 && k != 5 && v != FrameBytes(m)[k]
    ensures var b := FrameBytes(m)[k := v] + y;
            TurnOf(b) == Skip(b[2..])
  {
    var f, n := FrameBytes(m), |m.payload|;
    var g := f[k := v];
    FrameParts(m);
    KeptLengthIsJudged(g, n, y);
    if k < 6 + n {
      assert g[2..6 + n] == Covered(m)[k - 2 := v];
      SingleByteChangeIsDetected(Covered(m), k - 2, v);
    } else {
      assert g[2..6 + n] == Covered(m);
    }
  }

  /**
   Changing a byte of the length: the scan accepts exactly when enough bytes follow and the checksum over
   the announced length happens to be the two bytes behind it.
   */
  lemma CorruptedLengthIsAcceptedExactly(m: Message, k: nat, v: byte, y: seq<byte>)
    requires |m.payload| <= MAX_PAYLOAD && (k == 4 || k == 5) && v != FrameBytes(m)[k]
    ensures var g := FrameBytes(m)[k := v];
            var n := Announced(g[4], g[5]);
            && n != |m.payload|
            && TurnOf(g + y) == if |m.payload| + |y| < n then Stop(g + y)
                                else if Passes(m.cls, m.id, g[4], g[5], Body(m) + y)
                                then Accept(Message(m.cls, m.id, (Body(m) + y)[..n]), (Body(m) + y)[n + 2..])
                                else Skip((g + y)[2..])
  {
    var g := FrameBytes(m)[k := v];
    LengthReplaced(m, k, v, y);
    JudgedExactly(m.cls, m.id, g[4], g[5], Body(m) + y);
  }

  lemma LengthReplaced(m: Message, k: nat, v: byte, y: seq<byte>)
    requires |m.payload| <= MAX_PAYLOAD && (k == 4 || k == 5) && v != FrameBytes(m)[k]
    ensures var g := FrameBytes(m)[k := v];
            && g + y == [SYNC1, SYNC2, m.cls, m.id, g[4], g[5]] + (Body(m) + y)
            && Announced(g[4], g[5]) != |m.payload|
  {
    var g := FrameBytes(m)[k := v];
    FrameParts(m);
    TailAfterHeader(FrameBytes(m), g, k, v);
    HeaderAndRest(g, y);
  }

  lemma TailAfterHeader(f: seq<byte>, g: seq<byte>, k: nat, v: byte)
    requires k < 6 <= |f| && g == f[k := v]
    ensures g[6..] == f[6..]
  {
  }

  /** Whether a shortened length passes depends on the message alone: its sender can tell. */
  lemma ShorterLengthDependsOnTheMessage(m: Message, lo: byte, hi: byte, y: seq<byte>)
    requires |m.payload| <= MAX_PAYLOAD && Announced(lo, hi) <= |m.payload|
    ensures Passes(m.cls, m.id, lo, hi, Body(m) + y) <==> Passes(m.cls, m.id, lo, hi, Body(m))
  {
    var n := Announced(lo, hi);
    assert (Body(m) + y)[..n] == Body(m)[..n];
  }

  /** One wrong length byte, and the scan accepts a message nobody sent. */
  lemma CorruptedLengthCanBeAccepted(y: seq<byte>)
    ensures var m := Message(1, 2, [3, 10]);
            var t := TurnOf(FrameBytes(m)[4 := 0] + y);
            t.Accept? && t.message == Message(1, 2, [])
  {
    var m := Message(1, 2, [3, 10]);
    FrameParts(m);
    CorruptedLengthIsAcceptedExactly(m, 4, 0, y);
    EmptyMessagePasses(Body(m) + y);
  }

  lemma EmptyMessagePasses(tail: seq<byte>)
    requires |tail| >= 2 && tail[0] == 3 && tail[1] == 10
    ensures Passes(1, 2, 0, 0, tail)
  {
    ChecksumOfFour(1, 2, 0, 0);
    assert [1, 2, 0, 0] + tail[..0] == [1 as byte, 2, 0, 0];
  }

  lemma ChecksumOfFour(p: byte, q: byte, r: byte, s: byte)
    ensures var a := p as nat + q as nat + r as nat + s as nat;
            var b := 4 * p as nat + 3 * q as nat + 2 * r as nat + s as nat;
            ChecksumOf([p, q, r, s]) == ((a % 256) as byte, (b % 256) as byte)
  {
    var d1, d2, d3, d4 := [p], [p, q], [p, q, r], [p, q, r, s];
    assert d4[..3] == d3 && d3[..2] == d2 && d2[..1] == d1 && d1[..0] == [];
    assert Sum(d1) == p as nat && Sum(d2) == Sum(d1) + q as nat && Sum(d3) == Sum(d2) + r as nat;
    assert PrefixSums(d1) == p as nat && PrefixSums(d2) == PrefixSums(d1) + Sum(d2);
    assert PrefixSums(d3) == PrefixSums(d2) + Sum(d3);
  }

  /** Swapping the last payload byte with the first checksum byte shifts the second sum, which stays on the wire. */
  lemma LastByteSwapIsDetected(data: seq<byte>, v: byte)
    requires data != [] && v != data[|data| - 1]
    ensures ChecksumOf(data[|data| - 1 := v]).1 != ChecksumOf(data).1
  {
    var d := v as int - data[|data| - 1] as int;
    UpdateSums(data, |data| - 1, v, 1, d);
    ScaledIsTimes(1, d);
    NearbySumsDiffer(PrefixSums(data), PrefixSums(data[|data| - 1 := v]));
  }

  lemma SwapInside(f: seq<byte>, i: nat, end: nat)
    requires 2 <= i && i + 1 < end <= |f|
    ensures var data := f[2..end];
            data[i - 2] == f[i] && data[i - 1] == f[i + 1]
            && Swapped(f, i, i + 1)[2..end] == Swapped(data, i - 2, i - 1)
            && Swapped(f, i, i + 1)[end..] == f[end..]
  {
  }

  lemma SwapUnderTheChecksum(f: seq<byte>, i: nat, end: nat)
    requires 2 <= i && i + 1 < end && end + 2 == |f| && f[i] != f[i + 1]
    requires ChecksumOf(f[2..end]) == (f[end], f[end + 1])
    ensures var g := Swapped(f, i, i + 1);
            ChecksumOf(g[2..end]) != (g[end], g[end + 1])
  {
    SwapInside(f, i, end);
    AdjacentSwapIsDetected(f[2..end], i - 2);
  }

  lemma SwapAcrossTheEnd(f: seq<byte>, end: nat)
    requires 3 < end && end + 2 == |f| && f[end - 1] != f[end] && ChecksumOf(f[2..end]) == (f[end], f[end + 1])
    ensures var g := Swapped(f, end - 1, end);
            ChecksumOf(g[2..end]) != (g[end], g[end + 1])
  {
    var data, g := f[2..end], Swapped(f, end - 1, end);
    assert g[2..end] == data[|data| - 1 := f[end]];
    LastByteSwapIsDetected(data, f[end]);
  }

  lemma SwapOfTheChecksum(f: seq<byte>, end: nat)
    requires 2 <= end && end + 2 == |f| && f[end] != f[end + 1] && ChecksumOf(f[2..end]) == (f[end], f[end + 1])
    ensures var g := Swapped(f, end, end + 1);
            ChecksumOf(g[2..end]) != (g[end], g[end + 1])
  {
    assert Swapped(f, end, end + 1)[2..end] == f[2..end];
  }

  /** Swapping two different neighbours outside preamble and length, checksum bytes included, is always rejected. */
  lemma AdjacentSwapInFrameIsRejected(m: Message, i: nat, y: seq<byte>)
    requires |m.payload| <= MAX_PAYLOAD
    requires (i == 2 || i >= 6) && i + 1 < |FrameBytes(m)| && FrameBytes(m)[i] != FrameBytes(m)[i + 1]
    ensures var b := Swapped(FrameBytes(m), i, i + 1) + y;
            TurnOf(b) == Skip(b[2..])
  {
    var f, n := FrameBytes(m), |m.payload|;
    FrameParts(m);
    KeptLengthIsJudged(Swapped(f, i, i + 1), n, y);
    if i + 1 < 6 + n {
      SwapUnderTheChecksum(f, i, 6 + n);
    } else if i + 1 == 6 + n {
      SwapAcrossTheEnd(f, 6 + n);
    } else {
      SwapOfTheChecksum(f, 6 + n);
    }
  }

  /** A swap that touches the length is judged like any other damage to it. */
  lemma LengthSwapIsAcceptedExactly(m: Message, i: nat, y: seq<byte>)
    requires |m.payload| <= MAX_PAYLOAD && 3 <= i <= 5
    ensures var g := Swapped(FrameBytes(m), i, i + 1);
            TurnOf(g + y).Accept? <==> Passes(g[2], g[3], g[4], g[5], g[6..] + y)
  {
    var g := Swapped(FrameBytes(m), i, i + 1);
    FrameParts(m);
    HeaderAndRest(g, y);
    JudgedExactly(g[2], g[3], g[4], g[5], g[6..] + y);
  }
}
