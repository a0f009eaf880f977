/** The browser half of the delta protocol (gui/web/src/hooks/multiplexedSocket.ts). */
module GridBrowser {
  import opened Basics
  import opened GridDelta

  /** The grid held for a delta topic and the seq it was reached with. */
  datatype Held = Held(seqNo: nat, grid: Grid)

  datatype Client = Client(held: Option<Held>, resyncing: bool)

  const FRESH := Client(None, false)

  /** What one frame does: the new state, the grid handed to the listeners, and whether a resync is requested. */
  datatype Outcome = Outcome(client: Client, shown: Option<Grid>, asks: bool)

  // ---------------------------------------------------------------- the meaning of a patch

  datatype Walk = Walk(cells: seq<int>, at: int)

  /** The cells and the cursor after the first `n` entries of a patch, or None once the cursor left the grid. */
  function Walked(cells: seq<int>, gaps: seq<int>, vals: seq<int>, n: nat): (w: Option<Walk>)
    requires n <= |gaps| == |vals|
    ensures w.Some? ==> |w.value.cells| == |cells|
  {
    if n == 0 then Some(Walk(cells, 0))
    else
      match Walked(cells, gaps, vals, n - 1)
      case None => None
      case Some(w) =>
        var at := w.at + gaps[n - 1];
        if 0 <= at < |cells| then Some(Walk(w.cells[at := vals[n - 1]], at)) else None
  }

  predicate Applicable(c: Client, f: Frame)
    requires f.Patch?
  {
    && c.held.Some? && c.held.value.seqNo == f.base && |f.gaps| == |f.vals|
    && Walked(c.held.value.grid.cells, f.gaps, f.vals, |f.gaps|).Some?
  }

  function Receive(c: Client, f: Frame): Outcome {
    match f
    case Full(seqNo, raw) => Outcome(Client(Some(Held(seqNo, raw)), false), Some(raw), false)
    case Patch(seqNo, _, header, gaps, vals) =>
      if Applicable(c, f) then
        var held := c.held.value.grid;
        var cells := Walked(held.cells, gaps, vals, |gaps|).value.cells;
        var grid := held.(cells := cells, header := if header.Some? then header else held.header);
        Outcome(Client(Some(Held(seqNo, grid)), c.resyncing), Some(grid), false)
      else Outcome(Client(None, true), None, !c.resyncing)
  }

  /** The grids entry of one topic; `data` is the cell array shared with the listeners and patched in place. */
  class Browser {
    var holding: bool
    var seqNo: nat
    var meta: Grid
    var data: array<int>
    var resyncing: bool

    ghost function State(): Client reads this, data {
      Client(if holding then Some(Held(seqNo, meta.(cells := data[..]))) else None, resyncing)
    }

    constructor ()
      ensures State() == FRESH && fresh(data)
    {
      holding, seqNo, resyncing := false, 0, false;
      meta, data := Grid(None, 0, 0.0, 0, 0, "", []), new int[0];
    }

    method RequestFullGrid() returns (asks: bool)
      modifies this
      ensures State() == Client(None, true) && asks == !old(resyncing) && data == old(data)
    {
      holding := false;
      asks := !resyncing;
      resyncing := true;
    }

    method RememberGrid(no: nat, grid: Grid)
      modifies this
      ensures State() == Client(Some(Held(no, grid)), false) && fresh(data)
    {
      resyncing, holding, seqNo, meta := false, true, no, grid;
      data := new int[|grid.cells|](k requires 0 <= k < |grid.cells| => grid.cells[k]);
      assert data[..] == grid.cells;
      assert meta.(cells := data[..]) == grid;
    }

    method ApplyGridPatch(f: Frame) returns (shown: Option<Grid>, asks: bool)
      requires f.Patch?
      modifies this, data
      ensures Outcome(State(), shown, asks) == Receive(old(State()), f)
      ensures data == old(data)
    {
      if !holding || seqNo != f.base || |f.gaps| != |f.vals| {
        asks := RequestFullGrid();
        return None, asks;
      }
      ghost var was := data[..];
      var at := 0;
      for i := 0 to |f.gaps|
        invariant unchanged(this)
        invariant Walked(was, f.gaps, f.vals, i) == Some(Walk(data[..], at))
      {
        at := at + f.gaps[i];
        if at < 0 || at >= data.Length {
          WalkStops(was, f.gaps, f.vals, i + 1, |f.gaps|);
          asks := RequestFullGrid();
          return None, asks;
        }
        data[at] := f.vals[i];
      }
      seqNo := f.seqNo;
      if f.header.Some? {
        meta := meta.(header := f.header);
      }
      return Some(meta.(cells := data[..])), false;
    }

    method OnFrame(f: Frame) returns (shown: Option<Grid>, asks: bool)
      modifies this, data
      ensures Outcome(State(), shown, asks) == Receive(old(State()), f)
      ensures data == old(data) || fresh(data)
    {
      if f.Full? {
        RememberGrid(f.seqNo, f.raw);
        return Some(f.raw), false;
      }
      shown, asks := ApplyGridPatch(f);
    }
  }

  /** Once the cursor has left the grid the patch is refused, whatever follows. */
  lemma {:induction false} WalkStops(cells: seq<int>, gaps: seq<int>, vals: seq<int>, m: nat, n: nat)
    requires m <= n <= |gaps| == |vals|
    requires Walked(cells, gaps, vals, m).None?
    ensures Walked(cells, gaps, vals, n).None?
  {
    if m < n {
      WalkStops(cells, gaps, vals, m, n - 1);
    }
  }

  // ---------------------------------------------------------------- patches and what they stand for

  /** `was` with the cells listed in `idx` taken from `now`. */
  ghost predicate Overlaid(out: seq<int>, was: seq<int>, now: seq<int>, idx: seq<nat>)
    requires |was| == |now|
  {
    && |out| == |was|
    && forall i :: 0 <= i < |was| ==> out[i] == if i in idx then now[i] else was[i]
  }

  /** Decoding the gaps visits exactly the listed indices and writes exactly their new values. */
  lemma {:induction false} WalkFollowsIndices(was: seq<int>, now: seq<int>, idx: seq<nat>, n: nat)
    requires |was| == |now| && Ascending(idx, |now|) && n <= |idx|
    ensures var w := Walked(was, Deltas(idx), Picked(now, idx), n);
            w.Some? && w.value.at == LastOr0(idx[..n]) && Overlaid(w.value.cells, was, now, idx[..n])
  {
    if n > 0 {
      WalkFollowsIndices(was, now, idx, n - 1);
      var w := Walked(was, Deltas(idx), Picked(now, idx), n - 1).value;
      WalkOneMore(was, Deltas(idx), Picked(now, idx), n, w, idx[n - 1]);
      OverlaidOneMore(w.cells, was, now, idx, n);
    }
  }

  lemma WalkOneMore(cells: seq<int>, gaps: seq<int>, vals: seq<int>, n: nat, w: Walk, at: nat)
    requires 0 < n <= |gaps| == |vals| && Walked(cells, gaps, vals, n - 1) == Some(w)
    requires w.at + gaps[n - 1] == at < |cells|
    ensures Walked(cells, gaps, vals, n) == Some(Walk(w.cells[at := vals[n - 1]], at))
  {
  }

  lemma OverlaidOneMore(out: seq<int>, was: seq<int>, now: seq<int>, idx: seq<nat>, n: nat)
    requires |was| == |now| && 0 < n <= |idx| && idx[n - 1] < |now| && Overlaid(out, was, now, idx[..n - 1])
    ensures Overlaid(out[idx[n - 1] := now[idx[n - 1]]], was, now, idx[..n])
  {
    assert idx[..n] == idx[..n - 1] + [idx[n - 1]];
  }

  /** A browser holding the base grid reaches the server's next grid exactly. */
  lemma PatchReachesTheNewGrid(c: Client, was: Grid, now: Grid, base: nat, seqNo: nat)
    requires SameShape(was, now)
    requires c.held.Some? && c.held.value.seqNo == base && PictureOf(c.held.value.grid) == PictureOf(was)
    ensures var o := Receive(c, PatchFrame(was, now, base, seqNo));
            && o.client.held.Some? && o.client.held.value.seqNo == seqNo
            && PictureOf(o.client.held.value.grid) == PictureOf(now)
            && o.client.held.value.grid.header == (if now.header.Some? then now.header else c.held.value.grid.header)
            && o.client.held.value.grid.loadTime == c.held.value.grid.loadTime
            && o.shown == Some(o.client.held.value.grid) && !o.asks && o.client.resyncing == c.resyncing
  {
    var n := |now.cells|;
    var idx := Changed(was.cells, now.cells, n);
    ChangedIsExact(was.cells, now.cells, n);
    WalkFollowsIndices(was.cells, now.cells, idx, |idx|);
    assert idx[..|idx|] == idx;
    var w := Walked(was.cells, Deltas(idx), Picked(now.cells, idx), |idx|).value;
    assert w.cells == now.cells;
  }

  /** Any other patch is dropped with the grid, and a full grid is asked for unless that was done already. */
  lemma UnfitPatchIsDropped(c: Client, f: Frame)
    requires f.Patch?
    requires c.held.None? || c.held.value.seqNo != f.base || |f.gaps| != |f.vals|
             || exists n :: 0 < n <= |f.gaps| && !(0 <= Reach(f.gaps, n) < |c.held.value.grid.cells|)
    ensures Receive(c, f) == Outcome(Client(None, true), None, !c.resyncing)
  {
    if c.held.Some? && c.held.value.seqNo == f.base && |f.gaps| == |f.vals| {
      var cells := c.held.value.grid.cells;
      var n :| 0 < n <= |f.gaps| && !(0 <= Reach(f.gaps, n) < |cells|);
      if Walked(cells, f.gaps, f.vals, n).Some? {
        WalkReaches(cells, f.gaps, f.vals, n);
      }
      WalkStops(cells, f.gaps, f.vals, n, |f.gaps|);
    }
  }

  /** The sum of the first `n` gaps: where the cursor stands after them. */
  function Reach(gaps: seq<int>, n: nat): int
    requires n <= |gaps|
  {
    if n == 0 then 0 else Reach(gaps, n - 1) + gaps[n - 1]
  }

  lemma {:induction false} WalkReaches(cells: seq<int>, gaps: seq<int>, vals: seq<int>, n: nat)
    requires n <= |gaps| == |vals| && Walked(cells, gaps, vals, n).Some?
    ensures Walked(cells, gaps, vals, n).value.at == Reach(gaps, n)
    ensures n > 0 ==> 0 <= Reach(gaps, n) < |cells|
  {
    if n > 0 {
      WalkReaches(cells, gaps, vals, n - 1);
    }
  }

  // ---------------------------------------------------------------- resync requests

  function ClientAfter(c: Client, fs: seq<Frame>): Client
    decreases |fs|
  {
    if fs == [] then c else ClientAfter(Receive(c, fs[0]).client, fs[1..])
  }

  /** How many resync requests a run of frames provokes. */
  function Requests(c: Client, fs: seq<Frame>): nat
    decreases |fs|
  {
    if fs == [] then 0
    else
      var o := Receive(c, fs[0]);
      (if o.asks then 1 else 0) + Requests(o.client, fs[1..])
  }

  /**
   Until a full frame comes, whatever patches arrive: a waiting browser asks for nothing and holds
   nothing, any other asks at most once, and it has asked exactly when it ends up without a grid.
   */
  lemma {:induction false} OneRequestPerGap(c: Client, fs: seq<Frame>)
    requires forall f :: f in fs ==> f.Patch?
    requires c.resyncing ==> c.held.None?
    ensures var d := ClientAfter(c, fs);
            && (d.resyncing ==> d.held.None?)
            && (c.resyncing ==> Requests(c, fs) == 0 && d == c)
            && (!c.resyncing ==> Requests(c, fs) == if d.resyncing then 1 else 0)
    decreases |fs|
  {
    if fs != [] {
      assert fs[0] in fs;
      OneRequestPerGap(Receive(c, fs[0]).client, fs[1..]);
    }
  }

  function Fulls(fs: seq<Frame>): nat {
    if fs == [] then 0 else (if fs[0].Full? then 1 else 0) + Fulls(fs[1..])
  }

  /** Over any frames at all, requests outnumber full frames by at most the one still outstanding. */
  lemma {:induction false} RequestsAreAnswered(c: Client, fs: seq<Frame>)
    ensures Requests(c, fs) + (if c.resyncing then 1 else 0)
            <= Fulls(fs) + if ClientAfter(c, fs).resyncing then 1 else 0
    decreases |fs|
  {
    if fs != [] {
      RequestsAreAnswered(Receive(c, fs[0]).client, fs[1..]);
    }
  }

  /** A full frame always clears the wait and is what the browser holds afterwards. */
  lemma {:induction false} FullFrameEndsTheWait(c: Client, fs: seq<Frame>, g: Grid, q: nat)
    ensures ClientAfter(c, fs + [Full(q, g)]) == Client(Some(Held(q, g)), false)
    decreases |fs|
  {
    if fs != [] {
      assert (fs + [Full(q, g)])[1..] == fs[1..] + [Full(q, g)];
      FullFrameEndsTheWait(Receive(c, fs[0]).client, fs[1..], g, q);
    } else {
      assert (fs + [Full(q, g)])[1..] == [];
      assert ClientAfter(Receive(c, Full(q, g)).client, []) == Receive(c, Full(q, g)).client;
    }
  }
}
