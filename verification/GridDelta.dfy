/** The server half of the occupancy-grid delta protocol (gui/pkg/api/grid_delta.go). */
module GridDelta {
  import opened Basics

  /** A decoded nav_msgs/OccupancyGrid. `origin` is kept raw, `loadTime` is carried but never compared. */
  datatype Grid = Grid(
    header: Option<string>, loadTime: int, resolution: real, width: nat, height: nat, origin: string,
    cells: seq<int>)

  /** What a viewer sees: the geometry and the cells, without the stamps. */
  datatype Picture = Picture(resolution: real, width: nat, height: nat, origin: string, cells: seq<int>)

  function PictureOf(g: Grid): Picture {
    Picture(g.resolution, g.width, g.height, g.origin, g.cells)
  }

  /** What to send for one grid: all of it, or only the changed cells. */
  datatype Frame =
    | Full(seqNo: nat, raw: Grid)
    | Patch(seqNo: nat, base: nat, header: Option<string>, gaps: seq<int>, vals: seq<int>)

  const FULL_EVERY := 30
  const MAX_FRACTION := 4

  predicate SameShape(g: Grid, h: Grid) {
    && |g.cells| == |h.cells| && g.width == h.width && g.height == h.height
    && g.resolution == h.resolution && g.origin == h.origin
  }

  // ---------------------------------------------------------------- the cells a patch lists

  /** The indices below `n` at which `now` differs from `was`, in ascending order. */
  function Changed(was: seq<int>, now: seq<int>, n: nat): (idx: seq<nat>)
    requires n <= |was| == |now|
    ensures |idx| <= n
  {
    if n == 0 then []
    else if was[n - 1] != now[n - 1] then Changed(was, now, n - 1) + [n - 1]
    else Changed(was, now, n - 1)
  }

  /** The last entry of `idx`, or 0 before the first one. */
  function LastOr0(idx: seq<nat>): nat {
    if idx == [] then 0 else idx[|idx| - 1]
  }

  /** The distance from the previous listed index, or from 0 for the first. */
  function Gap(idx: seq<nat>, k: nat): int
    requires k < |idx|
  {
    idx[k] - LastOr0(idx[..k])
  }

  function Deltas(idx: seq<nat>): (gaps: seq<int>)
    ensures |gaps| == |idx|
  {
    seq(|idx|, (k: nat) requires k < |idx| => Gap(idx, k))
  }

  /** The new values of the listed cells. */
  function Picked(now: seq<int>, idx: seq<nat>): (vals: seq<int>)
    requires forall k :: 0 <= k < |idx| ==> idx[k] < |now|
    ensures |vals| == |idx|
  {
    seq(|idx|, (k: nat) requires k < |idx| => now[idx[k]])
  }

  ghost predicate Ascending(idx: seq<nat>, bound: nat) {
    && (forall k :: 0 <= k < |idx| ==> idx[k] < bound)
    && (forall j, k :: 0 <= j < k < |idx| ==> idx[j] < idx[k])
  }

  /** `Changed` is strictly increasing, in range, and lists a cell exactly when it changed. */
  lemma {:induction false} ChangedIsExact(was: seq<int>, now: seq<int>, n: nat)
    requires n <= |was| == |now|
    ensures Ascending(Changed(was, now, n), n)
    ensures forall i :: 0 <= i < n ==> (i in Changed(was, now, n) <==> was[i] != now[i])
  {
    if n > 0 {
      ChangedIsExact(was, now, n - 1);
      var before := Changed(was, now, n - 1);
      if was[n - 1] != now[n - 1] {
        forall i | 0 <= i < n ensures i in before + [n - 1] <==> was[i] != now[i] {
          assert i in before + [n - 1] <==> i in before || i == n - 1;
        }
      }
    }
  }

  ghost function Differing(was: seq<int>, now: seq<int>, n: nat): set<int>
    requires n <= |was| == |now|
  {
    set i | 0 <= i < n && was[i] != now[i]
  }

  lemma {:induction false} ChangedCount(was: seq<int>, now: seq<int>, n: nat)
    requires n <= |was| == |now|
    ensures |Changed(was, now, n)| == |Differing(was, now, n)|
  {
    if n > 0 {
      ChangedCount(was, now, n - 1);
      var before := Differing(was, now, n - 1);
      if was[n - 1] != now[n - 1] {
        assert Differing(was, now, n) == before + {n - 1};
      } else {
        assert Differing(was, now, n) == before;
      }
    }
  }

  /** Appending a changed index appends one gap and one value. */
  lemma AppendIndex(idx: seq<nat>, i: nat, now: seq<int>)
    requires i < |now|
    requires forall k :: 0 <= k < |idx| ==> idx[k] < |now|
    ensures Deltas(idx + [i]) == Deltas(idx) + [i - LastOr0(idx)]
    ensures Picked(now, idx + [i]) == Picked(now, idx) + [now[i]]
  {
    var more := idx + [i];
    assert more[..|idx|] == idx;
    forall k | 0 <= k < |idx| ensures Gap(more, k) == Gap(idx, k) {
      assert more[..k] == idx[..k];
    }
  }

  // ---------------------------------------------------------------- server state and its steps

  /** The remembered cells and geometry are those of `last`, so `last` stands for all of them. */
  datatype Server = Server(seqNo: nat, sinceFull: nat, last: Option<Grid>)

  const START := Server(0, 0, None)

  /** A message the delta code handles: it decodes and has at least one cell. */
  predicate Usable(msg: Option<Grid>) {
    msg.Some? && msg.value.cells != []
  }

  predicate SendsPatch(s: Server, g: Grid) {
    && s.last.Some? && SameShape(s.last.value, g) && s.sinceFull < FULL_EVERY
    && |Changed(s.last.value.cells, g.cells, |g.cells|)| * MAX_FRACTION <= |g.cells|
  }

  /** The patch frame numbered `seqNo` that turns `was` into `now`. */
  function PatchFrame(was: Grid, now: Grid, base: nat, seqNo: nat): Frame
    requires |was.cells| == |now.cells|
  {
    ChangedIsExact(was.cells, now.cells, |now.cells|);
    var idx := Changed(was.cells, now.cells, |now.cells|);
    Patch(seqNo, base, now.header, Deltas(idx), Picked(now.cells, idx))
  }

  /** The server after `msg`, and the frame it emits (none for a message outside the protocol). */
  function Publish(s: Server, msg: Option<Grid>): (Server, Option<Frame>) {
    if !Usable(msg) then (s, None)
    else if SendsPatch(s, msg.value) then
      (Server(s.seqNo + 1, s.sinceFull + 1, msg),
       Some(PatchFrame(s.last.value, msg.value, s.seqNo, s.seqNo + 1)))
    else (Server(s.seqNo + 1, 0, msg), Some(Full(s.seqNo + 1, msg.value)))
  }

  /** The server after a resync request, and the full frame it answers with once it has a grid. */
  function Resync(s: Server): (Server, Option<Frame>) {
    if s.last.None? then (s, None)
    else (Server(s.seqNo + 1, 0, s.last), Some(Full(s.seqNo + 1, s.last.value)))
  }

  /** The per-subscription object, with the fields the Go struct has. */
  class GridDelta {
    var seqNo: nat
    var known: bool
    var cells: seq<int>
    var width: nat
    var height: nat
    var res: real
    var origin: string
    var sinceFull: nat
    var last: Option<Grid>

    ghost predicate Valid() reads this {
      && known == last.Some?
      && (known ==> cells == last.value.cells && width == last.value.width && height == last.value.height
                    && res == last.value.resolution && origin == last.value.origin)
    }

    ghost function State(): Server reads this {
      Server(seqNo, sinceFull, last)
    }

    constructor ()
      ensures Valid() && State() == START
    {
      seqNo, known, cells, width, height, res, origin, sinceFull, last := 0, false, [], 0, 0, 0.0, "", 0, None;
    }

    method Remember(w: Grid)
      modifies this
      ensures Valid() && last == Some(w) && seqNo == old(seqNo) && sinceFull == old(sinceFull)
    {
      cells, width, height, res := w.cells, w.width, w.height, w.resolution;
      origin, last, known := w.origin, Some(w), true;
    }

    method Next(msg: Option<Grid>) returns (frame: Option<Frame>)
      requires Valid()
      modifies this
      ensures Valid() && (State(), frame) == Publish(old(State()), msg)
    {
      if msg.None? || |msg.value.cells| == 0 {
        return None;
      }
      var w := msg.value;
      var sameShape :=
        known && |w.cells| == |cells| && w.width == width && w.height == height
        && w.resolution == res && w.origin == origin;
      if sameShape && sinceFull < FULL_EVERY {
        var gaps, vals := CollectChanges(cells, w.cells);
        if |vals| * MAX_FRACTION <= |w.cells| {
          var base := seqNo;
          seqNo := seqNo + 1;
          sinceFull := sinceFull + 1;
          Remember(w);
          return Some(Patch(seqNo, base, w.header, gaps, vals));
        }
      }
      seqNo := seqNo + 1;
      sinceFull := 0;
      Remember(w);
      return Some(Full(seqNo, w));
    }

    method AnswerResync() returns (frame: Option<Frame>)
      requires Valid()
      modifies this
      ensures Valid() && (State(), frame) == Resync(old(State()))
    {
      if last.None? {
        return None;
      }
      seqNo := seqNo + 1;
      sinceFull := 0;
      return Some(Full(seqNo, last.value));
    }
  }

  /** The diff loop of `next`: one pass over the cells with the previous changed index in `prev`. */
  method CollectChanges(was: seq<int>, now: seq<int>) returns (gaps: seq<int>, vals: seq<int>)
    requires |was| == |now|
    ensures var idx := Changed(was, now, |now|);
            && Ascending(idx, |now|) && gaps == Deltas(idx) && vals == Picked(now, idx)
  {
    gaps, vals := [], [];
    var prev := 0;
    for i := 0 to |now|
      invariant Ascending(Changed(was, now, i), i)
      invariant gaps == Deltas(Changed(was, now, i))
      invariant vals == Picked(now, Changed(was, now, i))
      invariant prev == LastOr0(Changed(was, now, i))
    {
      ChangedIsExact(was, now, i + 1);
      if now[i] != was[i] {
        AppendIndex(Changed(was, now, i), i, now);
        gaps, vals, prev := gaps + [i - prev], vals + [now[i]], i;
      }
    }
  }

  // ---------------------------------------------------------------- properties of the server alone

  /** A patch is sent only when at most a quarter of the cells changed, and it lists exactly those cells. */
  lemma PatchListsExactlyTheChanges(s: Server, msg: Option<Grid>)
    requires Publish(s, msg).1.Some? && Publish(s, msg).1.value.Patch?
    ensures s.last.Some? && msg.Some? && SameShape(s.last.value, msg.value)
    ensures var f, was, now := Publish(s, msg).1.value, s.last.value.cells, msg.value.cells;
            var idx := Changed(was, now, |now|);
            && f.base == s.seqNo && f.seqNo == s.seqNo + 1 && f.header == msg.value.header
            && |f.gaps| == |f.vals| == |idx| == |Differing(was, now, |now|)|
            && 4 * |f.vals| <= |now|
            && Ascending(idx, |now|) && f.gaps == Deltas(idx)
            && (forall i :: 0 <= i < |now| ==> (i in idx <==> was[i] != now[i]))
            && (forall k :: 0 <= k < |idx| ==> f.vals[k] == now[idx[k]])
  {
    var was, now := s.last.value.cells, msg.value.cells;
    ChangedIsExact(was, now, |now|);
    ChangedCount(was, now, |now|);
  }

  /**
   Every grid with cells goes out, under the next number: as a patch exactly when there is a last grid of
   the same size and geometry, fewer than 30 patches went before it and at most a quarter of the cells
   differ; otherwise whole. Neither header nor load time matters.
   */
  lemma PatchExactlyWhenSmallAndDue(s: Server, g: Grid)
    requires g.cells != []
    ensures var (t, f) := Publish(s, Some(g));
            && f.Some? && f.value.seqNo == t.seqNo == s.seqNo + 1 && t.last == Some(g)
            && t.sinceFull == (if f.value.Patch? then s.sinceFull + 1 else 0)
            && (f.value.Full? ==> f.value.raw == g)
            && (f.value.Patch? <==>
                  && s.last.Some?
                  && var h := s.last.value;
                     && |h.cells| == |g.cells| && h.width == g.width && h.height == g.height
                     && h.resolution == g.resolution && h.origin == g.origin
                     && s.sinceFull < 30
                     && 4 * |set i: int | 0 <= i < |g.cells| && h.cells[i] != g.cells[i]| <= |g.cells|)
  {
    if s.last.Some? && |s.last.value.cells| == |g.cells| {
      var was := s.last.value.cells;
      ChangedCount(was, g.cells, |g.cells|);
      assert Differing(was, g.cells, |g.cells|) == set i: int | 0 <= i < |g.cells| && was[i] != g.cells[i];
    }
  }

  /** A message without a grid, or with an empty one, changes nothing and sends nothing. */
  lemma NothingWithoutCells(s: Server, msg: Option<Grid>)
    requires msg.None? || msg.value.cells == []
    ensures Publish(s, msg) == (s, None)
  {
  }

  /** A resync request is answered with the last grid, whole, under the next number, once there is one. */
  lemma ResyncSendsTheLastGrid(s: Server)
    ensures s.last.None? ==> Resync(s) == (s, None)
    ensures s.last.Some? ==>
              Resync(s) == (Server(s.seqNo + 1, 0, s.last), Some(Full(s.seqNo + 1, s.last.value)))
  {
  }

  /** One thing that can happen at the server. */
  datatype Event = Arrives(msg: Option<Grid>) | AsksResync

  function Step(s: Server, e: Event): (Server, Option<Frame>) {
    match e
    case Arrives(msg) => Publish(s, msg)
    case AsksResync => Resync(s)
  }

  function ServerAfter(s: Server, es: seq<Event>): Server
    decreases |es|
  {
    if es == [] then s else ServerAfter(Step(s, es[0]).0, es[1..])
  }

  /** The frames emitted along a run, in order. */
  function Emitted(s: Server, es: seq<Event>): seq<Frame>
    decreases |es|
  {
    if es == [] then []
    else
      var (t, f) := Step(s, es[0]);
      (if f.Some? then [f.value] else []) + Emitted(t, es[1..])
  }

  /** How many frames at the front of `fs` are patches. */
  function LeadingPatches(fs: seq<Frame>): nat {
    if fs == [] || fs[0].Full? then 0 else 1 + LeadingPatches(fs[1..])
  }

  /** From a server that has sent `sinceFull` patches in a row, at most 30 - sinceFull more follow. */
  lemma {:induction false} PatchBudget(s: Server, es: seq<Event>)
    requires s.sinceFull <= FULL_EVERY
    ensures s.sinceFull + LeadingPatches(Emitted(s, es)) <= FULL_EVERY
    ensures ServerAfter(s, es).sinceFull <= FULL_EVERY
    decreases |es|
  {
    if es != [] {
      var (t, f) := Step(s, es[0]);
      PatchBudget(t, es[1..]);
      if f.Some? {
        assert ([f.value] + Emitted(t, es[1..]))[1..] == Emitted(t, es[1..]);
      } else {
        assert [] + Emitted(t, es[1..]) == Emitted(t, es[1..]);
      }
    }
  }

  /** A run may be cut anywhere: what is emitted later is what the later server emits. */
  lemma {:induction false} EmittedFrom(s: Server, es: seq<Event>, k: nat)
    requires s.sinceFull <= FULL_EVERY
    requires k <= |Emitted(s, es)|
    ensures exists t: Server, rest: seq<Event> ::
              t.sinceFull <= FULL_EVERY && Emitted(t, rest) == Emitted(s, es)[k..]
    decreases |es|
  {
    if k == 0 {
      assert Emitted(s, es)[0..] == Emitted(s, es);
    } else {
      var (t, f) := Step(s, es[0]);
      var j := if f.Some? then k - 1 else k;
      EmittedFrom(t, es[1..], j);
      assert Emitted(s, es)[k..] == Emitted(t, es[1..])[j..];
    }
  }

  /** Wherever one starts looking in a run's frames, at most 30 patches come before the next full frame. */
  lemma AtMost30PatchesInARow(es: seq<Event>, k: nat)
    requires k <= |Emitted(START, es)|
    ensures LeadingPatches(Emitted(START, es)[k..]) <= 30
  {
    EmittedFrom(START, es, k);
    var t: Server, rest: seq<Event> :|
      t.sinceFull <= FULL_EVERY && Emitted(t, rest) == Emitted(START, es)[k..];
    PatchBudget(t, rest);
  }
}
