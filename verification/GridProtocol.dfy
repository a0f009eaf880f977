/**
 The delta protocol as a whole: one connection, one topic, a network that may lose, reorder and
 duplicate frames, and a browser that may resubscribe. Packets stay in `net` for ever, so a packet
 can be delivered never, late, or any number of times.
 */
module GridProtocol {
  import opened Basics
  import opened GridDelta
  import opened GridBrowser

  /** A frame in flight and the subscription (counted from 0) whose server object emitted it. */
  datatype Packet = Packet(session: nat, frame: Frame)

  /** The number a grid went out under. */
  datatype Tag = Tag(session: nat, seqNo: nat)

  /**
   How a resubscription treats what belongs to the previous one. Tearing the socket down does both;
   `unsubscribe` followed by `subscribe` only forgets; hiding and showing the tab does neither.
   */
  datatype Policy = Policy(forgets: bool, fenced: bool)

  /**
   `asked` tells whether the browser has sent a resync request, which may then reach the server never,
   late, or any number of times. `history` records, for the statement of the properties only, the
   server's grid at every tag.
   */
  datatype State = State(
    session: nat, server: Server, net: set<Packet>, client: Client, asked: bool, history: map<Tag, Grid>)

  const INIT := State(0, START, {}, FRESH, false, map[])

  datatype Action =
    | ServerStep(event: Event)
    | Deliver(packet: Packet)
    | Resubscribe(policy: Policy)

  predicate Enabled(s: State, a: Action) {
    match a
    case ServerStep(e) => e.AsksResync? ==> s.asked
    case Deliver(p) => p in s.net
    case Resubscribe(_) => true
  }

  function Send(s: State, t: Server, f: Option<Frame>): State {
    if f.None? || t.last.None? then s.(server := t)
    else
      s.(server := t, net := s.net + {Packet(s.session, f.value)},
         history := s.history[Tag(s.session, t.seqNo) := t.last.value])
  }

  function Act(s: State, a: Action): State {
    match a
    case ServerStep(e) => var (t, f) := Step(s.server, e); Send(s, t, f)
    case Deliver(p) =>
      var o := Receive(s.client, p.frame);
      s.(client := o.client, asked := s.asked || o.asks)
    case Resubscribe(policy) =>
      s.(session := s.session + 1, server := START,
         net := if policy.fenced then {} else s.net,
         client := if policy.forgets then FRESH else s.client)
  }

  ghost predicate Runnable(s: State, run: seq<Action>)
    decreases |run|
  {
    run == [] || (Enabled(s, run[0]) && Runnable(Act(s, run[0]), run[1..]))
  }

  function After(s: State, run: seq<Action>): State
    decreases |run|
  {
    if run == [] then s else After(Act(s, run[0]), run[1..])
  }

  /** The picture the browser holds with seq q is one the server had under seq q. */
  ghost predicate Safe(s: State) {
    s.client.held.Some? ==>
      exists k: nat :: Tag(k, s.client.held.value.seqNo) in s.history
                       && PictureOf(s.history[Tag(k, s.client.held.value.seqNo)]) == PictureOf(s.client.held.value.grid)
  }

  /** The same within the current subscription. */
  ghost predicate SafeNow(s: State) {
    s.client.held.Some? ==>
      var tag := Tag(s.session, s.client.held.value.seqNo);
      tag in s.history && PictureOf(s.history[tag]) == PictureOf(s.client.held.value.grid)
  }

  // ---------------------------------------------------------------- what every step keeps

  /** A packet describes what its own server had: the grid itself, or the step between two of its grids. */
  ghost predicate Truthful(p: Packet, history: map<Tag, Grid>) {
    match p.frame
    case Full(q, raw) => Tag(p.session, q) in history && history[Tag(p.session, q)] == raw
    case Patch(q, b, _, _, _) =>
      && Tag(p.session, b) in history && Tag(p.session, q) in history
      && var was, now := history[Tag(p.session, b)], history[Tag(p.session, q)];
         SameShape(was, now) && p.frame == PatchFrame(was, now, b, q)
  }

  ghost predicate ServerKnown(s: State) {
    && s.server.sinceFull <= FULL_EVERY
    && (forall t: Tag :: t in s.history ==>
                           t.session <= s.session && (t.session == s.session ==> t.seqNo <= s.server.seqNo))
    && (s.server.last.Some? ==>
          Tag(s.session, s.server.seqNo) in s.history
          && s.history[Tag(s.session, s.server.seqNo)] == s.server.last.value)
  }

  ghost predicate AllTruthful(s: State) {
    forall p :: p in s.net ==> Truthful(p, s.history)
  }

  /** Everything in flight and everything held belongs to the current subscription. */
  ghost predicate Coherent(s: State) {
    && (forall p :: p in s.net ==> p.session == s.session)
    && SafeNow(s)
  }

  ghost predicate Inv(s: State) {
    ServerKnown(s) && AllTruthful(s) && Coherent(s)
  }

  lemma ServerStepKeepsInv(s: State, e: Event)
    requires Inv(s)
    ensures Inv(Act(s, ServerStep(e)))
  {
    var (t, f) := Step(s.server, e);
    if f.Some? {
      var next := Send(s, t, f);
      assert t.seqNo == s.server.seqNo + 1;
      forall p | p in next.net ensures Truthful(p, next.history) {
        if p in s.net {
          assert Truthful(p, s.history);
        } else {
          assert p == Packet(s.session, f.value);
        }
      }
    }
  }

  lemma DeliverKeepsInv(s: State, p: Packet)
    requires Inv(s) && p in s.net
    ensures Inv(Act(s, Deliver(p)))
  {
    assert Truthful(p, s.history);
    if p.frame.Patch? && s.client.held.Some? && s.client.held.value.seqNo == p.frame.base {
      var was := s.history[Tag(p.session, p.frame.base)];
      var now := s.history[Tag(p.session, p.frame.seqNo)];
      PatchReachesTheNewGrid(s.client, was, now, p.frame.base, p.frame.seqNo);
    }
  }

  /** A run whose resubscriptions, if any, forget the old grid and cut off the old frames. */
  ghost predicate Clean(run: seq<Action>) {
    forall a :: a in run && a.Resubscribe? ==> a.policy.forgets && a.policy.fenced
  }

  lemma {:induction false} RunKeepsInv(s: State, run: seq<Action>)
    requires Inv(s) && Runnable(s, run) && Clean(run)
    ensures Inv(After(s, run))
    decreases |run|
  {
    if run != [] {
      match run[0] {
        case ServerStep(e) => ServerStepKeepsInv(s, e);
        case Deliver(p) => DeliverKeepsInv(s, p);
        case Resubscribe(_) => assert run[0] in run;
      }
      RunKeepsInv(Act(s, run[0]), run[1..]);
    }
  }

  /** Whatever the network does, a subscription never shows a wrong picture. */
  lemma NeverAWrongPicture(run: seq<Action>)
    requires Runnable(INIT, run) && Clean(run)
    ensures SafeNow(After(INIT, run)) && Safe(After(INIT, run))
  {
    RunKeepsInv(INIT, run);
    var s := After(INIT, run);
    if s.client.held.Some? {
      assert Tag(s.session, s.client.held.value.seqNo) in s.history;
    }
  }

  /** A patch whose base is held always fits: the branch that leaves the grid is never taken. */
  lemma MatchingPatchAlwaysFits(run: seq<Action>, p: Packet)
    requires Runnable(INIT, run) && Clean(run)
    requires p in After(INIT, run).net && p.frame.Patch?
    ensures var c := After(INIT, run).client;
            Applicable(c, p.frame) <==> c.held.Some? && c.held.value.seqNo == p.frame.base
  {
    RunKeepsInv(INIT, run);
    var s := After(INIT, run);
    assert Truthful(p, s.history);
    if s.client.held.Some? && s.client.held.value.seqNo == p.frame.base {
      var was := s.history[Tag(p.session, p.frame.base)];
      var now := s.history[Tag(p.session, p.frame.seqNo)];
      PatchReachesTheNewGrid(s.client, was, now, p.frame.base, p.frame.seqNo);
    }
  }

  // ---------------------------------------------------------------- resubscription

  function Flat(cells: seq<int>): Grid {
    Grid(None, 0, 1.0, 2, 2, "", cells)
  }

  /** A second grid that differs from the first in its last cell goes out as a one-cell patch. */
  lemma SecondGridIsAPatch(was: Grid, now: Grid, v: int)
    requires |was.cells| == 4 && v != was.cells[3] && now == was.(cells := was.cells[3 := v]) && now.header.None?
    ensures Publish(Server(1, 0, Some(was)), Some(now)) == (Server(2, 1, Some(now)), Some(Patch(2, 1, None, [3], [v])))
  {
    assert Changed(was.cells, now.cells, 0) == [];
    assert Changed(was.cells, now.cells, 1) == [];
    assert Changed(was.cells, now.cells, 2) == [];
    assert Changed(was.cells, now.cells, 3) == [];
    assert Changed(was.cells, now.cells, 4) == [3];
    assert Deltas([3]) == [3] && Picked(now.cells, [3]) == [v];
  }

  /** That patch writes the last cell of whatever four-cell grid is held under its base. */
  lemma PatchWritesLastCell(grid: Grid, v: int)
    requires |grid.cells| == 4
    ensures Receive(Client(Some(Held(1, grid)), false), Patch(2, 1, None, [3], [v])).client
            == Client(Some(Held(2, grid.(cells := grid.cells[3 := v]))), false)
  {
    assert Walked(grid.cells, [3], [v], 0) == Some(Walk(grid.cells, 0));
    assert Walked(grid.cells, [3], [v], 1) == Some(Walk(grid.cells[3 := v], 3));
  }

  /** Keeping the old grid: the new subscription's first full frame is lost and its first patch fits the old grid. */
  lemma KeepingTheGridIsUnsafe(policy: Policy) returns (run: seq<Action>)
    requires !policy.forgets
    ensures Runnable(INIT, run) && Within({policy}, run) && !Safe(After(INIT, run))
  {
    var a, b, c := Flat([0, 0, 0, 0]), Flat([1, 1, 1, 1]), Flat([1, 1, 1, 2]);
    var full, patch := Packet(0, Full(1, a)), Packet(1, Patch(2, 1, None, [3], [2]));
    run := [ServerStep(Arrives(Some(a))), Deliver(full), Resubscribe(policy), ServerStep(Arrives(Some(b))),
            ServerStep(Arrives(Some(c))), Deliver(patch)];
    SecondGridIsAPatch(b, c, 2);
    PatchWritesLastCell(a, 2);
    assert a.cells[3 := 2] == [0, 0, 0, 2];
    var kept := if policy.fenced then {} else {full};
    var lost := Packet(1, Full(1, b));
    var holding := Client(Some(Held(1, a)), false);
    var s1 := State(0, Server(1, 0, Some(a)), {full}, FRESH, false, map[Tag(0, 1) := a]);
    var s2 := s1.(client := holding);
    var s3 := State(1, START, kept, holding, false, map[Tag(0, 1) := a]);
    var s4 := State(1, Server(1, 0, Some(b)), kept + {lost}, holding, false, map[Tag(0, 1) := a, Tag(1, 1) := b]);
    var s5 := State(1, Server(2, 1, Some(c)), kept + {lost} + {patch}, holding, false,
                    map[Tag(0, 1) := a, Tag(1, 1) := b, Tag(1, 2) := c]);
    var s6 := s5.(client := Client(Some(Held(2, Flat([0, 0, 0, 2]))), false));
    assert Act(INIT, run[0]) == s1;
    assert Act(s3, run[3]) == s4;
    assert Act(s4, run[4]) == s5;
    Unroll6(run, s1, s2, s3, s4, s5, s6);
  }

  /** Keeping the old frames: a late patch of the old subscription fits the new subscription's first grid. */
  lemma KeepingTheFramesIsUnsafe(policy: Policy) returns (run: seq<Action>)
    requires policy.forgets && !policy.fenced
    ensures Runnable(INIT, run) && Within({policy}, run) && !Safe(After(INIT, run))
  {
    var a, b, c := Flat([0, 0, 0, 0]), Flat([0, 0, 0, 5]), Flat([1, 1, 1, 1]);
    var first, full := Packet(0, Full(1, a)), Packet(1, Full(1, c));
    var patch := Packet(0, Patch(2, 1, None, [3], [5]));
    run := [ServerStep(Arrives(Some(a))), ServerStep(Arrives(Some(b))), Resubscribe(policy),
            ServerStep(Arrives(Some(c))), Deliver(full), Deliver(patch)];
    SecondGridIsAPatch(a, b, 5);
    PatchWritesLastCell(c, 5);
    assert c.cells[3 := 5] == [1, 1, 1, 5];
    var old' := map[Tag(0, 1) := a, Tag(0, 2) := b];
    var s1 := State(0, Server(1, 0, Some(a)), {first}, FRESH, false, map[Tag(0, 1) := a]);
    var s2 := State(0, Server(2, 1, Some(b)), {first} + {patch}, FRESH, false, old');
    var s3 := State(1, START, s2.net, FRESH, false, old');
    var s4 := State(1, Server(1, 0, Some(c)), s2.net + {full}, FRESH, false, old'[Tag(1, 1) := c]);
    var s5 := s4.(client := Client(Some(Held(1, c)), false));
    var s6 := s4.(client := Client(Some(Held(2, Flat([1, 1, 1, 5]))), false));
    assert Act(INIT, run[0]) == s1;
    assert Act(s1, run[1]) == s2;
    assert Act(s3, run[3]) == s4;
    Unroll6(run, s1, s2, s3, s4, s5, s6);
  }

  lemma Unroll6(run: seq<Action>, s1: State, s2: State, s3: State, s4: State, s5: State, s6: State)
    requires |run| == 6
    requires s1 == Act(INIT, run[0]) && s2 == Act(s1, run[1]) && s3 == Act(s2, run[2])
    requires s4 == Act(s3, run[3]) && s5 == Act(s4, run[4]) && s6 == Act(s5, run[5])
    requires Enabled(INIT, run[0]) && Enabled(s1, run[1]) && Enabled(s2, run[2])
    requires Enabled(s3, run[3]) && Enabled(s4, run[4]) && Enabled(s5, run[5])
    ensures Runnable(INIT, run) && After(INIT, run) == s6
  {
    var tails := seq(7, i requires 0 <= i < 7 => run[i..]);
    assert tails[0] == run && tails[6] == [];
    assert tails[0][1..] == tails[1] && tails[1][1..] == tails[2] && tails[2][1..] == tails[3];
    assert tails[3][1..] == tails[4] && tails[4][1..] == tails[5] && tails[5][1..] == tails[6];
    assert Runnable(s6, tails[6]) && After(s6, tails[6]) == s6;
    assert Runnable(s5, tails[5]) && After(s5, tails[5]) == s6;
    assert Runnable(s4, tails[4]) && After(s4, tails[4]) == s6;
    assert Runnable(s3, tails[3]) && After(s3, tails[3]) == s6;
    assert Runnable(s2, tails[2]) && After(s2, tails[2]) == s6;
    assert Runnable(s1, tails[1]) && After(s1, tails[1]) == s6;
  }

  /** Every resubscription of the run is of one of the given kinds. */
  ghost predicate Within(policies: set<Policy>, run: seq<Action>) {
    forall a :: a in run && a.Resubscribe? ==> a.policy in policies
  }

  /**
   Over all runs that mix the given kinds of resubscription at any time: safe exactly when each kind
   drops both the old grid and the old frames.
   */
  lemma SafeExactlyWhenForgottenAndFenced(policies: set<Policy>)
    ensures (forall run | Runnable(INIT, run) && Within(policies, run) :: Safe(After(INIT, run)))
            <==> forall p :: p in policies ==> p.forgets && p.fenced
  {
    if p :| p in policies && !p.forgets {
      var run := KeepingTheGridIsUnsafe(p);
      assert Within(policies, run);
    } else if p :| p in policies && !p.fenced {
      var run := KeepingTheFramesIsUnsafe(p);
      assert Within(policies, run);
    } else {
      forall run | Runnable(INIT, run) && Within(policies, run) ensures Safe(After(INIT, run)) {
        NeverAWrongPicture(run);
      }
    }
  }

  // ---------------------------------------------------------------- recovery

  /** Both ends after the server handles `es` with every frame delivered once, in order. */
  function Pump(server: Server, client: Client, es: seq<Event>): (Server, Client)
    decreases |es|
  {
    if es == [] then (server, client)
    else
      var (t, f) := Step(server, es[0]);
      Pump(t, if f.Some? then Receive(client, f.value).client else client, es[1..])
  }

  /** The browser holds the server's current grid under the server's current seq, up to header and load time. */
  ghost predicate InStep(server: Server, client: Client) {
    && server.last.Some? && client.held.Some?
    && client.held.value.seqNo == server.seqNo
    && PictureOf(client.held.value.grid) == PictureOf(server.last.value)
  }

  lemma {:induction false} StaysInStep(server: Server, client: Client, es: seq<Event>)
    requires InStep(server, client)
    ensures var (t, c) := Pump(server, client, es); InStep(t, c)
    decreases |es|
  {
    if es != [] {
      var (t, f) := Step(server, es[0]);
      if f.Some? && f.value.Patch? {
        PatchReachesTheNewGrid(client, server.last.value, es[0].msg.value, server.seqNo, server.seqNo + 1);
      }
      StaysInStep(t, if f.Some? then Receive(client, f.value).client else client, es[1..]);
    }
  }

  /**
   From any reachable server and ANY browser state, wrong or empty, enough frames delivered in order
   bring the browser to the server's current grid: 31 always suffice, and one full frame does at once.
   */
  lemma {:induction false} LosslessDeliveryRecovers(server: Server, client: Client, es: seq<Event>)
    requires server.sinceFull <= FULL_EVERY
    requires LeadingPatches(Emitted(server, es)) < |Emitted(server, es)|
    ensures var (t, c) := Pump(server, client, es); InStep(t, c)
    decreases |es|
  {
    var (t, f) := Step(server, es[0]);
    var c := if f.Some? then Receive(client, f.value).client else client;
    if f.Some? && f.value.Full? {
      StaysInStep(t, c, es[1..]);
    } else if f.Some? {
      assert Emitted(server, es) == [f.value] + Emitted(t, es[1..]);
      assert Emitted(server, es)[1..] == Emitted(t, es[1..]);
      LosslessDeliveryRecovers(t, c, es[1..]);
    } else {
      assert Emitted(server, es) == Emitted(t, es[1..]);
      LosslessDeliveryRecovers(t, c, es[1..]);
    }
  }

  /** After any run at all, 31 frames delivered in order leave the browser with the current grid. */
  lemma RecoversWithin31Frames(run: seq<Action>, es: seq<Event>)
    requires Runnable(INIT, run)
    requires 31 <= |Emitted(After(INIT, run).server, es)|
    ensures var s := After(INIT, run);
            var (t, c) := Pump(s.server, s.client, es); InStep(t, c)
  {
    BudgetHolds(INIT, run);
    var s := After(INIT, run);
    PatchBudget(s.server, es);
    LosslessDeliveryRecovers(s.server, s.client, es);
  }

  lemma {:induction false} BudgetHolds(s: State, run: seq<Action>)
    requires s.server.sinceFull <= FULL_EVERY && Runnable(s, run)
    ensures After(s, run).server.sinceFull <= FULL_EVERY
    decreases |run|
  {
    if run != [] {
      BudgetHolds(Act(s, run[0]), run[1..]);
    }
  }

  // ---------------------------------------------------------------- resynchronisation

  /** A waiting browser has sent its request. */
  ghost predicate WaitingHasAsked(s: State) {
    s.client.resyncing ==> s.asked
  }

  /** Whatever is in flight, and whatever a browser waits for, there is a grid to send again. */
  ghost predicate GridToSend(s: State) {
    s.net != {} || s.client.resyncing ==> s.server.last.Some?
  }

  lemma {:induction false} RunKeepsAsked(s: State, run: seq<Action>)
    requires WaitingHasAsked(s) && Runnable(s, run)
    ensures WaitingHasAsked(After(s, run))
    decreases |run|
  {
    if run != [] {
      RunKeepsAsked(Act(s, run[0]), run[1..]);
    }
  }

  lemma {:induction false} RunKeepsGridToSend(s: State, run: seq<Action>)
    requires GridToSend(s) && Runnable(s, run) && Clean(run)
    ensures GridToSend(After(s, run))
    decreases |run|
  {
    if run != [] {
      assert run[0] in run;
      RunKeepsGridToSend(Act(s, run[0]), run[1..]);
    }
  }

  /** The full frame that answers a request, and the packet it travels in. */
  function Answer(s: State): Packet
    requires s.server.last.Some?
  {
    Packet(s.session, Full(s.server.seqNo + 1, s.server.last.value))
  }

  /**
   After any run, a waiting browser whose server has a grid: its request can reach the server, the
   answer is then in flight, and once that is delivered both ends are in step, whatever else is lost.
   */
  lemma AnsweredRequestRecovers(run: seq<Action>)
    requires Runnable(INIT, run)
    requires After(INIT, run).client.resyncing && After(INIT, run).server.last.Some?
    ensures var s := After(INIT, run);
            && Enabled(s, ServerStep(AsksResync))
            && var t := Act(s, ServerStep(AsksResync));
               && Enabled(t, Deliver(Answer(s)))
               && var u := Act(t, Deliver(Answer(s)));
                  InStep(u.server, u.client) && !u.client.resyncing
  {
    RunKeepsAsked(INIT, run);
  }

  /** In a subscription that is safe, a waiting browser's server always has a grid, so the answer always helps. */
  lemma WaitingIsAnswered(run: seq<Action>)
    requires Runnable(INIT, run) && Clean(run) && After(INIT, run).client.resyncing
    ensures After(INIT, run).server.last.Some?
  {
    RunKeepsGridToSend(INIT, run);
  }
}
