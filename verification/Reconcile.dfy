/**
 The blackbox subscription loop and its configuration writers (gui/pkg/api/blackbox.go), as a state
 machine over their atomic steps. The wake-up channel holds at most one signal. Writers hold the
 manager's mutex from Lock to Signal; the recorder's own mutex makes Persist and Read atomic.
 */
module Reconcile {
  /** The one writer that can hold the manager's mutex: waiting to persist `on`, or about to signal. */
  datatype Writer = Free | Persisting(on: bool) | Signalling

  /**
   Where the loop is: blocked on the channel, woken, working through the topics, or waiting for the
   manager's mutex to note that a subscription failed.
   */
  datatype Loop = Idle | Woken | Working(on: bool, topic: nat) | Noting(topic: nat)

  /**
   `subscribed` is what the provider delivers to the recorder; `refused` the topics whose subscription
   failed when last tried. `starting` until the start-up send has gone through.
   */
  datatype State = State(
    topics: nat, enabled: bool, pending: bool, starting: bool, writer: Writer, loop: Loop, attached: bool,
    subscribed: set<nat>, refused: set<nat>)

  function Initial(topics: nat, enabled: bool): State {
    State(topics, enabled, false, true, Free, Idle, false, {}, {})
  }

  datatype Step =
    | StartUpSend
    | Lock(on: bool)
    | Persist
    | PersistFails
    | Signal
    | Receive
    | Read
    | Topic(ok: bool)
    | Note
    | Finish

  predicate Enabled(s: State, a: Step) {
    match a
    case StartUpSend => s.starting && !s.pending
    case Lock(_) => s.writer == Free
    case Persist => s.writer.Persisting?
    case PersistFails => s.writer.Persisting?
    case Signal => s.writer == Signalling
    case Receive => s.loop == Idle && s.pending
    case Read => s.loop == Woken
    case Topic(_) => s.loop.Working? && s.loop.topic < s.topics
    case Note => s.loop.Noting? && s.writer == Free
    case Finish => s.loop.Working? && s.loop.topic >= s.topics
  }

  function Next(s: State, a: Step): State
    requires Enabled(s, a)
  {
    match a
    case StartUpSend => s.(starting := false, pending := true)
    case Lock(on) => s.(writer := Persisting(on))
    case Persist => s.(enabled := s.writer.on, writer := Signalling)
    case PersistFails => s.(writer := Free)
    case Signal => s.(writer := Free, pending := true)
    case Receive => s.(pending := false, loop := Woken)
    case Read =>
      if s.enabled == s.attached then s.(loop := Idle)
      else s.(loop := Working(s.enabled, 0), refused := {})
    case Topic(ok) =>
      var i := s.loop.topic;
      var next := s.(loop := Working(s.loop.on, i + 1));
      if !s.loop.on then next.(subscribed := s.subscribed - {i})
      else if ok then next.(subscribed := s.subscribed + {i})
      else next.(loop := Noting(i), refused := s.refused + {i})
    case Note => s.(loop := Working(true, s.loop.topic + 1))
    case Finish => s.(attached := s.loop.on, loop := Idle)
  }

  ghost predicate Runnable(s: State, run: seq<Step>)
    decreases |run|
  {
    run == [] || (Enabled(s, run[0]) && Runnable(Next(s, run[0]), run[1..]))
  }

  function After(s: State, run: seq<Step>): State
    requires Runnable(s, run)
    decreases |run|
  {
    if run == [] then s else After(Next(s, run[0]), run[1..])
  }

  /** The topics before topic `n`. */
  function Below(n: nat): (r: set<nat>)
    ensures forall i :: i in r <==> 0 <= i < n
  {
    if n == 0 then {} else Below(n - 1) + {n - 1}
  }

  // ---------------------------------------------------------------- what every interleaving keeps

  /** Nobody is about to wake the loop. */
  predicate NoWakeUpDue(s: State) {
    !s.pending && !s.starting && s.writer != Signalling
  }

  /** The value the loop is heading for agrees with the configuration, or a wake-up is still due. */
  ghost predicate Heading(s: State) {
    NoWakeUpDue(s) ==>
      match s.loop
      case Idle => s.attached == s.enabled
      case Woken => true
      case Working(on, _) => on == s.enabled
      case Noting(_) => s.enabled
  }

  /** The provider's subscriptions match how far the loop has come. */
  ghost predicate Tracked(s: State) {
    && s.refused <= Below(s.topics)
    && match s.loop
       case Working(on, i) =>
         && i <= s.topics && on != s.attached
         && (on ==> s.subscribed == Below(i) - s.refused && s.refused <= Below(i))
         && (!on ==> s.subscribed <= Below(s.topics) - Below(i))
       case Noting(i) =>
         && i < s.topics && !s.attached
         && s.subscribed == Below(i + 1) - s.refused && s.refused <= Below(i + 1)
       case _ => s.subscribed == if s.attached then Below(s.topics) - s.refused else {}
  }

  ghost predicate Inv(s: State) {
    Heading(s) && Tracked(s)
  }

  predicate OfWriter(a: Step) {
    a.StartUpSend? || a.Lock? || a.Persist? || a.PersistFails? || a.Signal?
  }

  lemma WriterStepKeepsInv(s: State, a: Step)
    requires Inv(s) && Enabled(s, a) && OfWriter(a)
    ensures Inv(Next(s, a))
  {
    assert Next(s, a).loop == s.loop && Next(s, a).subscribed == s.subscribed && Next(s, a).refused == s.refused;
  }

  lemma LoopStepKeepsInv(s: State, a: Step)
    requires Inv(s) && Enabled(s, a) && (a.Receive? || a.Read? || a.Finish? || a.Note?)
    ensures Inv(Next(s, a))
  {
  }

  lemma TopicStepKeepsInv(s: State, ok: bool)
    requires Inv(s) && Enabled(s, Topic(ok))
    ensures Inv(Next(s, Topic(ok)))
  {
    var i := s.loop.topic;
    assert Below(i + 1) == Below(i) + {i} && i in Below(s.topics);
  }

  lemma StepKeepsInv(s: State, a: Step)
    requires Inv(s) && Enabled(s, a)
    ensures Inv(Next(s, a)) && Next(s, a).topics == s.topics
  {
    if OfWriter(a) {
      WriterStepKeepsInv(s, a);
    } else if a.Topic? {
      TopicStepKeepsInv(s, a.ok);
    } else {
      LoopStepKeepsInv(s, a);
    }
  }

  lemma {:induction false} RunKeepsInv(s: State, run: seq<Step>)
    requires Inv(s) && Runnable(s, run)
    ensures Inv(After(s, run)) && After(s, run).topics == s.topics
    decreases |run|
  {
    if run != [] {
      StepKeepsInv(s, run[0]);
      RunKeepsInv(Next(s, run[0]), run[1..]);
    }
  }

  /**
   No wake-up is lost: in every interleaving, whenever the loop is idle and no wake-up is due, it is
   attached exactly when recording is enabled, and the provider serves every topic that did not
   refuse, or none.
   */
  lemma NoLostWakeUp(topics: nat, enabled: bool, run: seq<Step>)
    requires Runnable(Initial(topics, enabled), run)
    ensures var s := After(Initial(topics, enabled), run);
            s.loop == Idle && NoWakeUpDue(s) ==>
              s.attached == s.enabled && s.subscribed == if s.enabled then Below(topics) - s.refused else {}
  {
    RunKeepsInv(Initial(topics, enabled), run);
  }

  // ---------------------------------------------------------------- it settles

  function LoopWork(s: State): nat {
    match s.loop
    case Idle => 0
    case Woken => 2 * s.topics + 3
    case Working(_, i) => if i <= s.topics then 2 * (s.topics - i) + 1 else 1
    case Noting(i) => if i < s.topics then 2 * (s.topics - i) else 2
  }

  /** What the signals due will still set off. */
  function Due(s: State): nat {
    (if s.pending then 2 * s.topics + 4 else 0)
    + (if s.starting then 2 * s.topics + 5 else 0)
    + (match s.writer case Free => 0 case Persisting(_) => 2 * s.topics + 6 case Signalling => 2 * s.topics + 5)
  }

  /** An upper bound on the steps that can still happen without a new writer. */
  function Rank(s: State): nat {
    LoopWork(s) + Due(s)
  }

  lemma WriterStepCounts(s: State, a: Step)
    requires Enabled(s, a) && !a.Lock? && OfWriter(a)
    ensures Rank(Next(s, a)) < Rank(s)
  {
    assert LoopWork(Next(s, a)) == LoopWork(s);
  }

  lemma WakingCounts(s: State)
    requires Enabled(s, Receive)
    ensures Rank(Next(s, Receive)) < Rank(s)
  {
    assert LoopWork(Next(s, Receive)) == 2 * s.topics + 3 && Due(s) == Due(Next(s, Receive)) + 2 * s.topics + 4;
  }

  lemma WorkingCounts(s: State, a: Step)
    requires Enabled(s, a) && (a.Read? || a.Topic? || a.Note? || a.Finish?)
    requires s.loop.Noting? ==> s.loop.topic < s.topics
    ensures LoopWork(Next(s, a)) < LoopWork(s) && Due(Next(s, a)) == Due(s)
  {
  }

  lemma EveryStepCounts(s: State, a: Step)
    requires Enabled(s, a) && !a.Lock? && Tracked(s)
    ensures Rank(Next(s, a)) < Rank(s)
  {
    if OfWriter(a) {
      WriterStepCounts(s, a);
    } else if a.Receive? {
      WakingCounts(s);
    } else {
      WorkingCounts(s, a);
    }
  }

  /** Without new writers no run is longer than its bound: nothing spins. */
  lemma {:induction false} RunsAreBounded(s: State, run: seq<Step>)
    requires Inv(s) && Runnable(s, run) && forall a :: a in run ==> !a.Lock?
    ensures |run| + Rank(After(s, run)) <= Rank(s)
    decreases |run|
  {
    if run != [] {
      EveryStepCounts(s, run[0]);
      StepKeepsInv(s, run[0]);
      RunsAreBounded(Next(s, run[0]), run[1..]);
    }
  }

  ghost predicate Stuck(s: State) {
    forall a :: Enabled(s, a) ==> a.Lock?
  }

  /**
   Nothing deadlocks, the blocking start-up send and the mutex shared with the writers included: however
   the pending steps are scheduled, a run that cannot go on without a new writer has brought the
   subscriptions in line with the configuration.
   */
  lemma SettlesInAgreement(topics: nat, enabled: bool, run: seq<Step>)
    requires Runnable(Initial(topics, enabled), run)
    requires Stuck(After(Initial(topics, enabled), run))
    ensures var s := After(Initial(topics, enabled), run);
            && s.loop == Idle && s.writer == Free && NoWakeUpDue(s)
            && s.attached == s.enabled && s.subscribed == if s.enabled then Below(topics) - s.refused else {}
  {
    NoLostWakeUp(topics, enabled, run);
    RunKeepsInv(Initial(topics, enabled), run);
    var s := After(Initial(topics, enabled), run);
    assert !Enabled(s, Read) && !Enabled(s, Receive) && !Enabled(s, Topic(true)) && !Enabled(s, Finish);
    assert !Enabled(s, StartUpSend) && !Enabled(s, Signal) && !Enabled(s, Persist) && !Enabled(s, Note);
  }

  // ---------------------------------------------------------------- the loop body

  /** What one pass over the topics does; `ok` tells which subscriptions the provider accepts. */
  function Attach(subscribed: set<nat>, on: bool, ok: seq<bool>): (set<nat>, set<nat>) {
    if ok == [] then (subscribed, {})
    else
      var i := |ok| - 1;
      var (subs, refused) := Attach(subscribed, on, ok[..i]);
      if !on then (subs - {i}, refused)
      else if ok[i] then (subs + {i}, refused)
      else (subs, refused + {i})
  }

  predicate Accepted(ok: seq<bool>, i: nat) {
    i < |ok| && ok[i]
  }

  predicate Declined(ok: seq<bool>, i: nat) {
    i < |ok| && !ok[i]
  }

  /** Switching on subscribes what is accepted and notes what is refused; switching off drops every topic. */
  lemma {:induction false} AttachExactly(subscribed: set<nat>, on: bool, ok: seq<bool>, i: nat)
    ensures i in Attach(subscribed, on, ok).0 <==>
            if on then i in subscribed || Accepted(ok, i) else i in subscribed && i >= |ok|
    ensures i in Attach(subscribed, on, ok).1 <==> on && Declined(ok, i)
  {
    if ok != [] {
      var n := |ok| - 1;
      AttachExactly(subscribed, on, ok[..n], i);
      assert i < n ==> ok[..n][i] == ok[i];
    }
  }

  class Subscriber {
    var attached: bool
    var subscribed: set<nat>
    var refused: set<nat>

    constructor ()
      ensures !attached && subscribed == {} && refused == {}
    {
      attached, subscribed, refused := false, {}, {};
    }

    /** One iteration of the loop after a wake-up that read `enabled`. */
    method OnWakeUp(enabled: bool, ok: seq<bool>)
      modifies this
      ensures attached == enabled
      ensures old(attached) == enabled ==> subscribed == old(subscribed) && refused == old(refused)
      ensures old(attached) != enabled ==> (subscribed, refused) == Attach(old(subscribed), enabled, ok)
      ensures old(attached) != enabled ==>
                && (forall i: nat :: i in refused <==> enabled && Declined(ok, i))
                && forall i: nat :: i in subscribed <==>
                                      if enabled then i in old(subscribed) || Accepted(ok, i)
                                      else i in old(subscribed) && i >= |ok|
    {
      forall i: nat {
        AttachExactly(subscribed, enabled, ok, i);
      }
      if enabled == attached {
        return;
      }
      refused := {};
      for i := 0 to |ok|
        invariant attached == old(attached)
        invariant (subscribed, refused) == Attach(old(subscribed), enabled, ok[..i])
      {
        assert ok[..i + 1][..i] == ok[..i];
        if !enabled {
          subscribed := subscribed - {i};
        } else if ok[i] {
          subscribed := subscribed + {i};
        } else {
          refused := refused + {i};
        }
      }
      assert ok[..|ok|] == ok;
      attached := enabled;
    }
  }

  /** The machine's steps for one pass over the topics: a failed subscription is noted before the next topic. */
  function Pass(on: bool, ok: seq<bool>): seq<Step> {
    if ok == [] then []
    else
      var last := ok[|ok| - 1];
      Pass(on, ok[..|ok| - 1]) + [Topic(last)] + if on && !last then [Note] else []
  }

  /** With no writer in the way, the machine's topic steps do what the loop body does. */
  lemma {:induction false} TopicStepsAreAttach(s: State, ok: seq<bool>)
    requires s.loop.Working? && s.loop.topic == 0 && s.refused == {} && |ok| <= s.topics && s.writer == Free
    ensures var run := Pass(s.loop.on, ok);
            && Runnable(s, run)
            && After(s, run) == s.(loop := Working(s.loop.on, |ok|),
                                   subscribed := Attach(s.subscribed, s.loop.on, ok).0,
                                   refused := Attach(s.subscribed, s.loop.on, ok).1)
    decreases |ok|
  {
    if ok != [] {
      var n := |ok| - 1;
      var init := Pass(s.loop.on, ok[..n]);
      TopicStepsAreAttach(s, ok[..n]);
      AfterAppend(s, init, Topic(ok[n]));
      if s.loop.on && !ok[n] {
        AfterAppend(s, init + [Topic(ok[n])], Note);
      } else {
        assert init + [Topic(ok[n])] + [] == init + [Topic(ok[n])];
      }
    }
  }

  lemma {:induction false} AfterAppend(s: State, run: seq<Step>, a: Step)
    requires Runnable(s, run) && Enabled(After(s, run), a)
    ensures Runnable(s, run + [a]) && After(s, run + [a]) == Next(After(s, run), a)
    decreases |run|
  {
    if run == [] {
      assert (run + [a])[1..] == [];
    } else {
      assert (run + [a])[1..] == run[1..] + [a];
      AfterAppend(Next(s, run[0]), run[1..], a);
    }
  }

  // ---------------------------------------------------------------- what the configuration and the refusals are

  /** The value the last successful save wrote, `held` being what the writer at work wants to write. */
  function Saved(run: seq<Step>, enabled: bool, held: bool): bool
    decreases |run|
  {
    if run == [] then enabled
    else
      match run[0]
      case Lock(on) => Saved(run[1..], enabled, on)
      case Persist => Saved(run[1..], held, held)
      case _ => Saved(run[1..], enabled, held)
  }

  lemma {:induction false} EnabledIsSavedFrom(s: State, run: seq<Step>, held: bool)
    requires Runnable(s, run) && (s.writer.Persisting? ==> s.writer.on == held)
    ensures After(s, run).enabled == Saved(run, s.enabled, held)
    decreases |run|
  {
    if run != [] {
      EnabledIsSavedFrom(Next(s, run[0]), run[1..], if run[0].Lock? then run[0].on else held);
    }
  }

  /** The configuration is what the last successful save wrote, and a failed one leaves it alone. */
  lemma EnabledIsLastSaved(topics: nat, enabled: bool, run: seq<Step>)
    requires Runnable(Initial(topics, enabled), run)
    ensures After(Initial(topics, enabled), run).enabled == Saved(run, enabled, enabled)
  {
    EnabledIsSavedFrom(Initial(topics, enabled), run, enabled);
  }

  lemma {:induction false} NothingRefusedFrom(s: State, run: seq<Step>)
    requires Runnable(s, run) && s.refused == {}
    requires Topic(false) !in run
    ensures After(s, run).refused == {}
    decreases |run|
  {
    if run != [] {
      assert run[0] in run;
      NothingRefusedFrom(Next(s, run[0]), run[1..]);
    }
  }

  /** While the provider accepts every subscription, an idle loop with no wake-up due serves all topics or none. */
  lemma AllTopicsAreServed(topics: nat, enabled: bool, run: seq<Step>)
    requires Runnable(Initial(topics, enabled), run) && Topic(false) !in run
    ensures var s := After(Initial(topics, enabled), run);
            s.loop == Idle && NoWakeUpDue(s) ==>
              forall i: nat :: i in s.subscribed <==> i < topics && Saved(run, enabled, enabled)
  {
    NothingRefusedFrom(Initial(topics, enabled), run);
    NoLostWakeUp(topics, enabled, run);
    EnabledIsLastSaved(topics, enabled, run);
  }
}
