/** The wire-protocol version guard: firmware/scripts/protocol_version_guard.py, from its token list on. */
module VersionGuard {
  import opened Basics

  // ---------------------------------------------------------------- the fingerprint

  /** Python's order on strings. */
  predicate AtMost(a: string, b: string) {
    a == "" || (b != "" && (a[0] < b[0] || (a[0] == b[0] && AtMost(a[1..], b[1..]))))
  }

  lemma {:induction false} AtMostIsTotal(a: string, b: string)
    ensures AtMost(a, b) || AtMost(b, a)
    ensures AtMost(a, b) && AtMost(b, a) ==> a == b
  {
    if a != "" && b != "" && a[0] == b[0] {
      AtMostIsTotal(a[1..], b[1..]);
      assert a == [a[0]] + a[1..] && b == [b[0]] + b[1..];
    }
  }

  ghost predicate Sorted(ts: seq<string>) {
    forall i, j :: 0 <= i < j < |ts| ==> AtMost(ts[i], ts[j])
  }

  /** What `tokens.sort()` leaves behind. */
  ghost predicate SortOf(sorted: seq<string>, tokens: seq<string>) {
    Sorted(sorted) && multiset(sorted) == multiset(tokens)
  }

  lemma SmallestIsFirst(a: seq<string>, t: string)
    requires Sorted(a) && t in a
    ensures AtMost(a[0], t)
  {
    AtMostIsTotal(t, t);
  }

  lemma SameFirst(a: seq<string>, b: seq<string>)
    requires Sorted(a) && Sorted(b) && multiset(a) == multiset(b) && a != [] && b != []
    ensures a[0] == b[0]
  {
    assert a[0] in multiset(a) && b[0] in multiset(b);
    SmallestIsFirst(a, b[0]);
    SmallestIsFirst(b, a[0]);
    AtMostIsTotal(a[0], b[0]);
  }

  lemma DropFirst(a: seq<string>)
    requires a != []
    ensures multiset(a[1..]) == multiset(a) - multiset{a[0]} && (Sorted(a) ==> Sorted(a[1..]))
  {
    assert a == [a[0]] + a[1..];
  }

  lemma {:induction false} SortedIsUnique(a: seq<string>, b: seq<string>)
    requires Sorted(a) && Sorted(b) && multiset(a) == multiset(b)
    ensures a == b
    decreases |a|
  {
    assert |a| == |multiset(a)| == |multiset(b)| == |b|;
    if a != [] {
      SameFirst(a, b);
      DropFirst(a);
      DropFirst(b);
      SortedIsUnique(a[1..], b[1..]);
      assert a == [a[0]] + a[1..] && b == [b[0]] + b[1..];
    }
  }

  function Join(ts: seq<string>): string {
    if ts == [] then ""
    else if |ts| == 1 then ts[0]
    else ts[0] + "\n" + Join(ts[1..])
  }

  /** Tokens are never empty and never contain a newline: blanks inside a struct are folded to single spaces. */
  ghost predicate IsToken(t: string) {
    t != "" && '\n' !in t
  }

  ghost predicate AllTokens(ts: seq<string>) {
    forall k :: 0 <= k < |ts| ==> IsToken(ts[k])
  }

  function FirstNewline(s: string): (n: nat)
    ensures n <= |s| && (n < |s| ==> s[n] == '\n')
    ensures forall k :: 0 <= k < n ==> s[k] != '\n'
  {
    if s == "" || s[0] == '\n' then 0 else 1 + FirstNewline(s[1..])
  }

  lemma JoinHead(ts: seq<string>)
    requires ts != [] && AllTokens(ts)
    ensures FirstNewline(Join(ts)) == |ts[0]| && Join(ts)[..|ts[0]|] == ts[0]
    ensures |ts| == 1 <==> |Join(ts)| == |ts[0]|
    ensures |ts| > 1 ==> Join(ts)[|ts[0]| + 1..] == Join(ts[1..])
  {
    var s, t := Join(ts), ts[0];
    assert forall k :: 0 <= k < |t| ==> s[k] == t[k] && t[k] in t;
    var n := FirstNewline(s);
    assert n < |s| ==> s[n] == '\n';
    assert |t| < |s| ==> s[|t|] == '\n';
  }

  lemma JoinOfSomeIsSome(ts: seq<string>)
    requires AllTokens(ts)
    ensures ts != [] ==> Join(ts) != ""
  {
    if ts != [] {
      JoinHead(ts);
      assert IsToken(ts[0]);
    }
  }

  /** The joined text determines the tokens. */
  lemma {:induction false} JoinIsInjective(a: seq<string>, b: seq<string>)
    requires AllTokens(a) && AllTokens(b) && Join(a) == Join(b)
    ensures a == b
    decreases |a|
  {
    JoinOfSomeIsSome(a);
    JoinOfSomeIsSome(b);
    if a != [] {
      JoinHead(a);
      JoinHead(b);
      if |a| > 1 {
        JoinIsInjective(a[1..], b[1..]);
        assert a == [a[0]] + a[1..] && b == [b[0]] + b[1..];
      } else {
        assert a == [a[0]] && b == [b[0]];
      }
    }
  }

  ghost predicate Injective(hash: string -> nat) {
    forall s, t :: hash(s) == hash(t) ==> s == t
  }

  /**
   With a hash free of collisions two headers have the same fingerprint exactly when they define the
   same wire tokens, in whatever order they appear.
   */
  lemma FingerprintIsTheTokens(
    hash: string -> nat, tokens: seq<string>, tokens': seq<string>, sorted: seq<string>, sorted': seq<string>)
    requires Injective(hash) && AllTokens(tokens) && AllTokens(tokens')
    requires SortOf(sorted, tokens) && SortOf(sorted', tokens')
    ensures hash(Join(sorted)) == hash(Join(sorted')) <==> multiset(tokens) == multiset(tokens')
  {
    if multiset(tokens) == multiset(tokens') {
      SortedIsUnique(sorted, sorted');
    }
    if hash(Join(sorted)) == hash(Join(sorted')) {
      SameElements(sorted, tokens);
      SameElements(sorted', tokens');
      JoinIsInjective(sorted, sorted');
    }
  }

  lemma SameElements(a: seq<string>, b: seq<string>)
    requires multiset(a) == multiset(b) && AllTokens(b)
    ensures AllTokens(a)
  {
    forall k | 0 <= k < |a| ensures IsToken(a[k]) {
      assert a[k] in multiset(a);
      assert a[k] in b;
    }
  }

  // ---------------------------------------------------------------- histories

  /** A version and the fingerprint that goes with it. */
  datatype Record = Record(version: int, hash: nat)

  /**
   The two headers' versions and the wire fingerprint, the baseline file, every baseline ever written
   (with the host version at the time), and what `--check` passed.
   */
  datatype State = State(
    fw: int, host: int, wire: nat, baseline: Option<Record>, recorded: seq<(Record, int)>, passed: seq<Record>)

  datatype Step = Edit(fw: int, host: int, wire: nat) | Refresh | Check

  /** Refresh mode: the guard's refusals leave the baseline as it is. */
  function Refreshed(s: State): State {
    if s.baseline.Some? && s.wire != s.baseline.value.hash && s.fw == s.baseline.value.version then s
    else if s.fw != s.host then s
    else
      var r := Record(s.fw, s.wire);
      s.(baseline := Some(r), recorded := s.recorded + [(r, s.host)])
  }

  /** Check mode. `strict` adds what the script does not ask: that the baseline is of the current version. */
  predicate Passes(strict: bool, s: State) {
    && s.fw == s.host && s.baseline.Some? && s.wire == s.baseline.value.hash
    && (strict ==> s.baseline.value.version == s.fw)
  }

  function Next(strict: bool, s: State, a: Step): State {
    match a
    case Edit(fw, host, wire) => s.(fw := fw, host := host, wire := wire)
    case Refresh => Refreshed(s)
    case Check => if Passes(strict, s) then s.(passed := s.passed + [Record(s.fw, s.wire)]) else s
  }

  /** The firmware version never decreases. */
  ghost predicate Forward(s: State, steps: seq<Step>, strict: bool)
    decreases |steps|
  {
    steps == []
    || ((steps[0].Edit? ==> steps[0].fw >= s.fw) && Forward(Next(strict, s, steps[0]), steps[1..], strict))
  }

  function After(strict: bool, s: State, steps: seq<Step>): State
    decreases |steps|
  {
    if steps == [] then s else After(strict, Next(strict, s, steps[0]), steps[1..])
  }

  function Fresh(fw: int, host: int, wire: nat): State {
    State(fw, host, wire, None, [], [])
  }

  ghost predicate OneHashPerVersion(rs: seq<Record>) {
    forall i, j :: 0 <= i < |rs| && 0 <= j < |rs| && rs[i].version == rs[j].version ==> rs[i].hash == rs[j].hash
  }

  function Records(recorded: seq<(Record, int)>): (rs: seq<Record>)
    ensures |rs| == |recorded|
  {
    seq(|recorded|, k requires 0 <= k < |recorded| => recorded[k].0)
  }

  ghost predicate Inv(s: State) {
    && (forall k :: 0 <= k < |s.recorded| ==> s.recorded[k].0.version == s.recorded[k].1 <= s.fw)
    && (s.baseline.None? <==> s.recorded == [])
    && (s.recorded != [] ==> s.baseline == Some(s.recorded[|s.recorded| - 1].0))
    && (forall k :: 0 <= k < |s.recorded| ==> s.recorded[k].0.version <= s.baseline.value.version)
    && OneHashPerVersion(Records(s.recorded))
  }

  lemma StepKeepsInv(strict: bool, s: State, a: Step)
    requires Inv(s) && (a.Edit? ==> a.fw >= s.fw)
    ensures Inv(Next(strict, s, a))
  {
    if a.Refresh? && Refreshed(s) != s {
      var t := Refreshed(s);
      var rs, qs, n := Records(s.recorded), Records(t.recorded), |s.recorded|;
      assert forall k :: 0 <= k < n ==> qs[k] == rs[k] == s.recorded[k].0;
      assert qs[n] == Record(s.fw, s.wire);
      forall k | 0 <= k < n && rs[k].version == s.fw ensures rs[k].hash == s.wire {
        assert rs[n - 1] == s.baseline.value;
      }
    }
  }

  lemma {:induction false} RunKeepsInv(strict: bool, s: State, steps: seq<Step>)
    requires Inv(s) && Forward(s, steps, strict)
    ensures Inv(After(strict, s, steps))
    decreases |steps|
  {
    if steps != [] {
      StepKeepsInv(strict, s, steps[0]);
      RunKeepsInv(strict, Next(strict, s, steps[0]), steps[1..]);
    }
  }

  /** Over every forward history: baselines of one version agree, and each was written with both versions equal. */
  lemma BaselinesAgree(fw: int, host: int, wire: nat, steps: seq<Step>)
    requires Forward(Fresh(fw, host, wire), steps, false)
    ensures var s := After(false, Fresh(fw, host, wire), steps);
            && OneHashPerVersion(Records(s.recorded))
            && forall k :: 0 <= k < |s.recorded| ==> s.recorded[k].0.version == s.recorded[k].1
  {
    RunKeepsInv(false, Fresh(fw, host, wire), steps);
  }

  // ---------------------------------------------------------------- what a passed check is worth

  /** A strict check only passes what has been recorded. */
  ghost predicate PassedIsRecorded(s: State) {
    forall k :: 0 <= k < |s.passed| ==> s.passed[k] in Records(s.recorded)
  }

  lemma {:induction false} StrictChecksAreRecorded(s: State, steps: seq<Step>)
    requires Inv(s) && PassedIsRecorded(s) && Forward(s, steps, true)
    ensures PassedIsRecorded(After(true, s, steps)) && Inv(After(true, s, steps))
    decreases |steps|
  {
    if steps != [] {
      var t := Next(true, s, steps[0]);
      StepKeepsInv(true, s, steps[0]);
      assert forall k :: 0 <= k < |s.recorded| ==> Records(t.recorded)[k] == Records(s.recorded)[k];
      if steps[0].Check? && Passes(true, s) {
        var n := |s.recorded| - 1;
        assert Records(t.recorded)[n] == Record(s.fw, s.wire);
      }
      forall k | 0 <= k < |t.passed| ensures t.passed[k] in Records(t.recorded) {
        if k < |s.passed| {
          var j :| 0 <= j < |s.recorded| && Records(s.recorded)[j] == s.passed[k];
          assert Records(t.recorded)[j] == s.passed[k];
        }
      }
      StrictChecksAreRecorded(t, steps[1..]);
    }
  }

  /** A bump that is not refreshed leaves room for a second wire under the new version. */
  lemma UnrefreshedBumpHidesAChange() returns (steps: seq<Step>)
    ensures Forward(Fresh(1, 1, 10), steps, false)
    ensures !OneHashPerVersion(After(false, Fresh(1, 1, 10), steps).passed)
  {
    steps := [Refresh, Edit(2, 2, 10), Check, Edit(2, 2, 20), Refresh, Check];
    var old', new' := Record(1, 10), Record(2, 20);
    var s1 := State(1, 1, 10, Some(old'), [(old', 1)], []);
    var s2 := s1.(fw := 2, host := 2);
    var s3 := s2.(passed := [Record(2, 10)]);
    var s4 := s3.(wire := 20);
    var s5 := s4.(baseline := Some(new'), recorded := [(old', 1), (new', 2)]);
    var s6 := s5.(passed := [Record(2, 10), new']);
    Unroll(steps, [Fresh(1, 1, 10), s1, s2, s3, s4, s5, s6]);
    assert s6.passed[0].version == s6.passed[1].version && s6.passed[0].hash != s6.passed[1].hash;
  }

  lemma {:induction false} Unroll(steps: seq<Step>, states: seq<State>)
    requires |states| == |steps| + 1
    requires forall k :: 0 <= k < |steps| ==> states[k + 1] == Next(false, states[k], steps[k])
    requires forall k :: 0 <= k < |steps| && steps[k].Edit? ==> steps[k].fw >= states[k].fw
    ensures Forward(states[0], steps, false) && After(false, states[0], steps) == states[|steps|]
    decreases |steps|
  {
    if steps != [] {
      Unroll(steps[1..], states[1..]);
    }
  }

  /**
   Does passing the check mean one wire per version? Over all forward histories, exactly when the check
   also asks for a baseline of the current version. The script's does not.
   */
  lemma CheckedWiresAgreeExactlyWhenStrict(strict: bool)
    ensures (forall fw, host, wire, steps |
               Forward(Fresh(fw, host, wire), steps, strict) ::
                 OneHashPerVersion(After(strict, Fresh(fw, host, wire), steps).passed))
            <==> strict
  {
    if strict {
      forall fw, host, wire, steps | Forward(Fresh(fw, host, wire), steps, strict)
        ensures OneHashPerVersion(After(strict, Fresh(fw, host, wire), steps).passed)
      {
        var s := After(true, Fresh(fw, host, wire), steps);
        StrictChecksAreRecorded(Fresh(fw, host, wire), steps);
        forall i, j | 0 <= i < |s.passed| && 0 <= j < |s.passed| && s.passed[i].version == s.passed[j].version
          ensures s.passed[i].hash == s.passed[j].hash
        {
          var m :| 0 <= m < |s.recorded| && Records(s.recorded)[m] == s.passed[i];
          var n :| 0 <= n < |s.recorded| && Records(s.recorded)[n] == s.passed[j];
        }
      }
    } else {
      var steps := UnrefreshedBumpHidesAChange();
    }
  }

  // ---------------------------------------------------------------- what refresh and check do to each other

  /** The guard lets a refresh through when the versions agree and no changed wire keeps the recorded version. */
  predicate MayRefresh(s: State) {
    && s.fw == s.host
    && (s.baseline.Some? && s.baseline.value.version == s.fw ==> s.baseline.value.hash == s.wire)
  }

  /** A refresh that is let through records the present version and wire; any other changes nothing. */
  lemma RefreshRecordsExactly(s: State)
    ensures var t := Refreshed(s);
            if MayRefresh(s) then
              t == s.(baseline := Some(Record(s.fw, s.wire)), recorded := s.recorded + [(Record(s.fw, s.wire), s.host)])
            else t == s
  {
  }

  /** Right after a refresh the check passes exactly when the refresh was let through or the check passed before. */
  lemma RefreshThenCheck(strict: bool, s: State)
    ensures Passes(strict, Refreshed(s)) <==> MayRefresh(s) || Passes(strict, s)
  {
  }

  /** What the script's check asks: equal versions, a baseline, and its wire. */
  lemma ChecksExactly(s: State)
    ensures Passes(false, s) <==> s.fw == s.host && s.baseline.Some? && s.baseline.value.hash == s.wire
  {
  }
}
