/** CorrectionDiagnosticTracker of sensors/gps/universal_gnss_topic_bridge.py: what it keeps. */
module Corrections {
  import opened Basics
  import opened Strings

  datatype Status = Status(name: string, hardwareId: string, message: string, values: seq<(string, string)>)

  datatype Diagnostics = Diagnostics(sec: int, nanosec: int, statuses: seq<Status>)

  datatype Entry = Entry(message: string, values: map<string, string>)

  /** What an array says about one owner; `valid` when it names exactly one source. */
  datatype Contents = Contents(valid: bool, source: string, entries: map<string, Entry>)

  datatype Snapshot = Snapshot(contents: Contents, receivedAt: real)

  /** One owner's half of the tracker: its snapshot and its stamp watermark. */
  datatype Owner = Owner(snapshot: Option<Snapshot>, watermark: Option<int>)

  const NOTHING := Owner(None, None)

  const NTRIP_PREFIX := "universal_gnss_ntrip/"
  const RECEIVER_PREFIX := "universal_gnss/"

  function StampNs(d: Diagnostics): Option<int> {
    if d.sec == 0 && d.nanosec == 0 then None else Some(d.sec * 1_000_000_000 + d.nanosec)
  }

  /** Stripped keys and values; blank keys are skipped and a later key wins. */
  function ValueMap(values: seq<(string, string)>): map<string, string> {
    if values == [] then map[]
    else
      var before, (key, value) := ValueMap(values[..|values| - 1]), values[|values| - 1];
      if Strip(key) == "" then before else before[Strip(key) := Strip(value)]
  }

  datatype Gathered = Gathered(represented: bool, sources: set<string>, entries: map<string, Entry>)

  /** What the statuses of one owner add up to. */
  function Gather(statuses: seq<Status>, prefix: string): Gathered {
    if statuses == [] then Gathered(false, {}, map[])
    else
      var before, s := Gather(statuses[..|statuses| - 1], prefix), statuses[|statuses| - 1];
      if !StartsWith(s.name, prefix) then before
      else
        Gathered(true,
                 before.sources + if Strip(s.hardwareId) == "" then {} else {Strip(s.hardwareId)},
                 before.entries[s.name := Entry(Strip(s.message), ValueMap(s.values))])
  }

  // ---------------------------------------------------------------- what they hold, pair by pair

  /** Pair `i` has the key `k` (blanks around it aside) and no later pair has. */
  ghost predicate LastWithKey(values: seq<(string, string)>, k: string, i: nat) {
    && i < |values| && Strip(values[i].0) == k
    && forall j :: i < j < |values| ==> Strip(values[j].0) != k
  }

  /** Exactly the non-blank keys, each with the stripped value of its last pair. */
  ghost predicate ShowsPairs(values: seq<(string, string)>, m: map<string, string>) {
    && (forall k :: k in m <==> k != "" && exists i: nat :: LastWithKey(values, k, i))
    && (forall k, i: nat :: k in m && LastWithKey(values, k, i) ==> m[k] == Strip(values[i].1))
  }

  lemma LastOfMore(values: seq<(string, string)>, k: string, i: nat)
    requires values != []
    ensures var n := |values| - 1;
            LastWithKey(values, k, i)
            <==> if i == n then Strip(values[n].0) == k else LastWithKey(values[..n], k, i) && Strip(values[n].0) != k
  {
    var n := |values| - 1;
    assert forall j :: 0 <= j < n ==> values[..n][j] == values[j];
  }

  lemma {:induction false} ValueMapShowsPairs(values: seq<(string, string)>)
    ensures ShowsPairs(values, ValueMap(values))
  {
    if values != [] {
      var n := |values| - 1;
      var before, m, key := ValueMap(values[..n]), ValueMap(values), Strip(values[n].0);
      ValueMapShowsPairs(values[..n]);
      forall k ensures k in m <==> k != "" && exists i: nat :: LastWithKey(values, k, i) {
        KeyOfMore(values, k);
      }
      forall k, i: nat | k in m && LastWithKey(values, k, i) ensures m[k] == Strip(values[i].1) {
        LastOfMore(values, k, i);
      }
    }
  }

  lemma KeyOfMore(values: seq<(string, string)>, k: string)
    requires values != []
    ensures var n := |values| - 1;
            (exists i: nat :: LastWithKey(values, k, i))
            <==> Strip(values[n].0) == k || exists i: nat :: LastWithKey(values[..n], k, i)
  {
    var n := |values| - 1;
    LastOfMore(values, k, n);
    if i: nat :| LastWithKey(values, k, i) {
      LastOfMore(values, k, i);
    }
    if i: nat :| LastWithKey(values[..n], k, i) {
      LastOfMore(values, k, i);
    }
  }

  /** Status `i` has the name `name`, and no later one has. */
  ghost predicate LastNamed(statuses: seq<Status>, name: string, i: nat) {
    && i < |statuses| && statuses[i].name == name
    && forall j :: i < j < |statuses| ==> statuses[j].name != name
  }

  /** Exactly the names under the prefix, each with message and values of the last status of that name. */
  ghost predicate ShowsStatuses(statuses: seq<Status>, prefix: string, entries: map<string, Entry>) {
    && (forall name :: name in entries <==> prefix <= name && exists i: nat :: LastNamed(statuses, name, i))
    && (forall name, i: nat :: name in entries && LastNamed(statuses, name, i) ==>
                                 && entries[name].message == Strip(statuses[i].message)
                                 && ShowsPairs(statuses[i].values, entries[name].values))
  }

  /** Exactly the non-blank hardware ids of the statuses under the prefix. */
  ghost predicate ShowsSources(statuses: seq<Status>, prefix: string, sources: set<string>) {
    forall id :: id in sources <==>
                   id != "" && exists s :: s in statuses && prefix <= s.name && Strip(s.hardwareId) == id
  }

  lemma LastNamedOfMore(statuses: seq<Status>, name: string, i: nat)
    requires statuses != []
    ensures var n := |statuses| - 1;
            LastNamed(statuses, name, i)
            <==> if i == n then statuses[n].name == name
                 else LastNamed(statuses[..n], name, i) && statuses[n].name != name
  {
    var n := |statuses| - 1;
    assert forall j :: 0 <= j < n ==> statuses[..n][j] == statuses[j];
  }

  lemma NameOfMore(statuses: seq<Status>, name: string)
    requires statuses != []
    ensures var n := |statuses| - 1;
            (exists i: nat :: LastNamed(statuses, name, i))
            <==> statuses[n].name == name || exists i: nat :: LastNamed(statuses[..n], name, i)
  {
    var n := |statuses| - 1;
    LastNamedOfMore(statuses, name, n);
    if i: nat :| LastNamed(statuses, name, i) {
      LastNamedOfMore(statuses, name, i);
    }
    if i: nat :| LastNamed(statuses[..n], name, i) {
      LastNamedOfMore(statuses, name, i);
    }
  }

  lemma {:induction false} GatherShowsStatuses(statuses: seq<Status>, prefix: string)
    ensures ShowsStatuses(statuses, prefix, Gather(statuses, prefix).entries)
  {
    if statuses != [] {
      var n := |statuses| - 1;
      var entries := Gather(statuses, prefix).entries;
      GatherShowsStatuses(statuses[..n], prefix);
      ValueMapShowsPairs(statuses[n].values);
      forall name ensures name in entries <==> prefix <= name && exists i: nat :: LastNamed(statuses, name, i) {
        NameOfMore(statuses, name);
      }
      forall name, i: nat | name in entries && LastNamed(statuses, name, i)
        ensures entries[name].message == Strip(statuses[i].message)
        ensures ShowsPairs(statuses[i].values, entries[name].values)
      {
        LastNamedOfMore(statuses, name, i);
      }
    }
  }

  lemma {:induction false} GatherShowsSources(statuses: seq<Status>, prefix: string)
    ensures ShowsSources(statuses, prefix, Gather(statuses, prefix).sources)
  {
    if statuses != [] {
      var n := |statuses| - 1;
      GatherShowsSources(statuses[..n], prefix);
      assert statuses == statuses[..n] + [statuses[n]];
    }
  }

  /** What a snapshot holds of an array, told from the array alone. */
  ghost predicate Shows(d: Diagnostics, prefix: string, c: Contents) {
    exists sources ::
      && ShowsSources(d.statuses, prefix, sources)
      && (c.valid <==> |sources| == 1)
      && (c.valid ==> c.source in sources && ShowsStatuses(d.statuses, prefix, c.entries))
      && (!c.valid ==> c.source == "" && c.entries == map[])
  }

  lemma ContentsShow(d: Diagnostics, prefix: string)
    ensures Shows(d, prefix, ContentsOf(d, prefix))
  {
    GatherShowsStatuses(d.statuses, prefix);
    GatherShowsSources(d.statuses, prefix);
    assert ShowsSources(d.statuses, prefix, Gather(d.statuses, prefix).sources);
  }

  /** Stamps are compared as times: seconds first, then nanoseconds; only the zero stamp counts as none. */
  lemma StampOrder(a: Diagnostics, b: Diagnostics)
    requires 0 <= a.nanosec < 1_000_000_000 && 0 <= b.nanosec < 1_000_000_000
    ensures StampNs(a).None? <==> a.sec == 0 && a.nanosec == 0
    ensures StampNs(a).Some? && StampNs(b).Some? ==>
              (StampNs(a).value < StampNs(b).value <==> a.sec < b.sec || (a.sec == b.sec && a.nanosec < b.nanosec))
  {
  }

  // ---------------------------------------------------------------- one owner's contents

  ghost predicate IsContents(g: Gathered, c: Contents) {
    && c.valid == (|g.sources| == 1)
    && (c.valid ==> c.source in g.sources && c.entries == g.entries)
    && (!c.valid ==> c.source == "" && c.entries == map[])
  }

  /** The contents are determined by the array: a single source leaves no choice. */
  lemma ContentsAreUnique(g: Gathered, c: Contents, d: Contents)
    requires IsContents(g, c) && IsContents(g, d)
    ensures c == d
  {
    if c.valid && c.source != d.source {
      assert {c.source, d.source} <= g.sources;
      SubsetSize({c.source, d.source}, g.sources);
    }
  }

  lemma SubsetSize<T>(a: set<T>, b: set<T>)
    requires a <= b
    ensures |a| <= |b|
  {
    assert b == a + (b - a);
  }

  lemma ContentsExist(g: Gathered)
    ensures exists c :: IsContents(g, c)
  {
    if |g.sources| == 1 {
      var s :| s in g.sources;
      assert IsContents(g, Contents(true, s, g.entries));
    } else {
      assert IsContents(g, Contents(false, "", map[]));
    }
  }

  ghost function ContentsOf(d: Diagnostics, prefix: string): (c: Contents)
    ensures IsContents(Gather(d.statuses, prefix), c)
  {
    ContentsExist(Gather(d.statuses, prefix));
    var c :| IsContents(Gather(d.statuses, prefix), c);
    c
  }

  ghost predicate Represents(d: Diagnostics, prefix: string) {
    Gather(d.statuses, prefix).represented
  }

  /** Exactly the arrays with a status under the prefix concern the owner. */
  lemma {:induction false} RepresentsExactly(statuses: seq<Status>, prefix: string)
    ensures Gather(statuses, prefix).represented <==> exists s :: s in statuses && StartsWith(s.name, prefix)
  {
    if statuses != [] {
      RepresentsExactly(statuses[..|statuses| - 1], prefix);
      assert statuses == statuses[..|statuses| - 1] + [statuses[|statuses| - 1]];
    }
  }

  /** The two owners never share a status. */
  lemma PrefixesAreDisjoint(name: string)
    ensures !(StartsWith(name, NTRIP_PREFIX) && StartsWith(name, RECEIVER_PREFIX))
  {
    assert NTRIP_PREFIX[14] == '_' && RECEIVER_PREFIX[14] == '/';
  }

  // ---------------------------------------------------------------- updates

  ghost predicate Accepts(o: Owner, d: Diagnostics, prefix: string) {
    && Represents(d, prefix)
    && !(StampNs(d).Some? && o.watermark.Some? && StampNs(d).value < o.watermark.value)
  }

  ghost function Replaced(o: Owner, d: Diagnostics, prefix: string, now: real): Owner {
    if !Accepts(o, d, prefix) then o
    else
      Owner(Some(Snapshot(ContentsOf(d, prefix), now)),
            if StampNs(d).Some? && (o.watermark.None? || StampNs(d).value > o.watermark.value) then StampNs(d)
            else o.watermark)
  }

  /**
   `now'` is the owner after array `d`: untouched when no status name has the prefix or the stamp is older
   than the watermark, else with a snapshot that shows the array and the later of the two stamps.
   */
  ghost predicate Took(was: Owner, now': Owner, d: Diagnostics, prefix: string, at: real) {
    var concerned := exists s :: s in d.statuses && prefix <= s.name;
    var stamp := d.sec * 1_000_000_000 + d.nanosec;
    var stamped := d.sec != 0 || d.nanosec != 0;
    if !concerned || (stamped && was.watermark.Some? && stamp < was.watermark.value) then now' == was
    else
      && now'.snapshot.Some? && now'.snapshot.value.receivedAt == at && Shows(d, prefix, now'.snapshot.value.contents)
      && now'.watermark == if stamped then Some(stamp) else was.watermark
  }

  lemma ReplacedTook(o: Owner, d: Diagnostics, prefix: string, now: real)
    ensures Took(o, Replaced(o, d, prefix, now), d, prefix, now)
  {
    RepresentsExactly(d.statuses, prefix);
    ContentsShow(d, prefix);
  }

  class Tracker {
    const timeout: real
    var ntrip: Owner
    var receiver: Owner

    constructor (timeout: real)
      requires timeout > 0.0
      ensures this.timeout == timeout && ntrip == NOTHING && receiver == NOTHING
    {
      this.timeout, ntrip, receiver := timeout, NOTHING, NOTHING;
    }

    method ReplaceOwner(o: Owner, d: Diagnostics, prefix: string, now: real) returns (r: Owner)
      ensures r == Replaced(o, d, prefix, now) && Took(o, r, d, prefix, now)
    {
      ReplacedTook(o, d, prefix, now);
      var represented, sources, entries := false, {}, map[];
      for i := 0 to |d.statuses|
        invariant Gathered(represented, sources, entries) == Gather(d.statuses[..i], prefix)
      {
        assert d.statuses[..i + 1][..i] == d.statuses[..i];
        var status := d.statuses[i];
        if !StartsWith(status.name, prefix) {
          continue;
        }
        represented := true;
        var hardwareId := Strip(status.hardwareId);
        if hardwareId != "" {
          sources := sources + {hardwareId};
        }
        entries := entries[status.name := Entry(Strip(status.message), ValueMap(status.values))];
      }
      assert d.statuses[..|d.statuses|] == d.statuses;
      if !represented {
        return o;
      }
      var stamp, watermark := StampNs(d), o.watermark;
      if stamp.Some? && watermark.Some? && stamp.value < watermark.value {
        return o;
      }
      if stamp.Some? && (watermark.None? || stamp.value > watermark.value) {
        watermark := stamp;
      }
      var contents := Contents(false, "", map[]);
      if |sources| == 1 {
        var source :| source in sources;
        contents := Contents(true, source, entries);
      }
      ContentsAreUnique(Gather(d.statuses, prefix), contents, ContentsOf(d, prefix));
      return Owner(Some(Snapshot(contents, now)), watermark);
    }

    method Update(d: Diagnostics, now: real)
      modifies this
      ensures ntrip == Replaced(old(ntrip), d, NTRIP_PREFIX, now)
      ensures receiver == Replaced(old(receiver), d, RECEIVER_PREFIX, now)
      ensures Took(old(ntrip), ntrip, d, "universal_gnss_ntrip/", now)
      ensures Took(old(receiver), receiver, d, "universal_gnss/", now)
    {
      ntrip := ReplaceOwner(ntrip, d, NTRIP_PREFIX, now);
      receiver := ReplaceOwner(receiver, d, RECEIVER_PREFIX, now);
    }
  }

  // ---------------------------------------------------------------- whole runs

  datatype Delivery = Delivery(message: Diagnostics, at: real)

  ghost function AfterAll(o: Owner, ds: seq<Delivery>, prefix: string): Owner {
    if ds == [] then o
    else Replaced(AfterAll(o, ds[..|ds| - 1], prefix), ds[|ds| - 1].message, prefix, ds[|ds| - 1].at)
  }

  /** The largest stamp among the stamped arrays that concern the owner. */
  ghost function MaxStamp(ds: seq<Delivery>, prefix: string): Option<int> {
    if ds == [] then None
    else
      var before, d := MaxStamp(ds[..|ds| - 1], prefix), ds[|ds| - 1].message;
      if !Represents(d, prefix) || StampNs(d).None? then before
      else if before.Some? && before.value >= StampNs(d).value then before
      else StampNs(d)
  }

  /** Delivery `k` counts: it concerns the owner and is unstamped or not older than any array before it. */
  ghost predicate Counts(ds: seq<Delivery>, k: nat, prefix: string)
    requires k < |ds|
  {
    var d := ds[k].message;
    && Represents(d, prefix)
    && (StampNs(d).None?
        || forall j :: 0 <= j < k && Represents(ds[j].message, prefix) && StampNs(ds[j].message).Some? ==>
                         StampNs(ds[j].message).value <= StampNs(d).value)
  }

  lemma {:induction false} MaxStampIsMax(ds: seq<Delivery>, prefix: string)
    ensures var m := MaxStamp(ds, prefix);
            && (forall j :: 0 <= j < |ds| && Represents(ds[j].message, prefix) && StampNs(ds[j].message).Some? ==>
                              m.Some? && StampNs(ds[j].message).value <= m.value)
            && (m.Some? ==>
                  exists j :: 0 <= j < |ds| && Represents(ds[j].message, prefix) && StampNs(ds[j].message) == m)
  {
    if ds != [] {
      var init := ds[..|ds| - 1];
      MaxStampIsMax(init, prefix);
      assert forall j :: 0 <= j < |init| ==> ds[j] == init[j];
      var m := MaxStamp(ds, prefix);
      if m.Some? && m != MaxStamp(init, prefix) {
        assert Represents(ds[|ds| - 1].message, prefix) && StampNs(ds[|ds| - 1].message) == m;
      }
    }
  }

  lemma CountsInPrefix(ds: seq<Delivery>, n: nat, k: nat, prefix: string)
    requires k < n <= |ds|
    ensures Counts(ds[..n], k, prefix) <==> Counts(ds, k, prefix)
  {
    assert forall j :: 0 <= j < n ==> ds[..n][j] == ds[j];
  }

  lemma CountsAtTheEnd(ds: seq<Delivery>, prefix: string, before: Owner)
    requires ds != [] && before.watermark == MaxStamp(ds[..|ds| - 1], prefix)
    ensures Accepts(before, ds[|ds| - 1].message, prefix) <==> Counts(ds, |ds| - 1, prefix)
  {
    var init := ds[..|ds| - 1];
    MaxStampIsMax(init, prefix);
    assert forall j :: 0 <= j < |init| ==> init[j] == ds[j];
  }

  /** The last delivery that counts is number `k`. */
  ghost predicate LastToCount(ds: seq<Delivery>, k: nat, prefix: string)
    requires k < |ds|
  {
    Counts(ds, k, prefix) && forall j :: k < j < |ds| ==> !Counts(ds, j, prefix)
  }

  lemma LastToCountInPrefix(ds: seq<Delivery>, k: nat, prefix: string)
    requires k < |ds| - 1 && LastToCount(ds, k, prefix)
    ensures LastToCount(ds[..|ds| - 1], k, prefix) && !Counts(ds, |ds| - 1, prefix)
  {
    var n := |ds| - 1;
    CountsInPrefix(ds, n, k, prefix);
    forall j | k < j < n ensures !Counts(ds[..n], j, prefix) {
      CountsInPrefix(ds, n, j, prefix);
    }
  }

  /** The watermark is the largest stamp seen, and the last delivery that counts owns the snapshot. */
  lemma {:induction false} SnapshotIsLastThatCounts(ds: seq<Delivery>, prefix: string)
    ensures AfterAll(NOTHING, ds, prefix).watermark == MaxStamp(ds, prefix)
    ensures forall k :: 0 <= k < |ds| && LastToCount(ds, k, prefix)
                        ==> AfterAll(NOTHING, ds, prefix).snapshot
                            == Some(Snapshot(ContentsOf(ds[k].message, prefix), ds[k].at))
  {
    if ds != [] {
      var n := |ds| - 1;
      SnapshotIsLastThatCounts(ds[..n], prefix);
      CountsAtTheEnd(ds, prefix, AfterAll(NOTHING, ds[..n], prefix));
      forall k | 0 <= k < |ds| && LastToCount(ds, k, prefix)
        ensures AfterAll(NOTHING, ds, prefix).snapshot == Some(Snapshot(ContentsOf(ds[k].message, prefix), ds[k].at))
      {
        if k < n {
          LastToCountInPrefix(ds, k, prefix);
        }
      }
    }
  }

  /** Without a delivery that counts there is no snapshot. */
  lemma {:induction false} NoSnapshotWithoutOne(ds: seq<Delivery>, prefix: string)
    ensures AfterAll(NOTHING, ds, prefix).snapshot.None? <==> forall k :: 0 <= k < |ds| ==> !Counts(ds, k, prefix)
  {
    if ds != [] {
      var n := |ds| - 1;
      NoSnapshotWithoutOne(ds[..n], prefix);
      SnapshotIsLastThatCounts(ds[..n], prefix);
      CountsAtTheEnd(ds, prefix, AfterAll(NOTHING, ds[..n], prefix));
      forall k | 0 <= k < n ensures Counts(ds[..n], k, prefix) <==> Counts(ds, k, prefix) {
        CountsInPrefix(ds, n, k, prefix);
      }
    }
  }

  /** Arrays that do not mention an owner leave it untouched, however many there are. */
  lemma {:induction false} UnrelatedArraysAreOmitted(o: Owner, ds: seq<Delivery>, prefix: string)
    requires forall d :: d in ds ==> !Represents(d.message, prefix)
    ensures AfterAll(o, ds, prefix) == o
  {
    if ds != [] {
      assert ds[|ds| - 1] in ds;
      UnrelatedArraysAreOmitted(o, ds[..|ds| - 1], prefix);
    }
  }

  /** The arrays concerning the owner are stamped, and equal stamps mean the same array. */
  ghost predicate StampsIdentify(ds: seq<Delivery>, prefix: string) {
    && (forall d :: d in ds && Represents(d.message, prefix) ==> StampNs(d.message).Some?)
    && (forall c, d ::
          c in ds && d in ds && Represents(c.message, prefix) && Represents(d.message, prefix)
          && StampNs(c.message) == StampNs(d.message)
          ==> c.message == d.message)
  }

  /** With identifying stamps the final contents are those of the newest array, whenever it came. */
  lemma {:induction false} NewestArrayWins(ds: seq<Delivery>, prefix: string)
    requires StampsIdentify(ds, prefix)
    ensures var o := AfterAll(NOTHING, ds, prefix);
            && o.watermark == MaxStamp(ds, prefix) && o.snapshot.Some? == o.watermark.Some?
            && forall d :: d in ds && Represents(d.message, prefix) && StampNs(d.message) == o.watermark ==>
                             o.snapshot.Some? && o.snapshot.value.contents == ContentsOf(d.message, prefix)
  {
    if ds != [] {
      var init, last := ds[..|ds| - 1], ds[|ds| - 1];
      assert ds == init + [last] && last in ds;
      assert forall d :: d in init ==> d in ds;
      NewestArrayWins(init, prefix);
      MaxStampIsMax(init, prefix);
      var o := AfterAll(NOTHING, ds, prefix);
      forall d | d in ds && Represents(d.message, prefix) && StampNs(d.message) == o.watermark
        ensures o.snapshot.Some? && o.snapshot.value.contents == ContentsOf(d.message, prefix)
      {
        if d != last {
          assert d in init;
          var j :| 0 <= j < |init| && init[j] == d;
        }
      }
    }
  }

  ghost function Messages(ds: seq<Delivery>): multiset<Diagnostics> {
    if ds == [] then multiset{} else Messages(ds[..|ds| - 1]) + multiset{ds[|ds| - 1].message}
  }

  lemma {:induction false} InMessages(ds: seq<Delivery>, m: Diagnostics)
    ensures m in Messages(ds) <==> exists k :: 0 <= k < |ds| && ds[k].message == m
  {
    if ds != [] {
      var init := ds[..|ds| - 1];
      InMessages(init, m);
      if m in Messages(init) {
        var k :| 0 <= k < |init| && init[k].message == m;
        assert ds[k].message == m;
      }
      if k :| 0 <= k < |ds| && ds[k].message == m {
        assert k < |init| ==> init[k].message == m;
      }
    }
  }

  /** Two deliveries of the same arrays, in any order and at any times, end with the same contents and watermark. */
  lemma OrderDoesNotMatter(ds: seq<Delivery>, es: seq<Delivery>, prefix: string)
    requires Messages(ds) == Messages(es)
    requires StampsIdentify(ds, prefix) && StampsIdentify(es, prefix)
    ensures var o, p := AfterAll(NOTHING, ds, prefix), AfterAll(NOTHING, es, prefix);
            && o.watermark == p.watermark && o.snapshot.Some? == p.snapshot.Some?
            && (o.snapshot.Some? ==> o.snapshot.value.contents == p.snapshot.value.contents)
  {
    NewestArrayWins(ds, prefix);
    NewestArrayWins(es, prefix);
    MaxBelow(ds, es, prefix);
    MaxBelow(es, ds, prefix);
    if MaxStamp(ds, prefix).Some? {
      MaxStampIsMax(ds, prefix);
      var j :| 0 <= j < |ds| && Represents(ds[j].message, prefix) && StampNs(ds[j].message) == MaxStamp(ds, prefix);
      InMessages(ds, ds[j].message);
      InMessages(es, ds[j].message);
      var k :| 0 <= k < |es| && es[k].message == ds[j].message;
      assert ds[j] in ds && es[k] in es;
    }
  }

  lemma MaxBelow(ds: seq<Delivery>, es: seq<Delivery>, prefix: string)
    requires Messages(ds) == Messages(es)
    ensures MaxStamp(ds, prefix).Some? ==>
              MaxStamp(es, prefix).Some? && MaxStamp(ds, prefix).value <= MaxStamp(es, prefix).value
  {
    MaxStampIsMax(ds, prefix);
    MaxStampIsMax(es, prefix);
    if MaxStamp(ds, prefix).Some? {
      var j :| 0 <= j < |ds| && Represents(ds[j].message, prefix) && StampNs(ds[j].message) == MaxStamp(ds, prefix);
      InMessages(ds, ds[j].message);
      InMessages(es, ds[j].message);
    }
  }
}
