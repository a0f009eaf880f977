/** CorrectionDiagnosticTracker of sensors/gps/universal_gnss_topic_bridge.py: what it publishes. */
module CorrectionStatus {
  import opened Basics
  import opened Strings
  import opened Corrections

  datatype Transport = TransportUnknown | Disconnected | Connecting | Connected | Streaming | Reconnecting | Failed
  datatype Flow = FlowUnknown | Idle | FlowWaiting | Active | FlowStale | FlowInvalid
  datatype Semantic = SemanticUnknown | Unavailable | Waiting | Healthy | Stale | Invalid
  datatype Forwarding = ForwardingUnknown | ForwardingError | ForwardingUnavailable | ForwardingWaiting
                      | ForwardingActive | ForwardingIdle

  /** A parsed float; NaN and the infinities compare false with every bound the code uses. */
  datatype Float = Finite(x: real) | NotFinite

  /**
   How diagnostic text becomes numbers: `uint` and `float` are Python's int and float with None for text
   that is blank, malformed or (for `uint`) negative.
   */
  datatype Parsers = Parsers(uint: string -> Option<nat>, float: string -> Option<Float>)

  function DiagnosticBool(value: string): Option<bool> {
    if Lower(Strip(value)) == "true" then Some(true)
    else if Lower(Strip(value)) == "false" then Some(false)
    else None
  }

  function Get<T>(m: map<string, T>, key: string): Option<T> {
    if key in m then Some(m[key]) else None
  }

  function Parsed<T>(parse: string -> Option<T>, value: Option<string>): Option<T> {
    if value.None? then None else parse(value.value)
  }

  function Flag(value: Option<string>): Option<bool> {
    if value.None? then None else DiagnosticBool(value.value)
  }

  const SUMMARY := "universal_gnss_ntrip/summary"
  const BASE := "universal_gnss_ntrip/rtcm_semantic/base_station_arp"
  const MSM := "universal_gnss_ntrip/rtcm_semantic/msm_summary"
  const RECEIVER_MSM := "universal_gnss/rtcm_semantic/msm_summary"

  function TransportOf(entries: map<string, Entry>): Transport {
    if "universal_gnss_ntrip/ntrip_failed" in entries then Failed
    else if "universal_gnss_ntrip/ntrip_reconnecting" in entries then Reconnecting
    else if "universal_gnss_ntrip/ntrip_streaming" in entries then Streaming
    else if "universal_gnss_ntrip/ntrip_connected" in entries then Connected
    else if "universal_gnss_ntrip/ntrip_connecting" in entries then Connecting
    else if "universal_gnss_ntrip/ntrip_disconnected" in entries then Disconnected
    else TransportUnknown
  }

  function SummaryValues(entries: map<string, Entry>): map<string, string> {
    if SUMMARY in entries then entries[SUMMARY].values else map[]
  }

  predicate StreamStale(entries: map<string, Entry>) {
    "universal_gnss_ntrip/rtcm.stream_stale" in entries
  }

  predicate Flowing(entries: map<string, Entry>) {
    "universal_gnss_ntrip/correction_flowing" in entries
  }

  function FlowOf(entries: map<string, Entry>, transport: Transport): Flow {
    var values := SummaryValues(entries);
    if transport != Streaming then Idle
    else if Flag(Get(values, "parser_healthy")) == Some(false) then FlowInvalid
    else if Flag(Get(values, "stale_data")) == Some(true) || StreamStale(entries) then FlowStale
    else if Flowing(entries) then Active
    else FlowWaiting
  }

  datatype Observation = Observation(
    present: bool, seen: Option<bool>, decoded: Option<bool>, valid: Option<bool>, messageType: Option<nat>,
    station: Option<nat>, satellites: Option<nat>, signals: Option<nat>, cells: Option<nat>,
    failures: Option<nat>, malformed: Option<nat>, age: Option<Float>, constellations: string)
  {
    predicate HasValue() {
      || seen.Some? || decoded.Some? || valid.Some? || messageType.Some? || station.Some? || satellites.Some?
      || signals.Some? || cells.Some? || failures.Some? || malformed.Some? || age.Some? || constellations != ""
    }

    /** Seen, decoded and valid. */
    predicate Sound() {
      present && seen == Some(true) && decoded == Some(true) && valid == Some(true)
    }

    predicate Fresh() {
      age.Some? && age.value.Finite? && 0.0 <= age.value.x <= 5.0
    }
  }

  function Observe(ps: Parsers, entry: Option<Entry>): Observation {
    if entry.None? then Observation(false, None, None, None, None, None, None, None, None, None, None, None, "")
    else
      var v := entry.value.values;
      Observation(
        true, Flag(Get(v, "seen")), Flag(Get(v, "decoded")), Flag(Get(v, "valid")),
        Parsed(ps.uint, Get(v, "message_type")), Parsed(ps.uint, Get(v, "station_id")),
        Parsed(ps.uint, Get(v, "satellite_count")), Parsed(ps.uint, Get(v, "signal_count")),
        Parsed(ps.uint, Get(v, "cell_count")), Parsed(ps.uint, Get(v, "decode_failure_count")),
        Parsed(ps.uint, Get(v, "malformed_count")), Parsed(ps.float, Get(v, "age_s")),
        if "constellations_seen" in v then v["constellations_seen"] else "")
  }

  function OrZero(n: Option<nat>): nat {
    if n.Some? then n.value else 0
  }

  predicate MsmUsable(msm: Observation) {
    msm.Sound() && OrZero(msm.cells) > 0 && msm.Fresh() && OrZero(msm.malformed) == 0
  }

  predicate StationsMatch(base: Observation, msm: Observation) {
    base.station.Some? && base.station == msm.station
  }

  function SemanticOf(ps: Parsers, entries: map<string, Entry>, transport: Transport): Semantic {
    if transport != Streaming then Unavailable
    else if SUMMARY !in entries then Waiting
    else
      var values := entries[SUMMARY].values;
      var healthy := Flag(Get(values, "parser_healthy"));
      if healthy == Some(false) then Invalid
      else if Flag(Get(values, "stale_data")) == Some(true) then Stale
      else
        Judged(healthy, Flag(Get(values, "correction_available")), Observe(ps, Get(entries, BASE)),
               Observe(ps, Get(entries, MSM)))
  }

  /** The verdict on two observations once the summary has not settled it. */
  function Judged(healthy: Option<bool>, available: Option<bool>, base: Observation, msm: Observation): Semantic {
    if
      available == Some(true) && healthy == Some(true) && base.Sound() && MsmUsable(msm) && StationsMatch(base, msm)
    then
      Healthy
    else if
      || (msm.present && msm.seen == Some(true)
          && (msm.decoded != Some(true) || msm.valid != Some(true)
              || OrZero(msm.cells) == 0 || OrZero(msm.malformed) > 0))
      || (base.present && base.seen == Some(true) && (base.decoded != Some(true) || base.valid != Some(true)))
      || (base.Sound() && MsmUsable(msm) && !StationsMatch(base, msm))
      || available == Some(true)
    then Invalid
    else if msm.present && msm.seen == Some(true) && !msm.Fresh() then Stale
    else Waiting
  }

  // ---------------------------------------------------------------- the three statuses agree

  /** Neither status can contradict the transport or the other one. */
  lemma StatusesAgree(ps: Parsers, entries: map<string, Entry>)
    ensures var t := TransportOf(entries);
            var flow, semantic := FlowOf(entries, t), SemanticOf(ps, entries, t);
            && (flow == Idle <==> t != Streaming) && (semantic == Unavailable <==> t != Streaming)
            && (flow == FlowInvalid ==> semantic == Invalid)
            && (flow == FlowStale ==> semantic == Stale || StreamStale(entries))
            && (semantic == Healthy ==>
                  && flow == (if StreamStale(entries) then FlowStale
                              else if Flowing(entries) then Active
                              else FlowWaiting)
                  && var base, msm := Observe(ps, Get(entries, BASE)), Observe(ps, Get(entries, MSM));
                     base.station.Some? && base.station == msm.station && base.Sound() && msm.Sound() && msm.Fresh())
  {
  }

  lemma TrueParses()
    ensures DiagnosticBool("true") == Some(true)
  {
    assert TrimLeft("true") == "true" && TrimRight("true") == "true";
    assert Lower("true") == "true";
  }

  /** Observations good enough for a healthy verdict. */
  function GoodValues(): map<string, string> {
    map["seen" := "true", "decoded" := "true", "valid" := "true",
        "station_id" := "7", "cell_count" := "7", "age_s" := "0"]
  }

  /** Two texts read as the numbers they are. */
  predicate Sensible(ps: Parsers) {
    ps.uint("7") == Some(7) && ps.float("0") == Some(Finite(0.0))
  }

  lemma GoodKeys(v: map<string, string>)
    requires v == GoodValues()
    ensures Get(v, "seen") == Get(v, "decoded") == Get(v, "valid") == Some("true")
    ensures Get(v, "station_id") == Get(v, "cell_count") == Some("7") && Get(v, "age_s") == Some("0")
    ensures Get(v, "malformed_count") == None
  {
    assert |"malformed_count"| == 15 && |"seen"| == 4 && |"decoded"| == 7 && |"valid"| == 5;
    assert |"station_id"| == 10 && |"cell_count"| == 10 && |"age_s"| == 5;
  }

  lemma GoodObservation(ps: Parsers, e: Entry)
    requires Sensible(ps)
    requires Get(e.values, "seen") == Get(e.values, "decoded") == Get(e.values, "valid") == Some("true")
    requires Get(e.values, "station_id") == Get(e.values, "cell_count") == Some("7")
    requires Get(e.values, "age_s") == Some("0") && Get(e.values, "malformed_count") == None
    ensures var o := Observe(ps, Some(e));
            MsmUsable(o) && o.station.Some?
  {
    TrueParses();
  }

  lemma SummaryParses(values: map<string, string>)
    requires values == map["parser_healthy" := "true", "correction_available" := "true"]
    ensures Flag(Get(values, "parser_healthy")) == Flag(Get(values, "correction_available")) == Some(true)
    ensures Flag(Get(values, "stale_data")) == None
  {
    TrueParses();
    assert |"parser_healthy"| == 14 && |"correction_available"| == 20 && |"stale_data"| == 10;
  }

  const STREAMING := "universal_gnss_ntrip/ntrip_streaming"
  const STREAM_STALE := "universal_gnss_ntrip/rtcm.stream_stale"

  lemma KeysDiffer(entries: map<string, Entry>)
    requires entries.Keys == {STREAMING, STREAM_STALE, SUMMARY, BASE, MSM}
    ensures TransportOf(entries) == Streaming
  {
    assert |STREAMING| == 36 && |STREAM_STALE| == 38 && |SUMMARY| == 28 && |BASE| == 51 && |MSM| == 46;
    assert |"universal_gnss_ntrip/ntrip_failed"| == 33 && |"universal_gnss_ntrip/ntrip_reconnecting"| == 39;
  }

  /**
   A healthy semantic status does not exclude a stale flow: a stale-stream entry shows only in the flow.
   All that is asked of the number parsers is that "7" reads as 7 and "0" as 0.
   */
  lemma HealthyBesideStaleFlow(ps: Parsers) returns (entries: map<string, Entry>)
    requires Sensible(ps)
    ensures SemanticOf(ps, entries, TransportOf(entries)) == Healthy
    ensures FlowOf(entries, TransportOf(entries)) == FlowStale
  {
    var summary := Entry("", map["parser_healthy" := "true", "correction_available" := "true"]);
    var good := Entry("", GoodValues());
    assert |SUMMARY| == 28 && |BASE| == 51 && |MSM| == 46 && |STREAMING| == 36 && |STREAM_STALE| == 38;
    entries := map[STREAMING := good, STREAM_STALE := good, SUMMARY := summary, BASE := good, MSM := good];
    KeysDiffer(entries);
    SummaryParses(entries[SUMMARY].values);
    GoodKeys(good.values);
    GoodObservation(ps, good);
    HealthyWhen(ps, entries, good);
  }

  lemma HealthyWhen(ps: Parsers, entries: map<string, Entry>, good: Entry)
    requires SUMMARY in entries && Get(entries, BASE) == Some(good) && Get(entries, MSM) == Some(good)
    requires var values := entries[SUMMARY].values;
             Flag(Get(values, "parser_healthy")) == Some(true) && Flag(Get(values, "stale_data")) == None
             && Flag(Get(values, "correction_available")) == Some(true)
    requires var o := Observe(ps, Some(good)); MsmUsable(o) && o.station.Some?
    ensures SemanticOf(ps, entries, Streaming) == Healthy
  {
  }

  // ---------------------------------------------------------------- the published message

  datatype Capability = CapStream | CapMsm | CapTransport | CapFlow | CapSemantic | CapOther(bit: nat)

  const CORRECTION_CAPS: set<Capability> := {CapStream, CapMsm, CapTransport, CapFlow, CapSemantic}

  datatype MsmSummary = MsmSummary(
    seen: bool, decoded: bool, valid: bool, messageType: nat, station: nat, constellations: string,
    satellites: nat, signals: nat, cells: nat, age: Float)

  /** The fields of the public message this code touches; the two flag words as sets of bits. */
  datatype Public = Public(
    capabilities: set<Capability>, values: set<Capability>, stream: Forwarding, transport: Transport,
    accepted: bool, flow: Flow, semantic: Semantic, source: string, forwardingSource: string,
    msm: MsmSummary, msmSource: string)

  function ForwardingOf(message: string): Forwarding {
    var m := Lower(Strip(message));
    if Contains(m, "write error") || Contains(m, "write errors") || EndsWith(m, "error") then ForwardingError
    else if Contains(m, "unavailable") then ForwardingUnavailable
    else if Contains(m, "waiting") then ForwardingWaiting
    else if Contains(m, "active") then ForwardingActive
    else if Contains(m, "stale") || Contains(m, "idle") then ForwardingIdle
    else ForwardingUnknown
  }

  /** The snapshot as far as it may still be used at `now`. */
  function Current(snapshot: Option<Snapshot>, timeout: real, now: real): Option<Contents> {
    if snapshot.None? || !snapshot.value.contents.valid || now < snapshot.value.receivedAt then None
    else if now - snapshot.value.receivedAt < timeout then Some(snapshot.value.contents)
    else None
  }

  function Cleared(p: Public): Public {
    p.(capabilities := p.capabilities + CORRECTION_CAPS, values := p.values - CORRECTION_CAPS,
       stream := ForwardingUnknown, transport := TransportUnknown, accepted := false, flow := FlowUnknown,
       semantic := SemanticUnknown, source := "", forwardingSource := "", msmSource := "")
  }

  function WithForwarding(p: Public, ntrip: Option<Contents>, receiver: Option<Contents>): Public {
    var owner := if receiver.Some? then receiver else ntrip;
    var name := if receiver.Some? then "universal_gnss/rtcm_forwarding" else "universal_gnss_ntrip/rtcm_forwarding";
    if owner.None? || name !in owner.value.entries then p
    else
      var status := ForwardingOf(owner.value.entries[name].message);
      p.(stream := status, forwardingSource := owner.value.source,
         values := p.values + if status == ForwardingUnknown then {} else {CapStream})
  }

  function WithNtrip(ps: Parsers, p: Public, ntrip: Option<Contents>): Public {
    if ntrip.None? then p
    else
      var t := TransportOf(ntrip.value.entries);
      p.(transport := t, accepted := t == Streaming, flow := FlowOf(ntrip.value.entries, t),
         semantic := SemanticOf(ps, ntrip.value.entries, t), source := ntrip.value.source,
         values := p.values + (if t == TransportUnknown then {} else {CapTransport}) + {CapFlow, CapSemantic})
  }

  function WithMsm(ps: Parsers, p: Public, owner: Contents, name: string): Public {
    var o := Observe(ps, Get(owner.entries, name));
    if !o.present then p
    else
      p.(msm := MsmSummary(o.seen == Some(true), o.decoded == Some(true), o.valid == Some(true), OrZero(o.messageType),
                           OrZero(o.station), o.constellations, OrZero(o.satellites), OrZero(o.signals),
                           OrZero(o.cells), if o.age.Some? then o.age.value else Finite(0.0)),
         msmSource := owner.source,
         values := p.values + if o.HasValue() then {CapMsm} else {})
  }

  /** What `apply` makes of a message, from what is current. */
  function Applied(ps: Parsers, p: Public, ntrip: Option<Contents>, receiver: Option<Contents>): Public {
    var q := WithNtrip(ps, WithForwarding(Cleared(p), ntrip, receiver), ntrip);
    if ntrip.Some? && q.transport == Streaming then WithMsm(ps, q, ntrip.value, MSM)
    else if receiver.Some? then WithMsm(ps, q, receiver.value, RECEIVER_MSM)
    else q
  }

  // ---------------------------------------------------------------- what is published, told from the entries

  /** What entry `name` says under `key`. */
  function TextAt(entries: map<string, Entry>, name: string, key: string): Option<string> {
    if name in entries then Get(entries[name].values, key) else None
  }

  predicate Says(entries: map<string, Entry>, name: string, key: string, b: bool) {
    Flag(TextAt(entries, name, key)) == Some(b)
  }

  function CountOf(ps: Parsers, entries: map<string, Entry>, name: string, key: string): Option<nat> {
    Parsed(ps.uint, TextAt(entries, name, key))
  }

  function AgeOf(ps: Parsers, entries: map<string, Entry>, name: string): Option<Float> {
    Parsed(ps.float, TextAt(entries, name, "age_s"))
  }

  predicate Streams(entries: map<string, Entry>) {
    && "universal_gnss_ntrip/ntrip_streaming" in entries
    && "universal_gnss_ntrip/ntrip_failed" !in entries && "universal_gnss_ntrip/ntrip_reconnecting" !in entries
  }

  /** The first of the six entries that is there, in this order, decides. */
  predicate TransportShown(entries: map<string, Entry>, t: Transport) {
    var failed := "universal_gnss_ntrip/ntrip_failed" in entries;
    var again := "universal_gnss_ntrip/ntrip_reconnecting" in entries;
    var streams := "universal_gnss_ntrip/ntrip_streaming" in entries;
    var linked := "universal_gnss_ntrip/ntrip_connected" in entries;
    var linking := "universal_gnss_ntrip/ntrip_connecting" in entries;
    var off := "universal_gnss_ntrip/ntrip_disconnected" in entries;
    && (t == Failed <==> failed)
    && (t == Reconnecting <==> again && !failed)
    && (t == Streaming <==> streams && !failed && !again)
    && (t == Connected <==> linked && !failed && !again && !streams)
    && (t == Connecting <==> linking && !failed && !again && !streams && !linked)
    && (t == Disconnected <==> off && !failed && !again && !streams && !linked && !linking)
    && (t == TransportUnknown <==> !off && !failed && !again && !streams && !linked && !linking)
  }

  predicate FlowShown(entries: map<string, Entry>, flow: Flow) {
    var summary := "universal_gnss_ntrip/summary";
    var broken := Says(entries, summary, "parser_healthy", false);
    var old' := Says(entries, summary, "stale_data", true) || "universal_gnss_ntrip/rtcm.stream_stale" in entries;
    var flows := "universal_gnss_ntrip/correction_flowing" in entries;
    && (flow == Idle <==> !Streams(entries))
    && (flow == FlowInvalid <==> Streams(entries) && broken)
    && (flow == FlowStale <==> Streams(entries) && !broken && old')
    && (flow == Active <==> Streams(entries) && !broken && !old' && flows)
    && (flow == FlowWaiting <==> Streams(entries) && !broken && !old' && !flows)
    && flow != FlowUnknown
  }

  /** Seen, decoded and valid. */
  predicate Good(entries: map<string, Entry>, name: string) {
    Says(entries, name, "seen", true) && Says(entries, name, "decoded", true) && Says(entries, name, "valid", true)
  }

  predicate Recent(ps: Parsers, entries: map<string, Entry>, name: string) {
    var age := AgeOf(ps, entries, name);
    age.Some? && age.value.Finite? && 0.0 <= age.value.x <= 5.0
  }

  predicate Nonzero(n: Option<nat>) {
    n.Some? && n.value > 0
  }

  predicate Usable(ps: Parsers, entries: map<string, Entry>, msm: string) {
    && Good(entries, msm) && Recent(ps, entries, msm) && Nonzero(CountOf(ps, entries, msm, "cell_count"))
    && !Nonzero(CountOf(ps, entries, msm, "malformed_count"))
  }

  /** Both observations name a station, and the same. */
  predicate SameStation(ps: Parsers, entries: map<string, Entry>, base: string, msm: string) {
    var a, b := CountOf(ps, entries, base, "station_id"), CountOf(ps, entries, msm, "station_id");
    a.Some? && b.Some? && a.value == b.value
  }

  predicate SemanticShown(ps: Parsers, entries: map<string, Entry>, semantic: Semantic) {
    var summary := "universal_gnss_ntrip/summary";
    var base := "universal_gnss_ntrip/rtcm_semantic/base_station_arp";
    var msm := "universal_gnss_ntrip/rtcm_semantic/msm_summary";
    var told := Streams(entries) && summary in entries;
    var broken := Says(entries, summary, "parser_healthy", false);
    var old' := Says(entries, summary, "stale_data", true);
    var there := Says(entries, summary, "correction_available", true);
    var fits := Good(entries, base) && Usable(ps, entries, msm);
    var healthy :=
      told && !broken && !old' && there && Says(entries, summary, "parser_healthy", true) && fits
      && SameStation(ps, entries, base, msm);
    var badMsm :=
      Says(entries, msm, "seen", true)
      && (!Good(entries, msm) || !Nonzero(CountOf(ps, entries, msm, "cell_count"))
          || Nonzero(CountOf(ps, entries, msm, "malformed_count")));
    var badBase := Says(entries, base, "seen", true) && !Good(entries, base);
    var wrong := badMsm || badBase || (fits && !SameStation(ps, entries, base, msm)) || there;
    var late := Says(entries, msm, "seen", true) && !Recent(ps, entries, msm);
    Decided(Streams(entries), told, broken, old', healthy, wrong, late, semantic)
  }

  predicate Decided(
    streams: bool, told: bool, broken: bool, old': bool, healthy: bool, wrong: bool, late: bool, semantic: Semantic)
  {
    && (semantic == Unavailable <==> !streams)
    && (semantic == Healthy <==> healthy)
    && (semantic == Invalid <==> told && (broken || (!old' && !healthy && wrong)))
    && (semantic == Stale <==> told && !broken && (old' || (!healthy && !wrong && late)))
    && (semantic == Waiting <==> streams && (!told || (!broken && !old' && !healthy && !wrong && !late)))
    && semantic != SemanticUnknown
  }

  predicate ForwardingShown(message: string, status: Forwarding) {
    var m := Lower(Strip(message));
    var error := Contains(m, "write error") || EndsWith(m, "error");
    var none, waits := Contains(m, "unavailable"), Contains(m, "waiting");
    var active, idle := Contains(m, "active"), Contains(m, "stale") || Contains(m, "idle");
    && (status == ForwardingError <==> error)
    && (status == ForwardingUnavailable <==> !error && none)
    && (status == ForwardingWaiting <==> !error && !none && waits)
    && (status == ForwardingActive <==> !error && !none && !waits && active)
    && (status == ForwardingIdle <==> !error && !none && !waits && !active && idle)
    && (status == ForwardingUnknown <==> !error && !none && !waits && !active && !idle)
  }

  /** Every field of the summary from its own key. */
  predicate MsmShown(ps: Parsers, entries: map<string, Entry>, name: string, q: MsmSummary) {
    && (q.seen <==> Says(entries, name, "seen", true)) && (q.decoded <==> Says(entries, name, "decoded", true))
    && (q.valid <==> Says(entries, name, "valid", true))
    && q.messageType == OrZero(CountOf(ps, entries, name, "message_type"))
    && q.station == OrZero(CountOf(ps, entries, name, "station_id"))
    && q.satellites == OrZero(CountOf(ps, entries, name, "satellite_count"))
    && q.signals == OrZero(CountOf(ps, entries, name, "signal_count"))
    && q.cells == OrZero(CountOf(ps, entries, name, "cell_count"))
    && q.age == (if AgeOf(ps, entries, name).Some? then AgeOf(ps, entries, name).value else Finite(0.0))
    && q.constellations == (if TextAt(entries, name, "constellations_seen").Some?
                            then TextAt(entries, name, "constellations_seen").value else "")
  }

  /** Some key of the observation has a value that reads. */
  predicate TellsSomething(ps: Parsers, entries: map<string, Entry>, name: string) {
    || Flag(TextAt(entries, name, "seen")).Some? || Flag(TextAt(entries, name, "decoded")).Some?
    || Flag(TextAt(entries, name, "valid")).Some? || CountOf(ps, entries, name, "message_type").Some?
    || CountOf(ps, entries, name, "station_id").Some? || CountOf(ps, entries, name, "satellite_count").Some?
    || CountOf(ps, entries, name, "signal_count").Some? || CountOf(ps, entries, name, "cell_count").Some?
    || CountOf(ps, entries, name, "decode_failure_count").Some?
    || CountOf(ps, entries, name, "malformed_count").Some? || AgeOf(ps, entries, name).Some?
    || (TextAt(entries, name, "constellations_seen").Some? && TextAt(entries, name, "constellations_seen").value != "")
  }

  predicate NtripShown(ps: Parsers, ntrip: Option<Contents>, q: Public) {
    match ntrip
    case None =>
      q.transport == TransportUnknown && q.flow == FlowUnknown && q.semantic == SemanticUnknown && q.source == ""
    case Some(c) =>
      && TransportShown(c.entries, q.transport) && FlowShown(c.entries, q.flow)
      && SemanticShown(ps, c.entries, q.semantic) && q.source == c.source
  }

  /** The receiver's forwarding entry if the receiver is current, else the caster's. */
  predicate StreamShown(ntrip: Option<Contents>, receiver: Option<Contents>, q: Public) {
    var owner := if receiver.Some? then receiver else ntrip;
    var name := if receiver.Some? then "universal_gnss/rtcm_forwarding" else "universal_gnss_ntrip/rtcm_forwarding";
    if owner.Some? && name in owner.value.entries then
      ForwardingShown(owner.value.entries[name].message, q.stream) && q.forwardingSource == owner.value.source
    else q.stream == ForwardingUnknown && q.forwardingSource == ""
  }

  /** The caster's summary while it streams, else the receiver's; without one the old fields stay, unflagged. */
  predicate SummaryShown(ps: Parsers, was: Public, ntrip: Option<Contents>, receiver: Option<Contents>, q: Public) {
    var byCaster := ntrip.Some? && Streams(ntrip.value.entries);
    var owner := if byCaster then ntrip else receiver;
    var name := if byCaster then "universal_gnss_ntrip/rtcm_semantic/msm_summary"
                else "universal_gnss/rtcm_semantic/msm_summary";
    if owner.Some? && name in owner.value.entries then
      && MsmShown(ps, owner.value.entries, name, q.msm) && q.msmSource == owner.value.source
      && (CapMsm in q.values <==> TellsSomething(ps, owner.value.entries, name))
    else q.msm == was.msm && q.msmSource == "" && CapMsm !in q.values
  }

  ghost predicate Published(ps: Parsers, was: Public, ntrip: Option<Contents>, receiver: Option<Contents>, q: Public) {
    NtripShown(ps, ntrip, q) && StreamShown(ntrip, receiver, q) && SummaryShown(ps, was, ntrip, receiver, q)
  }

  /** A snapshot is used from its receipt on until the timeout has passed, if its array named one source. */
  lemma CurrentExactly(s: Option<Snapshot>, timeout: real, now: real)
    ensures Current(s, timeout, now)
            == if s.Some? && s.value.contents.valid && s.value.receivedAt <= now < s.value.receivedAt + timeout
               then Some(s.value.contents) else None
  {
  }

  /** True and false are read in any mixture of cases, blanks around them aside, and nothing else is. */
  lemma DiagnosticBoolExactly(value: string)
    ensures DiagnosticBool(value) == Some(true) <==> Spells(Strip(value), "true")
    ensures DiagnosticBool(value) == Some(false) <==> Spells(Strip(value), "false")
  {
    LowerSpells(Strip(value), "true");
    LowerSpells(Strip(value), "false");
    assert "true"[0] != "false"[0];
  }

  lemma TransportIsShown(entries: map<string, Entry>)
    ensures TransportShown(entries, TransportOf(entries))
  {
  }

  lemma FlowIsShown(entries: map<string, Entry>)
    ensures FlowShown(entries, FlowOf(entries, TransportOf(entries)))
  {
    TransportIsShown(entries);
  }

  /** Each field of an observation comes from its own key. */
  lemma ObservationReads(ps: Parsers, entries: map<string, Entry>, name: string)
    ensures var o := Observe(ps, Get(entries, name));
            && o.present == (name in entries)
            && o.seen == Flag(TextAt(entries, name, "seen")) && o.decoded == Flag(TextAt(entries, name, "decoded"))
            && o.valid == Flag(TextAt(entries, name, "valid")) && o.age == AgeOf(ps, entries, name)
            && o.messageType == CountOf(ps, entries, name, "message_type")
            && o.station == CountOf(ps, entries, name, "station_id")
            && o.satellites == CountOf(ps, entries, name, "satellite_count")
            && o.signals == CountOf(ps, entries, name, "signal_count")
            && o.cells == CountOf(ps, entries, name, "cell_count")
            && o.failures == CountOf(ps, entries, name, "decode_failure_count")
            && o.malformed == CountOf(ps, entries, name, "malformed_count")
            && o.constellations == (if TextAt(entries, name, "constellations_seen").Some?
                                    then TextAt(entries, name, "constellations_seen").value else "")
  {
  }

  lemma SummaryReads(entries: map<string, Entry>, key: string)
    ensures Get(SummaryValues(entries), key) == TextAt(entries, SUMMARY, key)
    ensures SUMMARY in entries ==> Get(entries[SUMMARY].values, key) == TextAt(entries, SUMMARY, key)
  {
  }

  /** The same judgement, on the fields of an observation. */
  lemma ObservationJudged(ps: Parsers, entries: map<string, Entry>, name: string, o: Observation)
    requires o == Observe(ps, Get(entries, name))
    ensures o.Sound() <==> Good(entries, name)
    ensures o.Fresh() <==> Recent(ps, entries, name)
    ensures OrZero(o.cells) > 0 <==> Nonzero(CountOf(ps, entries, name, "cell_count"))
    ensures OrZero(o.malformed) > 0 <==> Nonzero(CountOf(ps, entries, name, "malformed_count"))
    ensures o.present && o.seen == Some(true) <==> Says(entries, name, "seen", true)
    ensures o.station == CountOf(ps, entries, name, "station_id")
  {
    ObservationReads(ps, entries, name);
  }

  lemma VerdictIsShown(
    ps: Parsers, entries: map<string, Entry>, healthy: Option<bool>, available: Option<bool>, base: Observation,
    msm: Observation)
    requires base == Observe(ps, Get(entries, BASE)) && msm == Observe(ps, Get(entries, MSM))
    requires Streams(entries) && SUMMARY in entries
    requires healthy == Flag(TextAt(entries, SUMMARY, "parser_healthy")) != Some(false)
    requires available == Flag(TextAt(entries, SUMMARY, "correction_available"))
    requires Flag(TextAt(entries, SUMMARY, "stale_data")) != Some(true)
    ensures SemanticShown(ps, entries, Judged(healthy, available, base, msm))
  {
    ObservationJudged(ps, entries, BASE, base);
    ObservationJudged(ps, entries, MSM, msm);
    VerdictByFacts(
      healthy, available, base, msm, Good(entries, BASE), Good(entries, MSM), Usable(ps, entries, MSM),
      SameStation(ps, entries, BASE, MSM));
  }

  /** The verdict's cases, over whether the observations are good, usable and of one station. */
  lemma VerdictByFacts(
    healthy: Option<bool>, available: Option<bool>, base: Observation, msm: Observation, goodBase: bool, goodMsm: bool,
    usable: bool, same: bool)
    requires (goodBase <==> base.Sound()) && (goodMsm <==> msm.Sound()) && (usable <==> MsmUsable(msm))
    requires same <==> StationsMatch(base, msm)
    ensures var seen := msm.present && msm.seen == Some(true);
            var there := available == Some(true);
            var wrong :=
              (seen && (!goodMsm || !(OrZero(msm.cells) > 0) || OrZero(msm.malformed) > 0))
              || (base.present && base.seen == Some(true) && !goodBase) || (goodBase && usable && !same) || there;
            Decided(true, true, false, false, there && healthy == Some(true) && goodBase && usable && same, wrong,
                    seen && !msm.Fresh(), Judged(healthy, available, base, msm))
  {
  }

  lemma SemanticIsShown(ps: Parsers, entries: map<string, Entry>)
    ensures SemanticShown(ps, entries, SemanticOf(ps, entries, TransportOf(entries)))
  {
    TransportIsShown(entries);
    SummaryReads(entries, "parser_healthy");
    SummaryReads(entries, "stale_data");
    SummaryReads(entries, "correction_available");
    var healthy := Flag(TextAt(entries, SUMMARY, "parser_healthy"));
    if Streams(entries) && SUMMARY in entries && healthy != Some(false)
       && Flag(TextAt(entries, SUMMARY, "stale_data")) != Some(true)
    {
      VerdictIsShown(
        ps, entries, healthy, Flag(TextAt(entries, SUMMARY, "correction_available")), Observe(ps, Get(entries, BASE)),
        Observe(ps, Get(entries, MSM)));
    }
  }

  lemma ForwardingIsShown(message: string)
    ensures ForwardingShown(message, ForwardingOf(message))
  {
    var m := Lower(Strip(message));
    if Contains(m, "write errors") {
      LongerContains(m, "write errors", "write error", "s");
    }
  }

  lemma LongerContains(s: string, long: string, short: string, more: string)
    requires long == short + more && Contains(s, long)
    ensures Contains(s, short)
  {
    ContainsExactly(s, long);
    var a, b :| s == a + long + b;
    assert s == a + short + (more + b);
    ContainsExactly(s, short);
  }

  lemma MsmIsShown(ps: Parsers, p: Public, owner: Contents, name: string)
    requires name in owner.entries
    ensures var q := WithMsm(ps, p, owner, name);
            && MsmShown(ps, owner.entries, name, q.msm) && q.msmSource == owner.source
            && (CapMsm in q.values <==> CapMsm in p.values || TellsSomething(ps, owner.entries, name))
  {
    ObservationReads(ps, owner.entries, name);
  }

  lemma NtripIsShown(ps: Parsers, p: Public, ntrip: Option<Contents>)
    requires p.transport == TransportUnknown && p.flow == FlowUnknown && p.semantic == SemanticUnknown && p.source == ""
    ensures NtripShown(ps, ntrip, WithNtrip(ps, p, ntrip))
  {
    if ntrip.Some? {
      TransportIsShown(ntrip.value.entries);
      FlowIsShown(ntrip.value.entries);
      SemanticIsShown(ps, ntrip.value.entries);
    }
  }

  lemma StreamIsShown(p: Public, ntrip: Option<Contents>, receiver: Option<Contents>)
    requires p.stream == ForwardingUnknown && p.forwardingSource == ""
    ensures StreamShown(ntrip, receiver, WithForwarding(p, ntrip, receiver))
  {
    var owner := if receiver.Some? then receiver else ntrip;
    var name := if receiver.Some? then "universal_gnss/rtcm_forwarding" else "universal_gnss_ntrip/rtcm_forwarding";
    if owner.Some? && name in owner.value.entries {
      ForwardingIsShown(owner.value.entries[name].message);
    }
  }

  lemma SummaryIsShown(ps: Parsers, p: Public, ntrip: Option<Contents>, receiver: Option<Contents>)
    ensures SummaryShown(ps, p, ntrip, receiver, Applied(ps, p, ntrip, receiver))
  {
    var q := WithNtrip(ps, WithForwarding(Cleared(p), ntrip, receiver), ntrip);
    assert q.msm == p.msm && q.msmSource == "" && CapMsm !in q.values;
    if ntrip.Some? {
      TransportIsShown(ntrip.value.entries);
      assert q.transport == Streaming <==> Streams(ntrip.value.entries);
    }
    if ntrip.Some? && q.transport == Streaming {
      if MSM in ntrip.value.entries {
        MsmIsShown(ps, q, ntrip.value, MSM);
      }
    } else if receiver.Some? && RECEIVER_MSM in receiver.value.entries {
      MsmIsShown(ps, q, receiver.value, RECEIVER_MSM);
    }
  }

  lemma MsmKeepsTheRest(
    ps: Parsers, q: Public, owner: Contents, name: string, ntrip: Option<Contents>, receiver: Option<Contents>)
    requires NtripShown(ps, ntrip, q) && StreamShown(ntrip, receiver, q)
    ensures NtripShown(ps, ntrip, WithMsm(ps, q, owner, name))
    ensures StreamShown(ntrip, receiver, WithMsm(ps, q, owner, name))
  {
  }

  /** Every field of every published message, told from the entries of the snapshots that are current. */
  lemma PublishedExactly(ps: Parsers, p: Public, ntrip: Option<Contents>, receiver: Option<Contents>)
    ensures Published(ps, p, ntrip, receiver, Applied(ps, p, ntrip, receiver))
  {
    var q0 := WithForwarding(Cleared(p), ntrip, receiver);
    var q := WithNtrip(ps, q0, ntrip);
    StreamIsShown(Cleared(p), ntrip, receiver);
    NtripIsShown(ps, q0, ntrip);
    assert q.stream == q0.stream && q.forwardingSource == q0.forwardingSource;
    if ntrip.Some? && q.transport == Streaming {
      MsmKeepsTheRest(ps, q, ntrip.value, MSM, ntrip, receiver);
    } else if receiver.Some? {
      MsmKeepsTheRest(ps, q, receiver.value, RECEIVER_MSM, ntrip, receiver);
    }
    SummaryIsShown(ps, p, ntrip, receiver);
  }

  // ---------------------------------------------------------------- the message object

  /** The message object `apply` fills in. */
  class PublicMessage {
    var view: Public

    constructor (view: Public)
      ensures this.view == view
    {
      this.view := view;
    }

    method ApplyMsm(ps: Parsers, owner: Contents, name: string)
      modifies this
      ensures view == WithMsm(ps, old(view), owner, name) && MsmEffect(ps, old(view), view, owner, name)
    {
      MsmPhase(ps, view, owner, name);
      var o := Observe(ps, Get(owner.entries, name));
      if !o.present {
        return;
      }
      view := view.(msm := MsmSummary(
                      o.seen == Some(true), o.decoded == Some(true), o.valid == Some(true), OrZero(o.messageType),
                      OrZero(o.station), o.constellations, OrZero(o.satellites), OrZero(o.signals), OrZero(o.cells),
                      if o.age.Some? then o.age.value else Finite(0.0)),
                    msmSource := owner.source);
      if o.HasValue() {
        view := view.(values := view.values + {CapMsm});
      } else {
        assert view.values + {} == view.values;
      }
    }

    method ApplyForwarding(ntrip: Option<Contents>, receiver: Option<Contents>)
      modifies this
      ensures view == WithForwarding(old(view), ntrip, receiver) && ForwardingEffect(old(view), view, ntrip, receiver)
    {
      ForwardingPhase(view, ntrip, receiver);
      var owner, name := receiver, "universal_gnss/rtcm_forwarding";
      if receiver.None? {
        owner, name := ntrip, "universal_gnss_ntrip/rtcm_forwarding";
      }
      if owner.None? || name !in owner.value.entries {
        return;
      }
      var status := ForwardingOf(owner.value.entries[name].message);
      view := view.(stream := status, forwardingSource := owner.value.source);
      if status != ForwardingUnknown {
        view := view.(values := view.values + {CapStream});
      } else {
        assert view.values + {} == view.values;
      }
    }

    method ApplyNtrip(ps: Parsers, ntrip: Contents)
      modifies this
      ensures view == WithNtrip(ps, old(view), Some(ntrip)) && NtripEffect(ps, old(view), view, ntrip)
      ensures TransportShown(ntrip.entries, view.transport) && FlowShown(ntrip.entries, view.flow)
      ensures SemanticShown(ps, ntrip.entries, view.semantic)
    {
      NtripPhase(ps, view, ntrip);
      TransportIsShown(ntrip.entries);
      FlowIsShown(ntrip.entries);
      SemanticIsShown(ps, ntrip.entries);
      var t := TransportOf(ntrip.entries);
      view := view.(transport := t, accepted := t == Streaming, flow := FlowOf(ntrip.entries, t),
                    semantic := SemanticOf(ps, ntrip.entries, t), source := ntrip.source);
      if t != TransportUnknown {
        view := view.(values := view.values + {CapTransport});
      } else {
        assert view.values + {} == view.values;
      }
      view := view.(values := view.values + {CapFlow, CapSemantic});
    }

    method Apply(ps: Parsers, tracker: Tracker, now: real)
      modifies this
      ensures view == Applied(ps, old(view), Current(tracker.ntrip.snapshot, tracker.timeout, now),
                              Current(tracker.receiver.snapshot, tracker.timeout, now))
      ensures Published(ps, old(view), Current(tracker.ntrip.snapshot, tracker.timeout, now),
                        Current(tracker.receiver.snapshot, tracker.timeout, now), view)
      ensures Consistent(old(view), view, Current(tracker.ntrip.snapshot, tracker.timeout, now).Some?)
      ensures view.semantic == Healthy ==>
                view.msm.valid && view.msm.cells > 0
                && view.msmSource == view.source == tracker.ntrip.snapshot.value.contents.source
    {
      var ntrip := Current(tracker.ntrip.snapshot, tracker.timeout, now);
      var receiver := Current(tracker.receiver.snapshot, tracker.timeout, now);
      PublishedIsConsistent(ps, view, ntrip, receiver);
      PublishedExactly(ps, view, ntrip, receiver);
      if ntrip.Some? && Applied(ps, view, ntrip, receiver).semantic == Healthy {
        HealthyCarriesItsEvidence(ps, view, ntrip.value, receiver);
      }
      view := Cleared(view);
      ApplyForwarding(ntrip, receiver);
      if ntrip.Some? {
        ApplyNtrip(ps, ntrip.value);
      }
      if ntrip.Some? && view.transport == Streaming {
        ApplyMsm(ps, ntrip.value, MSM);
      } else if receiver.Some? {
        ApplyMsm(ps, receiver.value, RECEIVER_MSM);
      }
    }
  }

  // ---------------------------------------------------------------- properties of the published message

  /** A snapshot that is `timeout` old, was never valid, or lies in the future contributes nothing. */
  lemma ExpiredContributesNothing(
    ps: Parsers, p: Public, a: Option<Snapshot>, b: Option<Snapshot>, timeout: real, now: real)
    requires a.Some? ==> !a.value.contents.valid || now < a.value.receivedAt || now - a.value.receivedAt >= timeout
    ensures Applied(ps, p, Current(a, timeout, now), Current(b, timeout, now))
            == Applied(ps, p, None, Current(b, timeout, now))
    ensures Applied(ps, p, Current(b, timeout, now), Current(a, timeout, now))
            == Applied(ps, p, Current(b, timeout, now), None)
  {
  }

  /** Once expired, always expired. */
  lemma ExpiryIsForGood(s: Option<Snapshot>, timeout: real, now: real, later: real)
    requires s.Some? && s.value.receivedAt <= now <= later && timeout > 0.0
    requires Current(s, timeout, now).None?
    ensures Current(s, timeout, later).None?
  {
  }

  /** Only forwarding changes, and it comes from the receiver if that is current, else from the caster. */
  ghost predicate ForwardingEffect(p: Public, q: Public, ntrip: Option<Contents>, receiver: Option<Contents>) {
    var owner := if receiver.Some? then receiver else ntrip;
    && q == p.(stream := q.stream, forwardingSource := q.forwardingSource, values := q.values)
    && q.values - {CapStream} == p.values - {CapStream}
    && (owner.None? ==> q == p)
    && (q.stream != p.stream || q.forwardingSource != p.forwardingSource ==>
          owner.Some? && q.forwardingSource == owner.value.source)
    && (p.stream == ForwardingUnknown && CapStream !in p.values ==>
          (CapStream in q.values <==> q.stream != ForwardingUnknown))
  }

  lemma ForwardingPhase(p: Public, ntrip: Option<Contents>, receiver: Option<Contents>)
    ensures ForwardingEffect(p, WithForwarding(p, ntrip, receiver), ntrip, receiver)
  {
  }

  /** Only the summary changes, all of it from one owner, and it shows a good observation as one. */
  ghost predicate MsmEffect(ps: Parsers, p: Public, q: Public, owner: Contents, name: string) {
    var o := Observe(ps, Get(owner.entries, name));
    && q == p.(msm := q.msm, msmSource := q.msmSource, values := q.values)
    && q.values - {CapMsm} == p.values - {CapMsm}
    && (CapMsm in q.values <==> CapMsm in p.values || o.HasValue())
    && (if name in owner.entries then q.msmSource == owner.source else q == p)
    && (name in owner.entries ==>
          (q.msm.seen && q.msm.decoded && q.msm.valid <==> o.Sound()) && q.msm.cells == OrZero(o.cells))
  }

  lemma MsmPhase(ps: Parsers, p: Public, owner: Contents, name: string)
    ensures MsmEffect(ps, p, WithMsm(ps, p, owner, name), owner, name)
  {
  }

  /** Transport, flow and semantic status come from one snapshot and cannot contradict each other. */
  ghost predicate NtripEffect(ps: Parsers, p: Public, q: Public, ntrip: Contents) {
    && q.capabilities == p.capabilities && q.stream == p.stream && q.source == ntrip.source
    && q.forwardingSource == p.forwardingSource && q.msm == p.msm && q.msmSource == p.msmSource
    && q.values == p.values + (if q.transport == TransportUnknown then {} else {CapTransport}) + {CapFlow, CapSemantic}
    && (q.accepted <==> q.transport == Streaming)
    && (q.flow == Idle <==> !q.accepted) && (q.semantic == Unavailable <==> !q.accepted)
    && q.flow != FlowUnknown && q.semantic != SemanticUnknown
    && (q.flow == FlowInvalid ==> q.semantic == Invalid)
    && (q.semantic == Healthy ==> q.accepted && q.flow in {Active, FlowWaiting, FlowStale}
                                  && MsmUsable(Observe(ps, Get(ntrip.entries, MSM))))
  }

  lemma NtripPhase(ps: Parsers, p: Public, ntrip: Contents)
    ensures NtripEffect(ps, p, WithNtrip(ps, p, Some(ntrip)), ntrip)
  {
  }

  /** Flags, statuses and sources of a published message say the same thing. */
  ghost predicate Consistent(p: Public, q: Public, current: bool) {
    && q.capabilities == p.capabilities + CORRECTION_CAPS
    && q.values - CORRECTION_CAPS == p.values - CORRECTION_CAPS
    && (CapTransport in q.values <==> q.transport != TransportUnknown)
    && (CapFlow in q.values <==> current) && (CapSemantic in q.values <==> current)
    && (CapStream in q.values <==> q.stream != ForwardingUnknown)
    && (q.accepted <==> q.transport == Streaming)
    && (q.flow == FlowUnknown <==> !current) && (q.semantic == SemanticUnknown <==> !current)
    && (q.flow == Idle <==> current && !q.accepted) && (q.semantic == Unavailable <==> current && !q.accepted)
    && (q.flow == FlowInvalid ==> q.semantic == Invalid)
    && (q.semantic == Healthy ==> q.accepted && q.flow in {Active, FlowWaiting, FlowStale})
  }

  lemma ConsistentWithoutMsm(ps: Parsers, p: Public, ntrip: Option<Contents>, receiver: Option<Contents>)
    ensures Consistent(p, WithNtrip(ps, WithForwarding(Cleared(p), ntrip, receiver), ntrip), ntrip.Some?)
  {
    ForwardingPhase(Cleared(p), ntrip, receiver);
    var q0 := WithForwarding(Cleared(p), ntrip, receiver);
    FlagsAfterForwarding(p.values, q0.values, q0.stream != ForwardingUnknown);
    if ntrip.Some? {
      NtripPhase(ps, q0, ntrip.value);
      var q := WithNtrip(ps, q0, ntrip);
      FlagsAfterNtrip(
        p.values, q0.values, q.values, if q.transport == TransportUnknown then {} else {CapTransport},
        q0.stream != ForwardingUnknown);
    }
  }

  lemma FlagsAfterForwarding(base: set<Capability>, now: set<Capability>, stream: bool)
    requires now - {CapStream} == base - CORRECTION_CAPS - {CapStream} && (CapStream in now <==> stream)
    ensures now - CORRECTION_CAPS == base - CORRECTION_CAPS
    ensures now * CORRECTION_CAPS == if stream then {CapStream} else {}
    ensures forall c :: c in CORRECTION_CAPS - {CapStream} ==> c !in now
  {
    forall c | c in now && c != CapStream ensures c in base - CORRECTION_CAPS {
      assert c in now - {CapStream};
    }
    forall c | c in base - CORRECTION_CAPS ensures c in now {
      assert c in base - CORRECTION_CAPS - {CapStream};
    }
  }

  lemma FlagsAfterNtrip(
    base: set<Capability>, was: set<Capability>, now: set<Capability>, transport: set<Capability>, stream: bool)
    requires was - CORRECTION_CAPS == base - CORRECTION_CAPS
    requires was * CORRECTION_CAPS == if stream then {CapStream} else {}
    requires transport <= {CapTransport} && now == was + transport + {CapFlow, CapSemantic}
    ensures now - CORRECTION_CAPS == base - CORRECTION_CAPS
    ensures (CapTransport in now <==> transport != {}) && CapFlow in now && CapSemantic in now
    ensures CapStream in now <==> stream
  {
    forall c | c in CORRECTION_CAPS ensures c in was <==> c in was * CORRECTION_CAPS {
    }
  }

  lemma ConsistentWithMsm(ps: Parsers, p: Public, q: Public, current: bool, owner: Contents, name: string)
    requires Consistent(p, q, current)
    ensures Consistent(p, WithMsm(ps, q, owner, name), current)
  {
    MsmPhase(ps, q, owner, name);
  }

  /** Every published message is consistent; with nothing current it is the cleared message. */
  lemma PublishedIsConsistent(ps: Parsers, p: Public, ntrip: Option<Contents>, receiver: Option<Contents>)
    ensures Consistent(p, Applied(ps, p, ntrip, receiver), ntrip.Some?)
    ensures ntrip.None? && receiver.None? ==> Applied(ps, p, ntrip, receiver) == Cleared(p)
  {
    ConsistentWithoutMsm(ps, p, ntrip, receiver);
    var q := WithNtrip(ps, WithForwarding(Cleared(p), ntrip, receiver), ntrip);
    if ntrip.Some? && q.transport == Streaming {
      ConsistentWithMsm(ps, p, q, true, ntrip.value, MSM);
    } else if receiver.Some? {
      ConsistentWithMsm(ps, p, q, ntrip.Some?, receiver.value, RECEIVER_MSM);
    }
  }

  /** A healthy message carries the very observation it was judged by, from the same source. */
  lemma HealthyCarriesItsEvidence(ps: Parsers, p: Public, ntrip: Contents, receiver: Option<Contents>)
    requires Applied(ps, p, Some(ntrip), receiver).semantic == Healthy
    ensures var q := Applied(ps, p, Some(ntrip), receiver);
            q.msm.valid && q.msm.cells > 0 && q.msmSource == q.source == ntrip.source
  {
    var q0 := WithForwarding(Cleared(p), Some(ntrip), receiver);
    NtripPhase(ps, q0, ntrip);
    var q := WithNtrip(ps, q0, Some(ntrip));
    MsmPhase(ps, q, ntrip, MSM);
    if receiver.Some? {
      MsmPhase(ps, q, receiver.value, RECEIVER_MSM);
    }
  }
}
