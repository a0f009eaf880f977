/**
 Patching a file line by line and migrating a list of settings into it, whatever the lines look like:
 the list-level half of install/scripts/migrate_openmower.py. `Migration` supplies the YAML lines.
 */
module LinePatch {
  import opened Basics

  /** One value to migrate: the key and the transformed value. */
  datatype Setting = Setting(key: string, value: string)

  /** What is known about single lines: the key a line carries, whether its value counts as set, and what to write. */
  datatype Format = Format(
    keyOf: string -> Option<string>, isSet: string -> bool, isHeader: string -> bool,
    rewritten: (string, Setting) -> string, newLine: (string, Setting) -> string)

  predicate Carries(f: Format, line: string, key: string) {
    f.keyOf(line) == Some(key)
  }

  /** Index of the first line from `i` on that carries `key`, or the number of lines. */
  function KeyFrom(f: Format, lines: seq<string>, key: string, i: nat): (r: nat)
    requires i <= |lines|
    ensures i <= r <= |lines| && (r < |lines| ==> Carries(f, lines[r], key))
    ensures forall j :: i <= j < r ==> !Carries(f, lines[j], key)
    decreases |lines| - i
  {
    if i < |lines| && !Carries(f, lines[i], key) then KeyFrom(f, lines, key, i + 1) else i
  }

  function FindKey(f: Format, lines: seq<string>, key: string): nat {
    KeyFrom(f, lines, key, 0)
  }

  function HeaderFrom(f: Format, lines: seq<string>, i: nat): (r: nat)
    requires i <= |lines|
    ensures i <= r <= |lines| && (r < |lines| ==> f.isHeader(lines[r]))
    ensures forall j :: i <= j < r ==> !f.isHeader(lines[j])
    decreases |lines| - i
  {
    if i < |lines| && !f.isHeader(lines[i]) then HeaderFrom(f, lines, i + 1) else i
  }

  function FindHeader(f: Format, lines: seq<string>): nat {
    HeaderFrom(f, lines, 0)
  }

  /** What the first line with the key says, and the first section header, if there is one. */
  function LineOf(f: Format, lines: seq<string>, key: string): (r: Option<string>)
    ensures r.Some? ==> Carries(f, r.value, key)
  {
    var i := FindKey(f, lines, key);
    if i < |lines| then Some(lines[i]) else None
  }

  function HeaderLine(f: Format, lines: seq<string>): Option<string> {
    var h := FindHeader(f, lines);
    if h < |lines| then Some(lines[h]) else None
  }

  /** `line` added behind line `h`. */
  function Inserted(lines: seq<string>, h: nat, line: string): seq<string>
    requires h < |lines|
  {
    lines[..h + 1] + [line] + lines[h + 1..]
  }

  /** Over the first line with the key, or else under the first section header. */
  function Patch(f: Format, lines: seq<string>, s: Setting): seq<string> {
    var i, h := FindKey(f, lines, s.key), FindHeader(f, lines);
    if i < |lines| then lines[i := f.rewritten(lines[i], s)]
    else if h < |lines| then Inserted(lines, h, f.newLine(lines[h], s))
    else lines
  }

  predicate IsSet(f: Format, lines: seq<string>, key: string) {
    var line := LineOf(f, lines, key);
    line.Some? && f.isSet(line.value)
  }

  function Apply(f: Format, lines: seq<string>, s: Setting, force: bool): seq<string> {
    if IsSet(f, lines, s.key) && !force then lines else Patch(f, lines, s)
  }

  /** The file after the first `n` settings. */
  function After(f: Format, lines: seq<string>, settings: seq<Setting>, n: nat, force: bool): seq<string>
    requires n <= |settings|
  {
    if n == 0 then lines else Apply(f, After(f, lines, settings, n - 1, force), settings[n - 1], force)
  }

  function Migrate(f: Format, lines: seq<string>, settings: seq<Setting>, force: bool): seq<string> {
    After(f, lines, settings, |settings|, force)
  }

  /** The settings among the first `n` that are left alone because their key was set when their turn came. */
  function Skipped(f: Format, lines: seq<string>, settings: seq<Setting>, n: nat, force: bool): seq<Setting>
    requires n <= |settings|
  {
    if n == 0 then []
    else
      var s := settings[n - 1];
      Skipped(f, lines, settings, n - 1, force)
      + if IsSet(f, After(f, lines, settings, n - 1, force), s.key) && !force then [s] else []
  }

  // ---------------------------------------------------------------- what is asked of the lines

  /** Written lines carry their key. */
  ghost predicate WritesKey(f: Format, s: Setting) {
    && (forall line :: Carries(f, line, s.key) ==> Carries(f, f.rewritten(line, s), s.key))
    && (forall header :: Carries(f, f.newLine(header, s), s.key))
  }

  /** Moreover, no line with the key is a section header. */
  ghost predicate Lawful(f: Format, s: Setting) {
    WritesKey(f, s) && forall line :: Carries(f, line, s.key) ==> !f.isHeader(line)
  }

  /** Patching a line changes nothing, or it counts as set: applying the setting again does nothing. */
  predicate SettledLine(f: Format, line: string, s: Setting) {
    f.isSet(line) || f.rewritten(line, s) == line
  }

  /** Every line written for the setting is settled. */
  ghost predicate Stable(f: Format, s: Setting) {
    && (forall line :: Carries(f, line, s.key) ==> SettledLine(f, f.rewritten(line, s), s))
    && (forall header :: SettledLine(f, f.newLine(header, s), s))
  }

  ghost predicate DifferentKeys(settings: seq<Setting>) {
    forall j, k :: 0 <= j < k < |settings| ==> settings[j].key != settings[k].key
  }

  ghost predicate AllLawful(f: Format, settings: seq<Setting>) {
    forall k :: 0 <= k < |settings| ==> Lawful(f, settings[k])
  }

  // ---------------------------------------------------------------- positions

  lemma FindKeyIs(f: Format, lines: seq<string>, key: string, i: nat)
    requires i <= |lines| && (i < |lines| ==> Carries(f, lines[i], key))
    requires forall j :: 0 <= j < i ==> !Carries(f, lines[j], key)
    ensures FindKey(f, lines, key) == i
  {
    var k := FindKey(f, lines, key);
    assert k < |lines| ==> Carries(f, lines[k], key);
  }

  lemma FindHeaderIs(f: Format, lines: seq<string>, i: nat)
    requires i <= |lines| && (i < |lines| ==> f.isHeader(lines[i]))
    requires forall j :: 0 <= j < i ==> !f.isHeader(lines[j])
    ensures FindHeader(f, lines) == i
  {
    var k := FindHeader(f, lines);
    assert k < |lines| ==> f.isHeader(lines[k]);
  }

  lemma InsertedAt(lines: seq<string>, h: nat, line: string, j: nat)
    requires h < |lines| && j <= |lines|
    ensures var p := Inserted(lines, h, line);
            |p| == |lines| + 1 && p[j] == if j <= h then lines[j] else if j == h + 1 then line else lines[j - 1]
  {
  }

  // ---------------------------------------------------------------- the copying loop

  /** The first `n` lines with `line` added after line `h` once that has been copied. */
  function Copied(lines: seq<string>, h: nat, line: string, n: nat): seq<string>
    requires h <= |lines| && n <= |lines|
  {
    if n <= h then lines[..n] else lines[..h + 1] + [line] + lines[h + 1..n]
  }

  lemma CopyOneMore(lines: seq<string>, h: nat, line: string, n: nat)
    requires h <= |lines| && n < |lines|
    ensures Copied(lines, h, line, n + 1)
            == Copied(lines, h, line, n) + [lines[n]] + if n == h then [line] else []
  {
    if n > h {
      assert lines[h + 1..n + 1] == lines[h + 1..n] + [lines[n]];
    }
  }

  lemma HeaderTest(f: Format, lines: seq<string>, i: nat)
    requires i < |lines|
    ensures i <= FindHeader(f, lines) && f.isHeader(lines[i]) <==> i == FindHeader(f, lines)
  {
  }

  /** Copies the lines and adds one behind the first header. */
  method InsertUnderHeader(f: Format, lines: seq<string>, s: Setting) returns (out: seq<string>)
    ensures var h := FindHeader(f, lines);
            out == if h < |lines| then Inserted(lines, h, f.newLine(lines[h], s)) else lines
  {
    ghost var h := FindHeader(f, lines);
    ghost var line := if h < |lines| then f.newLine(lines[h], s) else "";
    out := [];
    var inserted := false;
    for i := 0 to |lines|
      invariant inserted <==> h < i
      invariant out == Copied(lines, h, line, i)
    {
      CopyOneMore(lines, h, line, i);
      HeaderTest(f, lines, i);
      out := out + [lines[i]];
      if !inserted && f.isHeader(lines[i]) {
        out := out + [f.newLine(lines[i], s)];
        inserted := true;
      }
    }
  }

  // ---------------------------------------------------------------- one setting

  /** What patching leaves for a key: its line rewritten, a new one under the section, or none without one. */
  function PatchedTo(f: Format, was: Option<string>, header: Option<string>, s: Setting): Option<string> {
    if was.Some? then Some(f.rewritten(was.value, s))
    else if header.Some? then Some(f.newLine(header.value, s))
    else None
  }

  /** The key's line after patching: the old one rewritten, a new one, or still none. */
  lemma PatchedLine(f: Format, lines: seq<string>, s: Setting)
    requires WritesKey(f, s)
    ensures LineOf(f, Patch(f, lines, s), s.key)
            == PatchedTo(f, LineOf(f, lines, s.key), HeaderLine(f, lines), s)
  {
    var p, i, h := Patch(f, lines, s), FindKey(f, lines, s.key), FindHeader(f, lines);
    if i < |lines| {
      FindKeyIs(f, p, s.key, i);
    } else if h < |lines| {
      forall j | 0 <= j < h + 1 ensures !Carries(f, p[j], s.key) {
        InsertedAt(lines, h, f.newLine(lines[h], s), j);
      }
      FindKeyIs(f, p, s.key, h + 1);
    }
  }

  /** Whether a setting has nothing left to do depends on its key's line and on there being a section. */
  predicate Settled(f: Format, lines: seq<string>, s: Setting) {
    match LineOf(f, lines, s.key)
    case Some(line) => SettledLine(f, line, s)
    case None => HeaderLine(f, lines).None?
  }

  lemma SettledExactly(f: Format, lines: seq<string>, s: Setting)
    ensures Settled(f, lines, s) <==> Apply(f, lines, s, false) == lines
  {
    var i := FindKey(f, lines, s.key);
    if i < |lines| {
      var line := f.rewritten(lines[i], s);
      assert lines[i := line] == lines <==> line == lines[i];
    } else if HeaderLine(f, lines).Some? {
      assert |Patch(f, lines, s)| == |lines| + 1;
    }
  }

  /** After a stable setting has been applied, applying it again does nothing. */
  lemma AppliedIsSettled(f: Format, lines: seq<string>, s: Setting)
    requires WritesKey(f, s) && Stable(f, s)
    ensures Settled(f, Apply(f, lines, s, false), s)
  {
    PatchedLine(f, lines, s);
    if !IsSet(f, lines, s.key) && LineOf(f, lines, s.key).None? && HeaderLine(f, lines).None? {
      assert Apply(f, lines, s, false) == lines;
    }
  }

  // ---------------------------------------------------------------- settings do not disturb each other

  lemma InsertKeepsOthers(f: Format, lines: seq<string>, h: nat, line: string, other: string)
    requires h < |lines| && !Carries(f, line, other)
    ensures LineOf(f, Inserted(lines, h, line), other) == LineOf(f, lines, other)
  {
    var p, i := Inserted(lines, h, line), FindKey(f, lines, other);
    var at := if i <= h then i else i + 1;
    forall j | 0 <= j < at ensures !Carries(f, p[j], other) {
      InsertedAt(lines, h, line, j);
    }
    if i < |lines| {
      InsertedAt(lines, h, line, at);
    }
    FindKeyIs(f, p, other, at);
  }

  lemma ReplaceKeepsOthers(f: Format, lines: seq<string>, i: nat, line: string, other: string)
    requires i < |lines| && !Carries(f, lines[i], other) && !Carries(f, line, other)
    ensures LineOf(f, lines[i := line], other) == LineOf(f, lines, other)
  {
    var p, k := lines[i := line], FindKey(f, lines, other);
    forall j | 0 <= j < k ensures !Carries(f, p[j], other) {
      assert j != i ==> p[j] == lines[j];
    }
    FindKeyIs(f, p, other, k);
  }

  lemma KeepsOtherKeys(f: Format, lines: seq<string>, s: Setting, other: string, force: bool)
    requires WritesKey(f, s) && other != s.key
    ensures LineOf(f, Apply(f, lines, s, force), other) == LineOf(f, lines, other)
  {
    var i, h := FindKey(f, lines, s.key), FindHeader(f, lines);
    if i < |lines| {
      ReplaceKeepsOthers(f, lines, i, f.rewritten(lines[i], s), other);
    } else if h < |lines| {
      InsertKeepsOthers(f, lines, h, f.newLine(lines[h], s), other);
    }
  }

  lemma InsertKeepsHeader(f: Format, lines: seq<string>, h: nat, line: string)
    requires h == FindHeader(f, lines) < |lines|
    ensures HeaderLine(f, Inserted(lines, h, line)) == HeaderLine(f, lines)
  {
    forall j | 0 <= j <= h ensures Inserted(lines, h, line)[j] == lines[j] {
      InsertedAt(lines, h, line, j);
    }
    FindHeaderIs(f, Inserted(lines, h, line), h);
  }

  lemma ReplaceKeepsHeader(f: Format, lines: seq<string>, i: nat, line: string)
    requires i < |lines| && !f.isHeader(lines[i]) && !f.isHeader(line)
    ensures HeaderLine(f, lines[i := line]) == HeaderLine(f, lines)
  {
    var p, h := lines[i := line], FindHeader(f, lines);
    forall j | 0 <= j < h ensures !f.isHeader(p[j]) {
      assert j != i ==> p[j] == lines[j];
    }
    FindHeaderIs(f, p, h);
  }

  /** Applying a setting keeps the first section header. */
  lemma KeepsHeader(f: Format, lines: seq<string>, s: Setting, force: bool)
    requires Lawful(f, s)
    ensures HeaderLine(f, Apply(f, lines, s, force)) == HeaderLine(f, lines)
  {
    var i, h := FindKey(f, lines, s.key), FindHeader(f, lines);
    if i < |lines| {
      ReplaceKeepsHeader(f, lines, i, f.rewritten(lines[i], s));
    } else if h < |lines| {
      InsertKeepsHeader(f, lines, h, f.newLine(lines[h], s));
    }
  }

  lemma StaysSettled(f: Format, lines: seq<string>, s: Setting, t: Setting)
    requires Lawful(f, t) && s.key != t.key && Settled(f, lines, s)
    ensures Settled(f, Apply(f, lines, t, false), s)
  {
    KeepsOtherKeys(f, lines, t, s.key, false);
    KeepsHeader(f, lines, t, false);
  }

  // ---------------------------------------------------------------- whole migrations

  lemma {:induction false} AllSettled(f: Format, lines: seq<string>, settings: seq<Setting>, n: nat, k: nat)
    requires AllLawful(f, settings) && DifferentKeys(settings) && k < n <= |settings| && Stable(f, settings[k])
    ensures Settled(f, After(f, lines, settings, n, false), settings[k])
  {
    var before := After(f, lines, settings, n - 1, false);
    if k == n - 1 {
      AppliedIsSettled(f, before, settings[k]);
    } else {
      AllSettled(f, lines, settings, n - 1, k);
      StaysSettled(f, before, settings[k], settings[n - 1]);
    }
  }

  lemma {:induction false} NothingLeftToDo(f: Format, lines: seq<string>, settings: seq<Setting>, n: nat)
    requires n <= |settings| && forall k :: 0 <= k < n ==> Settled(f, lines, settings[k])
    ensures After(f, lines, settings, n, false) == lines
  {
    if n > 0 {
      NothingLeftToDo(f, lines, settings, n - 1);
      SettledExactly(f, lines, settings[n - 1]);
    }
  }

  /** A second migration changes nothing. */
  lemma TwiceIsOnce(f: Format, lines: seq<string>, settings: seq<Setting>)
    requires AllLawful(f, settings) && DifferentKeys(settings)
    requires forall k :: 0 <= k < |settings| ==> Stable(f, settings[k])
    ensures var once := Migrate(f, lines, settings, false);
            Migrate(f, once, settings, false) == once
  {
    var once := Migrate(f, lines, settings, false);
    forall k | 0 <= k < |settings| ensures Settled(f, once, settings[k]) {
      AllSettled(f, lines, settings, |settings|, k);
    }
    NothingLeftToDo(f, once, settings, |settings|);
  }

  /** A key that is set keeps its line, whatever is migrated. */
  lemma {:induction false} SetKeyKeepsItsLine(
    f: Format, lines: seq<string>, settings: seq<Setting>, n: nat, key: string)
    requires IsSet(f, lines, key) && n <= |settings| && forall k :: 0 <= k < n ==> WritesKey(f, settings[k])
    ensures LineOf(f, After(f, lines, settings, n, false), key) == LineOf(f, lines, key)
  {
    if n > 0 {
      SetKeyKeepsItsLine(f, lines, settings, n - 1, key);
      if settings[n - 1].key != key {
        KeepsOtherKeys(f, After(f, lines, settings, n - 1, false), settings[n - 1], key, false);
      }
    }
  }

  lemma {:induction false} UntouchedBetween(
    f: Format, lines: seq<string>, settings: seq<Setting>, m: nat, n: nat, key: string, force: bool)
    requires AllLawful(f, settings) && m <= n <= |settings| && forall k :: m <= k < n ==> settings[k].key != key
    ensures LineOf(f, After(f, lines, settings, n, force), key) == LineOf(f, After(f, lines, settings, m, force), key)
  {
    if m < n {
      UntouchedBetween(f, lines, settings, m, n - 1, key, force);
      KeepsOtherKeys(f, After(f, lines, settings, n - 1, force), settings[n - 1], key, force);
    }
  }

  lemma {:induction false} HeaderIsKept(f: Format, lines: seq<string>, settings: seq<Setting>, n: nat, force: bool)
    requires AllLawful(f, settings) && n <= |settings|
    ensures HeaderLine(f, After(f, lines, settings, n, force)) == HeaderLine(f, lines)
  {
    if n > 0 {
      HeaderIsKept(f, lines, settings, n - 1, force);
      KeepsHeader(f, After(f, lines, settings, n - 1, force), settings[n - 1], force);
    }
  }

  lemma LineAtItsTurn(f: Format, lines: seq<string>, settings: seq<Setting>, k: nat, force: bool)
    requires AllLawful(f, settings) && DifferentKeys(settings) && k < |settings|
    requires force || !IsSet(f, lines, settings[k].key)
    ensures LineOf(f, After(f, lines, settings, k + 1, force), settings[k].key)
            == PatchedTo(f, LineOf(f, lines, settings[k].key), HeaderLine(f, lines), settings[k])
  {
    var before := After(f, lines, settings, k, force);
    UntouchedBetween(f, lines, settings, 0, k, settings[k].key, force);
    HeaderIsKept(f, lines, settings, k, force);
    PatchedLine(f, before, settings[k]);
    assert After(f, lines, settings, k + 1, force) == Patch(f, before, settings[k]);
  }

  /**
   After a whole migration the line of an unset key, and with force of any key, is the one patching it makes
   of the original file.
   */
  lemma KeysGetTheirLine(f: Format, lines: seq<string>, settings: seq<Setting>, k: nat, force: bool)
    requires AllLawful(f, settings) && DifferentKeys(settings) && k < |settings|
    requires force || !IsSet(f, lines, settings[k].key)
    ensures LineOf(f, Migrate(f, lines, settings, force), settings[k].key)
            == PatchedTo(f, LineOf(f, lines, settings[k].key), HeaderLine(f, lines), settings[k])
  {
    LineAtItsTurn(f, lines, settings, k, force);
    UntouchedBetween(f, lines, settings, k + 1, |settings|, settings[k].key, force);
  }

  /** The settings whose key is set in the original file, in order. */
  function SetOnes(f: Format, lines: seq<string>, settings: seq<Setting>, n: nat): seq<Setting>
    requires n <= |settings|
  {
    if n == 0 then []
    else SetOnes(f, lines, settings, n - 1) + if IsSet(f, lines, settings[n - 1].key) then [settings[n - 1]] else []
  }

  lemma SetAsBefore(f: Format, lines: seq<string>, settings: seq<Setting>, k: nat, force: bool)
    requires AllLawful(f, settings) && DifferentKeys(settings) && k < |settings|
    ensures IsSet(f, After(f, lines, settings, k, force), settings[k].key) == IsSet(f, lines, settings[k].key)
  {
    UntouchedBetween(f, lines, settings, 0, k, settings[k].key, force);
  }

  /** What is reported as kept: without force exactly the settings whose key was set to begin with, with it none. */
  lemma {:induction false} SkippedExactly(f: Format, lines: seq<string>, settings: seq<Setting>, n: nat, force: bool)
    requires AllLawful(f, settings) && DifferentKeys(settings) && n <= |settings|
    ensures Skipped(f, lines, settings, n, force) == if force then [] else SetOnes(f, lines, settings, n)
  {
    if n > 0 {
      SkippedExactly(f, lines, settings, n - 1, force);
      SetAsBefore(f, lines, settings, n - 1, force);
    }
  }

  // ---------------------------------------------------------------- the lines of other keys

  /** The lines that carry none of the keys, in order. */
  function Foreign(f: Format, keys: set<string>, lines: seq<string>): seq<string> {
    if lines == [] then []
    else
      var key := f.keyOf(lines[0]);
      (if key.Some? && key.value in keys then [] else [lines[0]]) + Foreign(f, keys, lines[1..])
  }

  lemma {:induction false} ForeignAppend(f: Format, keys: set<string>, a: seq<string>, b: seq<string>)
    ensures Foreign(f, keys, a + b) == Foreign(f, keys, a) + Foreign(f, keys, b)
    decreases |a|
  {
    if a == [] {
      assert a + b == b;
    } else {
      assert (a + b)[1..] == a[1..] + b;
      ForeignAppend(f, keys, a[1..], b);
    }
  }

  lemma ForeignOwn(f: Format, keys: set<string>, a: seq<string>, line: string, b: seq<string>, key: string)
    requires Carries(f, line, key) && key in keys
    ensures Foreign(f, keys, a + [line] + b) == Foreign(f, keys, a) + Foreign(f, keys, b)
  {
    ForeignAppend(f, keys, a + [line], b);
    ForeignAppend(f, keys, a, [line]);
    OwnAlone(f, keys, [line], key);
    assert Foreign(f, keys, a) + [] == Foreign(f, keys, a);
  }

  lemma OwnAlone(f: Format, keys: set<string>, one: seq<string>, key: string)
    requires |one| == 1 && Carries(f, one[0], key) && key in keys
    ensures Foreign(f, keys, one) == []
  {
    assert one[1..] == [];
  }

  lemma ReplacedParts(lines: seq<string>, i: nat, line: string)
    requires i < |lines|
    ensures lines == lines[..i] + [lines[i]] + lines[i + 1..]
    ensures lines[i := line] == lines[..i] + [line] + lines[i + 1..]
  {
  }

  lemma PatchKeepsForeign(f: Format, keys: set<string>, lines: seq<string>, s: Setting)
    requires WritesKey(f, s) && s.key in keys
    ensures Foreign(f, keys, Patch(f, lines, s)) == Foreign(f, keys, lines)
  {
    var i, h := FindKey(f, lines, s.key), FindHeader(f, lines);
    if i < |lines| {
      ReplacedParts(lines, i, f.rewritten(lines[i], s));
      ForeignOwn(f, keys, lines[..i], lines[i], lines[i + 1..], s.key);
      ForeignOwn(f, keys, lines[..i], f.rewritten(lines[i], s), lines[i + 1..], s.key);
    } else if h < |lines| {
      ForeignOwn(f, keys, lines[..h + 1], f.newLine(lines[h], s), lines[h + 1..], s.key);
      ForeignAppend(f, keys, lines[..h + 1], lines[h + 1..]);
      assert lines == lines[..h + 1] + lines[h + 1..];
    }
  }

  /** No migration loses, changes, moves or adds a line of any other key, or without one. */
  lemma {:induction false} ForeignLinesStay(
    f: Format, keys: set<string>, lines: seq<string>, settings: seq<Setting>, n: nat, force: bool)
    requires n <= |settings| && forall k :: 0 <= k < n ==> WritesKey(f, settings[k]) && settings[k].key in keys
    ensures Foreign(f, keys, After(f, lines, settings, n, force)) == Foreign(f, keys, lines)
  {
    if n > 0 {
      ForeignLinesStay(f, keys, lines, settings, n - 1, force);
      PatchKeepsForeign(f, keys, After(f, lines, settings, n - 1, force), settings[n - 1]);
    }
  }

  // ---------------------------------------------------------------- what holds of every line

  ghost predicate Everywhere(p: string -> bool, lines: seq<string>) {
    forall k :: 0 <= k < |lines| ==> p(lines[k])
  }

  /** What is written has the property `p` whenever the line it is made from has it. */
  ghost predicate Writes(f: Format, p: string -> bool, s: Setting) {
    forall line :: p(line) ==> (Carries(f, line, s.key) ==> p(f.rewritten(line, s))) && p(f.newLine(line, s))
  }

  lemma PatchKeeps(f: Format, p: string -> bool, lines: seq<string>, s: Setting)
    requires Everywhere(p, lines) && Writes(f, p, s)
    ensures Everywhere(p, Patch(f, lines, s))
  {
    var out, i, h := Patch(f, lines, s), FindKey(f, lines, s.key), FindHeader(f, lines);
    if i == |lines| && h < |lines| {
      forall k | 0 <= k < |out| ensures p(out[k]) {
        InsertedAt(lines, h, f.newLine(lines[h], s), k);
      }
    }
  }

  lemma {:induction false} MigrationKeeps(
    f: Format, p: string -> bool, lines: seq<string>, settings: seq<Setting>, n: nat)
    requires Everywhere(p, lines) && n <= |settings| && forall k :: 0 <= k < n ==> Writes(f, p, settings[k])
    ensures Everywhere(p, After(f, lines, settings, n, false))
  {
    if n > 0 {
      MigrationKeeps(f, p, lines, settings, n - 1);
      PatchKeeps(f, p, After(f, lines, settings, n - 1, false), settings[n - 1]);
    }
  }
}
