/** The YAML side of the migration of install/scripts/migrate_openmower.py: lines, loops, and what they promise. */
module Migration {
  import opened Basics
  import opened Strings
  import opened YamlLine
  import opened LinePatch

  const SECTION := "ros__parameters"
  const HEADER := "ros__parameters:"

  function KeyOf(line: string): Option<string> {
    if Match(line).Some? then Some(Match(line).value.key) else None
  }

  predicate LineIsSet(line: string) {
    Match(line).Some? && CountsAsSet(Match(line).value.tail.val)
  }

  predicate IsHeader(line: string) {
    Strip(line) == HEADER
  }

  function Overwritten(line: string, s: Setting): string {
    if HasKey(line, s.key) then Rewritten(line, s.key, s.value) else line
  }

  function Spaces(n: nat): (s: string)
    ensures |s| == n
  {
    seq(n, _ => ' ')
  }

  /** The line added under a section header, four columns further in. */
  function NewLine(header: string, s: Setting): string {
    Spaces(SkipSpace(header, 0) + 4) + s.key + ": " + s.value
  }

  const YAML := Format(KeyOf, LineIsSet, IsHeader, Overwritten, NewLine)

  // ---------------------------------------------------------------- the script's loops

  method YamlPatch(lines: seq<string>, key: string, value: string) returns (out: seq<string>)
    ensures out == Patch(YAML, lines, Setting(key, value))
  {
    for i := 0 to |lines|
      invariant forall j :: 0 <= j < i ==> !Carries(YAML, lines[j], key)
    {
      var m := Match(lines[i]);
      if m.Some? && m.value.key == key {
        FindKeyIs(YAML, lines, key, i);
        return lines[i := WithValue(m.value, value)];
      }
    }
    FindKeyIs(YAML, lines, key, |lines|);
    out := InsertUnderHeader(YAML, lines, Setting(key, value));
  }

  method YamlValueIsSet(lines: seq<string>, key: string) returns (set': bool)
    ensures set' == IsSet(YAML, lines, key)
  {
    for i := 0 to |lines|
      invariant forall j :: 0 <= j < i ==> !Carries(YAML, lines[j], key)
    {
      var m := Match(lines[i]);
      if m.Some? && m.value.key == key {
        FindKeyIs(YAML, lines, key, i);
        return CountsAsSet(m.value.tail.val);
      }
    }
    FindKeyIs(YAML, lines, key, |lines|);
    return false;
  }

  /** One turn of the value loop: keep what is set, patch the rest. */
  method MigrateOne(content: seq<string>, s: Setting, force: bool) returns (lines: seq<string>, kept: bool)
    ensures lines == Apply(YAML, content, s, force)
    ensures kept <==> IsSet(YAML, content, s.key) && !force
  {
    lines := content;
    kept := YamlValueIsSet(content, s.key);
    if kept && !force {
      return;
    }
    kept := false;
    lines := YamlPatch(content, s.key, s.value);
  }

  /** The value loop of `migrate`, with its report of what was kept. */
  method RunMigration(content: seq<string>, settings: seq<Setting>, force: bool)
    returns (lines: seq<string>, skipped: seq<Setting>)
    ensures lines == Migrate(YAML, content, settings, force)
    ensures skipped == Skipped(YAML, content, settings, |settings|, force)
  {
    lines, skipped := content, [];
    for i := 0 to |settings|
      invariant lines == After(YAML, content, settings, i, force)
      invariant skipped == Skipped(YAML, content, settings, i, force)
    {
      var kept;
      lines, kept := MigrateOne(lines, settings[i], force);
      if kept {
        skipped := skipped + [settings[i]];
      }
    }
  }

  // ---------------------------------------------------------------- the lines written

  lemma ColonSplit(indent: string, key: string, value: string, c: string)
    ensures indent + key + ": " + value + c == indent + key + ":" + (" " + value + c)
    ensures indent + key + ": " + value == indent + key + ":" + (" " + value)
  {
  }

  lemma NewLineMatches(header: string, s: Setting)
    requires IsKey(s.key)
    ensures Match(NewLine(header, s))
            == Some(KeyLine(Spaces(SkipSpace(header, 0) + 4), s.key, SplitTail(" " + s.value)))
  {
    var indent := Spaces(SkipSpace(header, 0) + 4);
    SpacesAreIndent(SkipSpace(header, 0) + 4, indent);
    PlainLineMatches(indent, s, NewLine(header, s));
  }

  lemma SpacesAreIndent(n: nat, indent: string)
    requires n > 0 && indent == Spaces(n)
    ensures IsIndent(indent)
  {
  }

  lemma PlainLineMatches(indent: string, s: Setting, line: string)
    requires IsIndent(indent) && IsKey(s.key) && line == indent + s.key + ": " + s.value
    ensures Match(line) == Some(KeyLine(indent, s.key, SplitTail(" " + s.value)))
  {
    ColonSplit(indent, s.key, s.value, "");
    MatchInverts(indent, s.key, " " + s.value, line);
  }

  lemma KeyBeforeColon(key: string, s: string)
    requires IsKey(key) && |key| < |s| && s[..|key|] == key && s[|key|] == ':' && s == HEADER
    ensures key == SECTION
  {
    assert |HEADER| == 16 && HEADER[15] == ':' && HEADER[..15] == SECTION;
    assert forall k :: 0 <= k < 15 ==> HEADER[k] != ':';
  }

  /** The lines the script writes never read as the section header. */
  lemma WrittenIsNoHeader(line: string, indent: string, key: string, rest: string)
    requires IsIndent(indent) && IsKey(key) && key != SECTION
    requires line == indent + key + ":" + rest
    ensures !IsHeader(line)
  {
    var n, m := |indent|, |indent| + |key|;
    assert forall k :: 0 <= k < n ==> line[k] == indent[k];
    assert line[n] == key[0] && IsWordChar(key[0]);
    assert line[n..m] == key && line[m] == ':';
    SkipSpaceIs(line, n);
    var e := DropSpace(line, |line|);
    DropSpaceStops(line, |line|);
    assert e <= m ==> IsSpace(line[m]);
    assert line[n..e][..|key|] == line[n..m];
    if IsHeader(line) {
      KeyBeforeColon(key, line[n..e]);
    }
  }

  /** A section header carries no other key than the section's. */
  lemma HeaderHasNoOtherKey(line: string, key: string)
    requires HasKey(line, key) && key != SECTION
    ensures !IsHeader(line)
  {
    MatchedParts(line);
    var rest := MatchedWhole(line);
    WrittenIsNoHeader(line, Match(line).value.indent, key, rest);
  }

  /** YAML lines are such as `LinePatch` asks for. */
  lemma YamlWritesKey(s: Setting)
    requires IsKey(s.key)
    ensures WritesKey(YAML, s)
  {
    forall line | Carries(YAML, line, s.key) ensures Carries(YAML, YAML.rewritten(line, s), s.key) {
      RewrittenMatches(line, s.key, s.value);
    }
    forall header ensures Carries(YAML, YAML.newLine(header, s), s.key) {
      NewLineMatches(header, s);
    }
  }

  lemma YamlIsLawful(s: Setting)
    requires IsKey(s.key) && s.key != SECTION
    ensures Lawful(YAML, s)
  {
    YamlWritesKey(s);
    forall line | Carries(YAML, line, s.key) ensures !YAML.isHeader(line) {
      HeaderHasNoOtherKey(line, s.key);
    }
  }

  /** The values one migration can leave for good: they read as set, or are written back exactly as they were. */
  predicate StableValue(value: string) {
    ReadsAsSet(value) || Solid(value)
  }

  lemma SolidIsWrittenBack(line: string, s: Setting)
    requires HasKey(line, s.key) && Solid(s.value)
    ensures Overwritten(Overwritten(line, s), s) == Overwritten(line, s)
  {
    RewrittenReadsBack(line, s.key, s.value);
  }

  lemma RewrittenIsSettled(line: string, s: Setting)
    requires HasKey(line, s.key) && StableValue(s.value)
    ensures SettledLine(YAML, Overwritten(line, s), s)
  {
    if Solid(s.value) {
      SolidIsWrittenBack(line, s);
    } else {
      RewrittenMatches(line, s.key, s.value);
      MatchedParts(line);
      WrittenValueReads(s.value, Match(line).value.tail.comment);
    }
  }

  lemma RewrittenSame(line: string, key: string, value: string, indent: string, val: string)
    requires Match(line) == Some(KeyLine(indent, key, Tail(val, None))) && line == indent + key + ": " + value
    ensures Rewritten(line, key, value) == line
  {
    assert line + "" == line;
  }

  lemma SolidNewLine(header: string, s: Setting)
    requires IsKey(s.key) && Solid(s.value)
    ensures ReadsNew(NewLine(header, s), header, s) && Overwritten(NewLine(header, s), s) == NewLine(header, s)
  {
    NewLineMatches(header, s);
    SolidAlone(s.value, " " + s.value);
    RewrittenSame(NewLine(header, s), s.key, s.value, Spaces(SkipSpace(header, 0) + 4), TrimLeft(s.value));
  }

  lemma NewLineIsSettled(header: string, s: Setting)
    requires IsKey(s.key) && StableValue(s.value)
    ensures SettledLine(YAML, NewLine(header, s), s)
  {
    if Solid(s.value) {
      SolidNewLine(header, s);
    } else {
      NewLineMatches(header, s);
      assert " " + s.value + "" == " " + s.value;
      WrittenValueReads(s.value, None);
    }
  }

  lemma StableValueIsStable(s: Setting)
    requires IsKey(s.key) && StableValue(s.value)
    ensures Stable(YAML, s)
  {
    forall line | Carries(YAML, line, s.key) ensures SettledLine(YAML, YAML.rewritten(line, s), s) {
      RewrittenIsSettled(line, s);
    }
    forall header ensures SettledLine(YAML, YAML.newLine(header, s), s) {
      NewLineIsSettled(header, s);
    }
  }

  // ---------------------------------------------------------------- whole migrations

  /** The keys of a migration, as in the script's table: well formed, not the section's name, all different. */
  ghost predicate GoodKeys(settings: seq<Setting>) {
    && (forall k :: 0 <= k < |settings| ==> IsKey(settings[k].key) && settings[k].key != SECTION)
    && DifferentKeys(settings)
  }

  lemma GoodKeysAreLawful(settings: seq<Setting>)
    requires GoodKeys(settings)
    ensures AllLawful(YAML, settings)
  {
    forall k | 0 <= k < |settings| ensures Lawful(YAML, settings[k]) {
      YamlIsLawful(settings[k]);
    }
  }

  /** Migrating a second time changes nothing. */
  lemma MigratingTwiceIsOnce(lines: seq<string>, settings: seq<Setting>)
    requires GoodKeys(settings)
    requires forall k :: 0 <= k < |settings| ==> StableValue(settings[k].value)
    ensures var once := Migrate(YAML, lines, settings, false);
            Migrate(YAML, once, settings, false) == once
  {
    GoodKeysAreLawful(settings);
    forall k | 0 <= k < |settings| ensures Stable(YAML, settings[k]) {
      StableValueIsStable(settings[k]);
    }
    TwiceIsOnce(YAML, lines, settings);
  }

  /** Lines of keys that are not migrated, and lines without a key, are all there afterwards, unchanged and in order. */
  lemma OtherLinesStay(lines: seq<string>, settings: seq<Setting>, keys: set<string>, force: bool)
    requires forall k :: 0 <= k < |settings| ==> IsKey(settings[k].key) && settings[k].key in keys
    ensures Foreign(YAML, keys, Migrate(YAML, lines, settings, force)) == Foreign(YAML, keys, lines)
  {
    forall k | 0 <= k < |settings| ensures WritesKey(YAML, settings[k]) {
      YamlWritesKey(settings[k]);
    }
    ForeignLinesStay(YAML, keys, lines, settings, |settings|, force);
  }

  /** The migration reports as kept exactly the settings whose key was set before, and with force none. */
  lemma KeptIsReported(lines: seq<string>, settings: seq<Setting>, force: bool)
    requires GoodKeys(settings)
    ensures Skipped(YAML, lines, settings, |settings|, force)
            == if force then [] else SetOnes(YAML, lines, settings, |settings|)
  {
    GoodKeysAreLawful(settings);
    SkippedExactly(YAML, lines, settings, |settings|, force);
  }

  /** A key the operator has set keeps its line, whatever is migrated. */
  lemma SetKeysKeepTheirLine(lines: seq<string>, settings: seq<Setting>, key: string)
    requires IsSet(YAML, lines, key)
    requires forall k :: 0 <= k < |settings| ==> IsKey(settings[k].key)
    ensures LineOf(YAML, Migrate(YAML, lines, settings, false), key) == LineOf(YAML, lines, key)
  {
    forall k | 0 <= k < |settings| ensures WritesKey(YAML, settings[k]) {
      YamlWritesKey(settings[k]);
    }
    SetKeyKeepsItsLine(YAML, lines, settings, |settings|, key);
  }

  /** `now` carries the setting's value, with the indent and the comment that `was` had. */
  predicate ReadsBack(now: string, was: string, s: Setting) {
    && Match(was).Some?
    && var m := Match(was).value;
       Match(now) == Some(KeyLine(m.indent, s.key, Tail(TrimLeft(s.value), m.tail.comment)))
  }

  /** `now` carries the setting's value, four columns further in than `header` and with no comment. */
  predicate ReadsNew(now: string, header: string, s: Setting) {
    Match(now) == Some(KeyLine(Spaces(SkipSpace(header, 0) + 4), s.key, Tail(TrimLeft(s.value), None)))
  }

  /** The line an unset key ends up with. */
  ghost predicate Migrated(now: Option<string>, was: Option<string>, header: Option<string>, s: Setting) {
    if was.Some? then now.Some? && ReadsBack(now.value, was.value, s)
    else if header.Some? then now.Some? && ReadsNew(now.value, header.value, s)
    else now.None?
  }

  lemma WrittenIsMigrated(was: Option<string>, header: Option<string>, s: Setting)
    requires IsKey(s.key) && Solid(s.value) && (was.Some? ==> HasKey(was.value, s.key))
    ensures Migrated(PatchedTo(YAML, was, header, s), was, header, s)
  {
    if was.Some? {
      RewrittenReadsBack(was.value, s.key, s.value);
    } else if header.Some? {
      SolidNewLine(header.value, s);
    }
  }

  /**
   After a whole migration an unset key, and with force any key, reads its new value: with its old indent
   and comment where it had a line, else four columns further in than the first section header; without a
   section it has none.
   */
  lemma PatchedKeysReadBack(lines: seq<string>, settings: seq<Setting>, k: nat, force: bool)
    requires GoodKeys(settings) && k < |settings| && Solid(settings[k].value)
    requires force || !IsSet(YAML, lines, settings[k].key)
    ensures var s := settings[k];
            Migrated(LineOf(YAML, Migrate(YAML, lines, settings, force), s.key), LineOf(YAML, lines, s.key),
                     HeaderLine(YAML, lines), s)
  {
    GoodKeysAreLawful(settings);
    KeysGetTheirLine(YAML, lines, settings, k, force);
    WrittenIsMigrated(LineOf(YAML, lines, settings[k].key), HeaderLine(YAML, lines), settings[k]);
  }

  // ---------------------------------------------------------------- exactly which values are stable

  /** A comment one blank away from what precedes it. */
  predicate IsSpacedComment(c: string) {
    |c| > 1 && c[0] == ' ' && c[1] == '#'
  }

  /** A '#' inside the value starts the comment early. */
  lemma HashMovesTheComment(value: string, c: string, rest: string, k: nat)
    requires rest == " " + value + c && k < |value| && value[k] == '#'
    ensures SplitTail(rest).comment.Some? && |SplitTail(rest).comment.value| > |c|
  {
    HashAfterBlanks(rest);
    assert rest[1 + k] == '#';
    HashFromStops(rest, 0);
    assert HashFrom(rest, 0) <= 1 + k;
  }

  /** An empty value, or blanks at its end, change how many blanks the comment takes with it. */
  lemma BlankMovesTheComment(value: string, c: string, rest: string)
    requires IsSpacedComment(c) && rest == " " + value + c && forall k :: 0 <= k < |value| ==> value[k] != '#'
    requires value == "" || IsSpace(value[|value| - 1])
    ensures SplitTail(rest).comment.Some? && |SplitTail(rest).comment.value| != |c|
  {
    var n := 1 + |value|;
    assert forall k :: 1 <= k < n ==> rest[k] == value[k - 1];
    assert rest[n] == ' ' && rest[n + 1] == '#';
    HashAfterBlanks(rest);
    HashFromIs(rest, 0, n + 1);
    var head := rest[..n + 1];
    DropSpaceStops(head, n + 1);
    SkipSpaceStops(rest, 0);
    assert IsSpace(head[n]) && IsSpace(head[n - 1]);
    assert |rest| == n + |c|;
  }

  /** A value that is not solid does not leave the comment behind it as it was. */
  lemma UnsolidMovesTheComment(value: string, c: string)
    requires !Solid(value) && IsSpacedComment(c)
    ensures var now := SplitTail(" " + value + c).comment;
            now.Some? && now != Some(c)
  {
    var rest := " " + value + c;
    if k :| 0 <= k < |value| && value[k] == '#' {
      HashMovesTheComment(value, c, rest, k);
    } else {
      BlankMovesTheComment(value, c, rest);
    }
  }

  lemma ZeroCountsAsUnset(value: string)
    requires value == "0"
    ensures Solid(value) && TrimLeft(value) == value && !CountsAsSet(value)
  {
    assert SkipSpace(value, 0) == 0 && value[0..] == value;
    StripIs(value, 0, 1);
    assert value[0..1] == value;
  }

  lemma SolidWithComment(value: string, c: string, rest: string)
    requires Solid(value) && TrimLeft(value) == value && IsSpacedComment(c) && rest == " " + value + c
    ensures SplitTail(rest) == Tail(value, Some(c))
  {
    assert IsCommentAt(c, 1);
    SolidBeforeComment(value, c, 1, rest);
  }

  /** A line with the given pieces. */
  lemma LineWith(indent: string, key: string, rest: string, tail: Tail) returns (line: string)
    requires IsIndent(indent) && IsKey(key) && SplitTail(rest) == tail
    ensures Match(line) == Some(KeyLine(indent, key, tail))
  {
    line := indent + key + ":" + rest;
    MatchInverts(indent, key, rest, line);
  }

  lemma UnstableBefore(was: string, s: Setting, c: string, m: KeyLine)
    requires Match(was) == Some(m) && m.key == s.key && m.tail.comment == Some(c) && IsSpacedComment(c)
    requires !StableValue(s.value)
    ensures HasKey(Overwritten(was, s), s.key) && !SettledLine(YAML, Overwritten(was, s), s)
  {
    RewrittenMatches(was, s.key, s.value);
    assert IsCommentAt(c, 1);
    WrittenValueReads(s.value, Some(c));
    UnsolidMovesTheComment(s.value, c);
    var line := Overwritten(was, s);
    LineMoves(line, s, m, Match(line).value);
  }

  /** For every unstable value there is a one-line file that a second application changes again. */
  lemma UnstableWitness(s: Setting) returns (lines: seq<string>)
    requires IsKey(s.key) && !StableValue(s.value)
    ensures Apply(YAML, Apply(YAML, lines, s, false), s, false) != Apply(YAML, lines, s, false)
  {
    var value, c := "0", " # c";
    ZeroCountsAsUnset(value);
    SolidWithComment(value, c, " " + value + c);
    var line := LineWith("  ", s.key, " " + value + c, Tail(value, Some(c)));
    lines := [line];
    UnstableBefore(line, s, c, Match(line).value);
    UnsettledAlone(line, s);
  }

  lemma UnsettledAlone(line: string, s: Setting)
    requires IsKey(s.key) && HasKey(line, s.key) && !LineIsSet(line) && !SettledLine(YAML, Overwritten(line, s), s)
    ensures Apply(YAML, Apply(YAML, [line], s, false), s, false) != Apply(YAML, [line], s, false)
  {
    FindKeyIs(YAML, [line], s.key, 0);
    YamlWritesKey(s);
    PatchedLine(YAML, [line], s);
    SettledExactly(YAML, Apply(YAML, [line], s, false), s);
  }

  lemma LineMoves(line: string, s: Setting, was: KeyLine, now: KeyLine)
    requires line == WithValue(was, s.value) && Match(line) == Some(now)
    requires was.indent == now.indent && was.key == now.key == s.key
    requires was.tail.comment.Some? && now.tail.comment != was.tail.comment && now.tail.comment.Some?
    ensures Rewritten(line, s.key, s.value) != line
  {
    SameEnding(now.indent + s.key + ": " + s.value, now.tail.comment.value, was.tail.comment.value);
  }

  lemma SameEnding(head: string, a: string, b: string)
    ensures head + a == head + b <==> a == b
  {
    assert (head + a)[|head|..] == a && (head + b)[|head|..] == b;
  }

  /**
   Over all files, applying a setting twice equals applying it once exactly for the stable values: those
   that read as set, and those that are non-empty, end in no blank and hold no '#'.
   */
  lemma IdempotentExactlyWhenStable(s: Setting)
    requires IsKey(s.key)
    ensures (forall lines :: Apply(YAML, Apply(YAML, lines, s, false), s, false) == Apply(YAML, lines, s, false))
            <==> StableValue(s.value)
  {
    if StableValue(s.value) {
      YamlWritesKey(s);
      StableValueIsStable(s);
      forall lines ensures Apply(YAML, Apply(YAML, lines, s, false), s, false) == Apply(YAML, lines, s, false) {
        AppliedIsSettled(YAML, lines, s);
        SettledExactly(YAML, Apply(YAML, lines, s, false), s);
      }
    } else {
      var lines := UnstableWitness(s);
    }
  }

  // ---------------------------------------------------------------- what the file looks like

  /** A line added: blanks, key, colon, one blank, value. */
  lemma NewLineLooks(header: string, s: Setting)
    ensures var n, line := SkipSpace(header, 0) + 4, NewLine(header, s);
            && (forall k :: 0 <= k < n ==> line[k] == ' ') && line[n..] == s.key + ": " + s.value
  {
  }

  lemma SectionLine(header: string, s: Setting)
    requires header == "  ros__parameters:" && IsKey(s.key) && s.key != "ros__parameters"
    ensures IsHeader(header) && SkipSpace(header, 0) == 2 && !HasKey(header, s.key)
  {
    SkipSpaceIs(header, 2);
    StripIs(header, 2, |header|);
    assert header[2..|header|] == HEADER;
    if HasKey(header, s.key) {
      HeaderHasNoOtherKey(header, s.key);
    }
  }

  /** A file that holds only the section gets the key in its second line, whether or not it is forced. */
  lemma SectionAlone(s: Setting, force: bool)
    requires IsKey(s.key) && s.key != "ros__parameters"
    ensures Apply(YAML, ["  ros__parameters:"], s, force) == ["  ros__parameters:", "      " + s.key + ": " + s.value]
  {
    var header := "  ros__parameters:";
    SectionLine(header, s);
    FindKeyIs(YAML, [header], s.key, 1);
    FindHeaderIs(YAML, [header], 0);
    var line, want := NewLine(header, s), "      " + s.key + ": " + s.value;
    NewLineLooks(header, s);
    assert Spaces(6) == "      ";
    assert Inserted([header], 0, line) == [header, line];
  }
}
