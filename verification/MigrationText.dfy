/** The migration on file contents: lines ended by newlines. */
module MigrationText {
  import opened Strings
  import opened YamlLine
  import opened LinePatch
  import opened Migration

  predicate NewlineFree(s: string) {
    forall k :: 0 <= k < |s| ==> s[k] != '\n'
  }

  ghost predicate AllNewlineFree(lines: seq<string>) {
    forall k :: 0 <= k < |lines| ==> NewlineFree(lines[k])
  }

  predicate Terminated(text: string) {
    text == "" || text[|text| - 1] == '\n'
  }

  function NewlineFrom(s: string, i: nat): (r: nat)
    requires i <= |s|
    ensures i <= r <= |s| && (r < |s| ==> s[r] == '\n')
    ensures forall k :: i <= k < r ==> s[k] != '\n'
    decreases |s| - i
  {
    if i < |s| && s[i] != '\n' then NewlineFrom(s, i + 1) else i
  }

  function LinesOf(text: string): seq<string>
    decreases |text|
  {
    if text == "" then []
    else
      var i := NewlineFrom(text, 0);
      if i == |text| then [text] else [text[..i]] + LinesOf(text[i + 1..])
  }

  function TextOf(lines: seq<string>): string {
    if lines == [] then "" else lines[0] + "\n" + TextOf(lines[1..])
  }

  lemma NewlineFromIs(s: string, r: nat)
    requires r <= |s| && (r < |s| ==> s[r] == '\n') && forall k :: 0 <= k < r ==> s[k] != '\n'
    ensures NewlineFrom(s, 0) == r
  {
    var k := NewlineFrom(s, 0);
    assert k < |s| ==> s[k] == '\n';
    assert r < |s| ==> s[r] == '\n';
  }

  lemma FirstLine(line: string, rest: string)
    requires NewlineFree(line)
    ensures NewlineFrom(line + "\n" + rest, 0) == |line|
  {
    var text := line + "\n" + rest;
    assert forall k :: 0 <= k < |line| ==> text[k] == line[k];
    NewlineFromIs(text, |line|);
  }

  lemma {:induction false} LinesOfText(lines: seq<string>)
    requires AllNewlineFree(lines)
    ensures LinesOf(TextOf(lines)) == lines && Terminated(TextOf(lines))
  {
    if lines != [] {
      LinesOfText(lines[1..]);
      TextSplits(lines[0], TextOf(lines[1..]));
    }
  }

  lemma TextSplits(line: string, rest: string)
    requires NewlineFree(line) && Terminated(rest)
    ensures LinesOf(line + "\n" + rest) == [line] + LinesOf(rest) && Terminated(line + "\n" + rest)
  {
    var text := line + "\n" + rest;
    FirstLine(line, rest);
    assert text[..|line|] == line && text[|line| + 1..] == rest;
    assert rest != "" ==> text[|text| - 1] == rest[|rest| - 1];
  }

  lemma FirstLineOf(text: string, i: nat)
    requires text != "" && Terminated(text) && i == NewlineFrom(text, 0)
    ensures i < |text| && NewlineFree(text[..i]) && Terminated(text[i + 1..])
  {
    var rest := text[i + 1..];
    assert rest != "" ==> rest[|rest| - 1] == text[|text| - 1];
  }

  lemma FirstAndOtherLines(text: string, i: nat, rest: string)
    requires i == NewlineFrom(text, 0) < |text| && rest == text[i + 1..]
    ensures LinesOf(text) == [text[..i]] + LinesOf(rest)
  {
  }

  lemma CutAtNewline(text: string, i: nat)
    requires i < |text| && text[i] == '\n'
    ensures text == text[..i] + "\n" + text[i + 1..]
  {
  }

  lemma LineInFront(line: string, lines: seq<string>)
    requires NewlineFree(line) && AllNewlineFree(lines)
    ensures TextOf([line] + lines) == line + "\n" + TextOf(lines) && AllNewlineFree([line] + lines)
  {
    var all := [line] + lines;
    assert all[1..] == lines;
    forall k | 0 <= k < |all| ensures NewlineFree(all[k]) {
      assert k > 0 ==> all[k] == lines[k - 1];
    }
  }

  lemma {:induction false} TextOfLines(text: string)
    requires Terminated(text)
    ensures TextOf(LinesOf(text)) == text && AllNewlineFree(LinesOf(text))
    decreases |text|
  {
    if text != "" {
      var i := NewlineFrom(text, 0);
      FirstLineOf(text, i);
      FirstAndOtherLines(text, i, text[i + 1..]);
      CutAtNewline(text, i);
      TextOfLines(text[i + 1..]);
      LineInFront(text[..i], LinesOf(text[i + 1..]));
    }
  }

  function MigrateText(text: string, settings: seq<Setting>): string {
    TextOf(Migrate(YAML, LinesOf(text), settings, false))
  }

  lemma JoinedIsNewlineFree(indent: string, key: string, value: string, c: string)
    requires IsIndent(indent) && IsKey(key) && NewlineFree(value) && NewlineFree(c)
    ensures NewlineFree(indent + key + ": " + value + c)
  {
    assert forall k :: 0 <= k < |indent| ==> IsIndentChar(indent[k]);
    assert forall k :: 0 <= k < |key| ==> IsWordChar(key[k]);
    assert NewlineFree(indent) && NewlineFree(key);
  }

  lemma PiecesAreNewlineFree(line: string, key: string, value: string)
    requires NewlineFree(line) && HasKey(line, key) && NewlineFree(value)
    ensures NewlineFree(Rewritten(line, key, value))
  {
    var m := Match(line).value;
    MatchedParts(line);
    CommentIsNewlineFree(line[WordEnd(line, IndentEnd(line, 0)) + 1..]);
    JoinedIsNewlineFree(m.indent, key, value, CommentText(m.tail.comment));
  }

  lemma CommentIsNewlineFree(rest: string)
    requires NewlineFree(rest)
    ensures NewlineFree(CommentText(SplitTail(rest).comment))
  {
    var c := CommentText(SplitTail(rest).comment);
    var d := |rest| - |c|;
    assert c != "" ==> c == rest[d..];
  }

  lemma NewLineIsNewlineFree(header: string, s: Setting)
    requires IsKey(s.key) && NewlineFree(s.value)
    ensures NewlineFree(NewLine(header, s))
  {
    var line, n := NewLine(header, s), SkipSpace(header, 0) + 4;
    forall k | 0 <= k < |line| ensures line[k] != '\n' {
      assert n <= k < n + |s.key| ==> line[k] == s.key[k - n] && IsWordChar(s.key[k - n]);
    }
  }

  lemma WritesNewlineFree(s: Setting)
    requires IsKey(s.key) && NewlineFree(s.value)
    ensures Writes(YAML, NewlineFree, s)
  {
    forall line | NewlineFree(line)
      ensures Carries(YAML, line, s.key) ==> NewlineFree(YAML.rewritten(line, s))
      ensures NewlineFree(YAML.newLine(line, s))
    {
      NewLineIsNewlineFree(line, s);
      if HasKey(line, s.key) {
        PiecesAreNewlineFree(line, s.key, s.value);
      }
    }
  }

  lemma StaysNewlineFree(lines: seq<string>, settings: seq<Setting>)
    requires AllNewlineFree(lines)
    requires forall k :: 0 <= k < |settings| ==> IsKey(settings[k].key) && NewlineFree(settings[k].value)
    ensures AllNewlineFree(Migrate(YAML, lines, settings, false))
  {
    forall k | 0 <= k < |settings| ensures Writes(YAML, NewlineFree, settings[k]) {
      WritesNewlineFree(settings[k]);
    }
    MigrationKeeps(YAML, NewlineFree, lines, settings, |settings|);
  }

  /**
   Running the migration on a newline-terminated file twice writes the same file as running it once,
   and leaves it newline-terminated.
   */
  lemma MigratingTheFileTwiceIsOnce(text: string, settings: seq<Setting>)
    requires Terminated(text) && GoodKeys(settings)
    requires forall k :: 0 <= k < |settings| ==> StableValue(settings[k].value) && NewlineFree(settings[k].value)
    ensures var once := MigrateText(text, settings);
            MigrateText(once, settings) == once && Terminated(once)
  {
    TextOfLines(text);
    var lines := LinesOf(text);
    StaysNewlineFree(lines, settings);
    LinesOfText(Migrate(YAML, lines, settings, false));
    MigratingTwiceIsOnce(lines, settings);
  }
}
