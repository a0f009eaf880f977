/**
 The line pattern YAML_KEY_RE of install/scripts/migrate_openmower.py: indent, key, colon, value,
 optional comment. A line here is the text before its newline.
 */
module YamlLine {
  import opened Basics
  import opened Strings

  /** The value part after the colon, and the comment together with the blanks before it. */
  datatype Tail = Tail(val: string, comment: Option<string>)

  datatype KeyLine = KeyLine(indent: string, key: string, tail: Tail)

  predicate IsIndentChar(c: char) {
    c == ' ' || c == '\t'
  }

  predicate IsWordChar(c: char) {
    'A' <= c <= 'Z' || 'a' <= c <= 'z' || '0' <= c <= '9' || c == '_'
  }

  predicate IsKey(key: string) {
    key != "" && !('0' <= key[0] <= '9') && forall k :: 0 <= k < |key| ==> IsWordChar(key[k])
  }

  /** The end of the run of indent characters, or of word characters, that starts at `i`. */
  function IndentEnd(s: string, i: nat): (r: nat)
    requires i <= |s|
    ensures i <= r <= |s|
    decreases |s| - i
  {
    if i < |s| && IsIndentChar(s[i]) then IndentEnd(s, i + 1) else i
  }

  function WordEnd(s: string, i: nat): (r: nat)
    requires i <= |s|
    ensures i <= r <= |s|
    decreases |s| - i
  {
    if i < |s| && IsWordChar(s[i]) then WordEnd(s, i + 1) else i
  }

  /** The first '#' from `i` on, or the end. */
  function HashFrom(s: string, i: nat): (h: nat)
    requires i <= |s|
    ensures i <= h <= |s|
    decreases |s| - i
  {
    if i < |s| && s[i] != '#' then HashFrom(s, i + 1) else i
  }

  /** Leading blanks go; the value is as short as it can be before a comment, which takes the blanks with it. */
  function SplitTail(rest: string): Tail {
    var i := SkipSpace(rest, 0);
    var h := HashFrom(rest, i);
    if h == |rest| then Tail(rest[i..], None)
    else
      var e := DropSpace(rest[..h], h);
      if e <= i then Tail("", Some(rest[i..])) else Tail(rest[i..e], Some(rest[e..]))
  }

  function Match(line: string): Option<KeyLine> {
    var n := IndentEnd(line, 0);
    var m := WordEnd(line, n);
    if n > 0 && m > n && !('0' <= line[n] <= '9') && m < |line| && line[m] == ':' then
      Some(KeyLine(line[..n], line[n..m], SplitTail(line[m + 1..])))
    else None
  }

  predicate HasKey(line: string, key: string) {
    Match(line).Some? && Match(line).value.key == key
  }

  function CommentText(c: Option<string>): string {
    if c.Some? then c.value else ""
  }

  function WithValue(m: KeyLine, value: string): string {
    m.indent + m.key + ": " + value + CommentText(m.tail.comment)
  }

  /** The line `yaml_patch` writes over a matching one. */
  function Rewritten(line: string, key: string, value: string): string
    requires HasKey(line, key)
  {
    WithValue(Match(line).value, value)
  }

  function Unquoted(s: string, q: char): (t: string)
    ensures |t| <= |s|
    decreases |s|
  {
    if s != "" && s[0] == q then Unquoted(s[1..], q)
    else if s != "" && s[|s| - 1] == q then Unquoted(s[..|s| - 1], q)
    else s
  }

  /** The test of `yaml_value_is_set` on a value. */
  predicate CountsAsSet(val: string) {
    Unquoted(Unquoted(Strip(val), '"'), '\'') !in ["", "0", "0.0", "0.000000", "false", "False"]
  }

  // ---------------------------------------------------------------- positions

  lemma {:induction false} IndentEndStops(s: string, i: nat)
    requires i <= |s|
    ensures var r := IndentEnd(s, i);
            (r < |s| ==> !IsIndentChar(s[r])) && forall k :: i <= k < r ==> IsIndentChar(s[k])
    decreases |s| - i
  {
    if i < |s| && IsIndentChar(s[i]) {
      IndentEndStops(s, i + 1);
    }
  }

  lemma {:induction false} WordEndStops(s: string, i: nat)
    requires i <= |s|
    ensures var r := WordEnd(s, i);
            (r < |s| ==> !IsWordChar(s[r])) && forall k :: i <= k < r ==> IsWordChar(s[k])
    decreases |s| - i
  {
    if i < |s| && IsWordChar(s[i]) {
      WordEndStops(s, i + 1);
    }
  }

  lemma {:induction false} HashFromStops(s: string, i: nat)
    requires i <= |s|
    ensures var h := HashFrom(s, i);
            (h < |s| ==> s[h] == '#') && forall k :: i <= k < h ==> s[k] != '#'
    decreases |s| - i
  {
    if i < |s| && s[i] != '#' {
      HashFromStops(s, i + 1);
    }
  }

  lemma HashFromIs(s: string, i: nat, h: nat)
    requires i <= h <= |s| && (h < |s| ==> s[h] == '#') && forall k :: i <= k < h ==> s[k] != '#'
    ensures HashFrom(s, i) == h
  {
    HashFromStops(s, i);
    var k := HashFrom(s, i);
    assert k < |s| ==> s[k] == '#';
    assert h < |s| ==> s[h] == '#';
  }

  lemma IndentEndIs(s: string, n: nat)
    requires n <= |s| && (n < |s| ==> !IsIndentChar(s[n])) && forall k :: 0 <= k < n ==> IsIndentChar(s[k])
    ensures IndentEnd(s, 0) == n
  {
    IndentEndStops(s, 0);
    var k := IndentEnd(s, 0);
    assert k < |s| ==> !IsIndentChar(s[k]);
    assert n < |s| ==> !IsIndentChar(s[n]);
  }

  lemma WordEndIs(s: string, i: nat, m: nat)
    requires i <= m <= |s| && (m < |s| ==> !IsWordChar(s[m])) && forall k :: i <= k < m ==> IsWordChar(s[k])
    ensures WordEnd(s, i) == m
  {
    WordEndStops(s, i);
    var k := WordEnd(s, i);
    assert k < |s| ==> !IsWordChar(s[k]);
    assert m < |s| ==> !IsWordChar(s[m]);
  }

  // ---------------------------------------------------------------- reading back what was written

  /** What a comment group can capture: blanks, then '#', then anything. */
  ghost predicate IsComment(c: Option<string>) {
    c.Some? ==> exists h :: IsCommentAt(c.value, h)
  }

  ghost predicate IsCommentAt(c: string, h: nat) {
    h < |c| && c[h] == '#' && forall k :: 0 <= k < h ==> IsSpace(c[k])
  }

  lemma TailHasComment(rest: string)
    ensures IsComment(SplitTail(rest).comment)
  {
    var i := SkipSpace(rest, 0);
    var h := HashFrom(rest, i);
    SkipSpaceStops(rest, 0);
    HashFromStops(rest, i);
    if h < |rest| {
      var head := rest[..h];
      var e := DropSpace(head, h);
      DropSpaceStops(head, h);
      var from := if e <= i then i else e;
      var c := rest[from..];
      forall k | 0 <= k < h - from ensures IsSpace(c[k]) {
        assert IsSpace(head[from + k]);
      }
      assert IsCommentAt(c, h - from);
    }
  }

  /** A value that ends in no blank and holds no '#' leaves the comment after it as it was. */
  predicate Solid(value: string) {
    && value != "" && !IsSpace(value[|value| - 1])
    && forall k :: 0 <= k < |value| ==> value[k] != '#'
  }

  lemma SolidStart(value: string, rest: string)
    requires Solid(value) && |rest| > |value| && rest[0] == ' ' && rest[1..1 + |value|] == value
    ensures SkipSpace(rest, 0) == 1 + SkipSpace(value, 0) <= |value|
  {
    var i := SkipSpace(value, 0);
    SkipSpaceStops(value, 0);
    forall k | 0 <= k < 1 + i ensures IsSpace(rest[k]) {
      assert k > 0 ==> rest[k] == value[k - 1];
    }
    assert rest[1 + i] == value[i];
    SkipSpaceIs(rest, 1 + i);
  }

  lemma SolidAlone(value: string, rest: string)
    requires Solid(value) && rest == " " + value
    ensures SplitTail(rest) == Tail(TrimLeft(value), None)
  {
    SolidStart(value, rest + "\n");
    var i := SkipSpace(value, 0);
    SkipSpaceStops(value, 0);
    assert forall k :: 1 <= k < |rest| ==> rest[k] == value[k - 1];
    assert forall k :: 0 <= k < 1 + i ==> IsSpace(rest[k]);
    SkipSpaceIs(rest, 1 + i);
    HashFromIs(rest, 1 + i, |rest|);
    assert rest[1 + i..] == value[i..];
  }

  lemma SolidBeforeComment(value: string, c: string, h: nat, rest: string)
    requires Solid(value) && IsCommentAt(c, h) && rest == " " + value + c
    ensures SplitTail(rest) == Tail(TrimLeft(value), Some(c))
  {
    var n, i := 1 + |value|, SkipSpace(value, 0);
    SolidStart(value, rest);
    SkipSpaceStops(value, 0);
    assert rest[1..n] == value && rest[n..] == c;
    forall k | 1 + i <= k < n + h ensures rest[k] != '#' {
      assert if k < n then rest[k] == value[k - 1] else rest[k] == c[k - n];
    }
    assert rest[n + h] == c[h];
    HashFromIs(rest, 1 + i, n + h);
    assert rest[n - 1] == value[|value| - 1];
    BlanksEndAt(rest, n, n + h, c);
    SplitTailIs(rest, 1 + i, n + h, n);
    assert rest[1 + i..n] == value[i..];
  }

  lemma BlanksEndAt(rest: string, n: nat, end: nat, c: string)
    requires 0 < n <= end <= |rest| && !IsSpace(rest[n - 1]) && rest[n..] == c
    requires forall k :: 0 <= k < end - n ==> IsSpace(c[k])
    ensures DropSpace(rest[..end], end) == n
  {
    assert forall k :: n <= k < end ==> rest[k] == c[k - n];
    DropSpaceIs(rest[..end], n);
  }

  lemma SplitTailIs(rest: string, i: nat, h: nat, e: nat)
    requires i == SkipSpace(rest, 0) < e && h == HashFrom(rest, i) < |rest| && e == DropSpace(rest[..h], h)
    ensures SplitTail(rest) == Tail(rest[i..e], Some(rest[e..]))
  {
  }

  lemma SolidTail(value: string, comment: Option<string>)
    requires Solid(value) && IsComment(comment)
    ensures SplitTail(" " + value + CommentText(comment)) == Tail(TrimLeft(value), comment)
  {
    if comment.None? {
      assert " " + value + "" == " " + value;
      SolidAlone(value, " " + value);
    } else {
      var h :| IsCommentAt(comment.value, h);
      SolidBeforeComment(value, comment.value, h, " " + value + comment.value);
    }
  }

  predicate IsIndent(s: string) {
    s != "" && forall k :: 0 <= k < |s| ==> IsIndentChar(s[k])
  }

  /** A line put together from an indent, a key and a tail is taken apart into the same pieces. */
  lemma MatchInverts(indent: string, key: string, rest: string, line: string)
    requires IsIndent(indent) && IsKey(key) && line == indent + key + ":" + rest
    ensures Match(line) == Some(KeyLine(indent, key, SplitTail(rest)))
  {
    var n, m := |indent|, |indent| + |key|;
    assert forall k :: 0 <= k < n ==> line[k] == indent[k];
    assert forall k :: n <= k < m ==> line[k] == key[k - n];
    assert line[m] == ':' && IsWordChar(key[0]) && line[n] == key[0];
    IndentEndIs(line, n);
    WordEndIs(line, n, m);
    assert line[..n] == indent && line[n..m] == key && line[m + 1..] == rest;
  }

  lemma IndentPart(line: string, n: nat)
    requires n == IndentEnd(line, 0) && n > 0
    ensures IsIndent(line[..n])
  {
    IndentEndStops(line, 0);
    assert forall k :: 0 <= k < n ==> line[..n][k] == line[k];
  }

  lemma KeyPart(line: string, n: nat, m: nat)
    requires n < |line| && m == WordEnd(line, n) && m > n && !('0' <= line[n] <= '9')
    ensures IsKey(line[n..m])
  {
    WordEndStops(line, n);
    assert forall k :: 0 <= k < m - n ==> line[n..m][k] == line[n + k];
  }

  ghost predicate WellFormed(k: KeyLine) {
    IsIndent(k.indent) && IsKey(k.key) && IsComment(k.tail.comment)
  }

  /** A matching line is its indent, its key, a colon and the rest. */
  lemma MatchedWhole(line: string) returns (rest: string)
    requires Match(line).Some?
    ensures line == Match(line).value.indent + Match(line).value.key + ":" + rest
  {
    var n := IndentEnd(line, 0);
    var m := WordEnd(line, n);
    rest := line[m + 1..];
    CutAtColon(line, n, m);
  }

  lemma CutAtColon(line: string, n: nat, m: nat)
    requires n <= m < |line| && line[m] == ':'
    ensures line == line[..n] + line[n..m] + ":" + line[m + 1..]
  {
  }

  lemma PartsAreWellFormed(line: string, n: nat, m: nat)
    requires n == IndentEnd(line, 0) && m == WordEnd(line, n)
    requires 0 < n < m < |line| && !('0' <= line[n] <= '9')
    ensures WellFormed(KeyLine(line[..n], line[n..m], SplitTail(line[m + 1..])))
  {
    IndentPart(line, n);
    KeyPart(line, n, m);
    TailHasComment(line[m + 1..]);
  }

  lemma MatchedParts(line: string)
    requires Match(line).Some?
    ensures WellFormed(Match(line).value)
  {
    var n := IndentEnd(line, 0);
    PartsAreWellFormed(line, n, WordEnd(line, n));
  }

  /** Whatever the value, a rewritten line has the same indent and key, and the value and old comment as its tail. */
  lemma RewrittenMatches(line: string, key: string, value: string)
    requires HasKey(line, key)
    ensures var m := Match(line).value;
            Match(Rewritten(line, key, value))
            == Some(KeyLine(m.indent, key, SplitTail(" " + value + CommentText(m.tail.comment))))
  {
    MatchedParts(line);
    WrittenMatches(Match(line).value, value);
  }

  lemma WrittenMatches(m: KeyLine, value: string)
    requires WellFormed(m)
    ensures Match(WithValue(m, value))
            == Some(KeyLine(m.indent, m.key, SplitTail(" " + value + CommentText(m.tail.comment))))
  {
    var rest := " " + value + CommentText(m.tail.comment);
    assert WithValue(m, value) == m.indent + m.key + ":" + rest;
    MatchInverts(m.indent, m.key, rest, WithValue(m, value));
  }

  /** A rewritten line reads back the new value and keeps indent and comment. */
  lemma RewrittenReadsBack(line: string, key: string, value: string)
    requires HasKey(line, key) && Solid(value)
    ensures var m := Match(line).value;
            Match(Rewritten(line, key, value)) == Some(KeyLine(m.indent, key, Tail(TrimLeft(value), m.tail.comment)))
  {
    RewrittenMatches(line, key, value);
    MatchedParts(line);
    SolidTail(value, Match(line).value.tail.comment);
  }

  // ---------------------------------------------------------------- whether a value reads back as set

  function BeforeHash(s: string): string {
    s[..HashFrom(s, 0)]
  }

  lemma HashAfterBlanks(rest: string)
    ensures HashFrom(rest, SkipSpace(rest, 0)) == HashFrom(rest, 0) >= SkipSpace(rest, 0)
  {
    var i, h := SkipSpace(rest, 0), HashFrom(rest, 0);
    SkipSpaceStops(rest, 0);
    HashFromStops(rest, 0);
    assert h < |rest| ==> !IsSpace(rest[h]);
    HashFromIs(rest, i, h);
  }

  lemma StripWithoutEnd(head: string, i: nat)
    requires i <= |head| && forall k :: 0 <= k < i ==> IsSpace(head[k])
    ensures var e := DropSpace(head, |head|);
            Strip(head) == if e <= i then "" else Strip(head[i..e])
  {
    var e := DropSpace(head, |head|);
    DropSpaceStops(head, |head|);
    if e <= i {
      assert forall k :: e <= k < |head| ==> IsSpace(head[k]);
      StripBlank(head);
    } else {
      StripPadded(head, i, e);
    }
  }

  /** Up to blanks, the value read from a tail is what stands before its first '#'. */
  lemma TailValue(rest: string)
    ensures Strip(SplitTail(rest).val) == Strip(BeforeHash(rest))
  {
    var i, h := SkipSpace(rest, 0), HashFrom(rest, 0);
    HashAfterBlanks(rest);
    SkipSpaceStops(rest, 0);
    if h == |rest| {
      assert rest[..h] == rest && rest[i..h] == rest[i..];
      StripPadded(rest, i, h);
    } else {
      CommentedTailValue(rest, i, h, rest[..h], DropSpace(rest[..h], h));
    }
  }

  lemma CommentedTailValue(rest: string, i: nat, h: nat, head: string, e: nat)
    requires i <= h <= |rest| && head == rest[..h] && e == DropSpace(head, h)
    requires forall k :: 0 <= k < i ==> IsSpace(rest[k])
    ensures Strip(if e <= i then "" else rest[i..e]) == Strip(head)
  {
    assert forall k :: 0 <= k < i ==> head[k] == rest[k];
    StripWithoutEnd(head, i);
    if e <= i {
      StripBlank("");
    } else {
      SliceInside(rest, 0, head, i, e);
    }
  }

  /** `value` counts as set once written, whatever comment follows it. */
  predicate ReadsAsSet(value: string) {
    CountsAsSet(BeforeHash(value))
  }

  lemma HashShifted(value: string, rest: string)
    requires HashFrom(value, 0) < |value| && |value| < |rest| && rest[0] == ' ' && rest[1..1 + |value|] == value
    ensures HashFrom(rest, 0) == 1 + HashFrom(value, 0)
  {
    var h := HashFrom(value, 0);
    HashFromStops(value, 0);
    assert forall k :: 1 <= k < 1 + |value| ==> rest[k] == value[k - 1];
    HashFromIs(rest, 0, 1 + h);
  }

  lemma HeadShifted(value: string, rest: string, h: nat)
    requires h < |value| < |rest| && rest[0] == ' ' && rest[1..1 + |value|] == value
    ensures var head := rest[..1 + h];
            head[0] == ' ' && head[1..] == value[..h]
  {
  }

  lemma HashInValue(value: string, rest: string)
    requires HashFrom(value, 0) < |value| && |value| < |rest| && rest[0] == ' ' && rest[1..1 + |value|] == value
    ensures Strip(BeforeHash(rest)) == Strip(BeforeHash(value))
  {
    HashShifted(value, rest);
    HeadShifted(value, rest, HashFrom(value, 0));
    DropFirstBlank(BeforeHash(rest), BeforeHash(value));
  }

  lemma DropFirstBlank(s: string, t: string)
    requires |s| == 1 + |t| && s[0] == ' ' && s[1..] == t
    ensures Strip(s) == Strip(t)
  {
    StripPadded(s, 1, |s|);
    assert s[1..|s|] == t;
  }

  lemma HashBehindValue(value: string, rest: string, end: nat)
    requires HashFrom(value, 0) == |value| && rest != "" && rest[0] == ' '
    requires 1 + |value| <= end <= |rest| && rest[1..1 + |value|] == value && (end < |rest| ==> rest[end] == '#')
    requires forall k :: 1 + |value| <= k < end ==> IsSpace(rest[k])
    ensures HashFrom(rest, 0) == end
  {
    HashFromStops(value, 0);
    forall k | 0 <= k < end ensures rest[k] != '#' {
      assert 1 <= k < 1 + |value| ==> rest[k] == value[k - 1];
    }
    HashFromIs(rest, 0, end);
  }

  lemma HashAfterValue(value: string, rest: string, end: nat)
    requires HashFrom(value, 0) == |value| && rest != "" && rest[0] == ' '
    requires 1 + |value| <= end <= |rest| && rest[1..1 + |value|] == value && (end < |rest| ==> rest[end] == '#')
    requires forall k :: 1 + |value| <= k < end ==> IsSpace(rest[k])
    ensures Strip(BeforeHash(rest)) == Strip(BeforeHash(value))
  {
    HashBehindValue(value, rest, end);
    assert rest[..end][1..1 + |value|] == value && value[..|value|] == value;
    DropOuterBlanks(rest[..end], value);
  }

  lemma DropOuterBlanks(s: string, value: string)
    requires 1 + |value| <= |s| && s[0] == ' ' && s[1..1 + |value|] == value
    requires forall k :: 1 + |value| <= k < |s| ==> IsSpace(s[k])
    ensures Strip(s) == Strip(value)
  {
    StripPadded(s, 1, 1 + |value|);
  }

  lemma WrittenValueReads(value: string, comment: Option<string>)
    requires IsComment(comment)
    ensures CountsAsSet(SplitTail(" " + value + CommentText(comment)).val) <==> ReadsAsSet(value)
  {
    var c := CommentText(comment);
    var rest, n := " " + value + c, 1 + |value|;
    assert rest[1..n] == value;
    if HashFrom(value, 0) < |value| {
      HashInValue(value, rest);
    } else if comment.None? {
      HashAfterValue(value, rest, n);
    } else {
      var g :| IsCommentAt(c, g);
      assert forall k :: n <= k < |rest| ==> rest[k] == c[k - n];
      HashAfterValue(value, rest, n + g);
    }
    SameVerdict(rest, value);
  }

  lemma SameVerdict(rest: string, value: string)
    requires Strip(BeforeHash(rest)) == Strip(BeforeHash(value))
    ensures CountsAsSet(SplitTail(rest).val) <==> ReadsAsSet(value)
  {
    TailValue(rest);
  }

  // ---------------------------------------------------------------- which lines match, and which values are unset

  predicate Letter(c: char) {
    'A' <= c <= 'Z' || 'a' <= c <= 'z' || c == '_'
  }

  /** `line` is indented by `n` blanks or tabs and has its colon, the first character after the key, at `m`. */
  predicate KeyAt(line: string, n: nat, m: nat) {
    && 0 < n < m < |line| && line[m] == ':' && Letter(line[n])
    && (forall k :: 0 <= k < n ==> line[k] == ' ' || line[k] == '\t')
    && (forall k :: n < k < m ==> Letter(line[k]) || '0' <= line[k] <= '9')
  }

  lemma KeyAtIs(line: string, n: nat, m: nat)
    requires KeyAt(line, n, m)
    ensures n == IndentEnd(line, 0) && m == WordEnd(line, n)
  {
    IndentEndIs(line, n);
    WordEndIs(line, n, m);
  }

  lemma MatchIsKeyAt(line: string, n: nat, m: nat)
    requires n == IndentEnd(line, 0) && m == WordEnd(line, n)
    ensures Match(line).Some? <==> KeyAt(line, n, m)
    ensures KeyAt(line, n, m) ==> Match(line) == Some(KeyLine(line[..n], line[n..m], SplitTail(line[m + 1..])))
  {
    IndentEndStops(line, 0);
    WordEndStops(line, n);
  }

  /** The pattern matches exactly the indented keys with a colon right behind them, and takes them apart there. */
  lemma MatchesExactly(line: string)
    ensures Match(line).Some? <==> exists n: nat, m: nat :: KeyAt(line, n, m)
    ensures forall n: nat, m: nat :: KeyAt(line, n, m) ==>
                                       Match(line) == Some(KeyLine(line[..n], line[n..m], SplitTail(line[m + 1..])))
  {
    var n := IndentEnd(line, 0);
    MatchIsKeyAt(line, n, WordEnd(line, n));
    forall i: nat, j: nat | KeyAt(line, i, j)
      ensures Match(line) == Some(KeyLine(line[..i], line[i..j], SplitTail(line[j + 1..])))
    {
      KeyAtIs(line, i, j);
    }
  }

  /** Nothing to strip: no blanks and no quotes at the ends. */
  predicate Bare(val: string) {
    val != "" ==>
      && !IsSpace(val[0]) && val[0] != '"' && val[0] != '\''
      && !IsSpace(val[|val| - 1]) && val[|val| - 1] != '"' && val[|val| - 1] != '\''
  }

  lemma UnquotedBare(val: string, q: char)
    requires val != "" ==> val[0] != q && val[|val| - 1] != q
    ensures Unquoted(val, q) == val
  {
  }

  lemma StripBare(val: string)
    requires Bare(val)
    ensures Strip(val) == val
  {
    if val == "" {
      StripBlank(val);
    } else {
      StripIs(val, 0, |val|);
      assert val[0..|val|] == val;
    }
  }

  /** Six values count as unset, and no other bare one does. */
  lemma BareCountsExactly(val: string)
    requires Bare(val)
    ensures CountsAsSet(val) <==>
            val != "" && val != "0" && val != "0.0" && val != "0.000000" && val != "false" && val != "False"
  {
    StripBare(val);
    UnquotedBare(val, '"');
    UnquotedBare(val, '\'');
  }

  lemma UnquotedOnce(val: string, q: char, quoted: string)
    requires quoted == [q] + val + [q] && (val != "" ==> val[0] != q && val[|val| - 1] != q)
    ensures Unquoted(quoted, q) == val
  {
    assert quoted[1..] == val + [q];
    var half := val + [q];
    if val == "" {
      assert half[1..] == [] && Unquoted(half[1..], q) == [];
    } else {
      assert half[..|half| - 1] == val;
      UnquotedBare(val, q);
    }
  }

  lemma QuotedStrips(val: string, q: char, quoted: string)
    requires quoted == [q] + val + [q] && !IsSpace(q)
    ensures Strip(quoted) == quoted
  {
    StripIs(quoted, 0, |quoted|);
    assert quoted[0..|quoted|] == quoted;
  }

  /** Quotes of either kind around a bare value make no difference. */
  lemma QuotesDoNotCount(val: string)
    requires Bare(val)
    ensures CountsAsSet(['"'] + val + ['"']) == CountsAsSet(val) == CountsAsSet(['\''] + val + ['\''])
  {
    StripBare(val);
    UnquotedBare(val, '"');
    UnquotedBare(val, '\'');
    var twice, once := ['"'] + val + ['"'], ['\''] + val + ['\''];
    QuotedStrips(val, '"', twice);
    QuotedStrips(val, '\'', once);
    UnquotedOnce(val, '"', twice);
    UnquotedBare(once, '"');
    UnquotedOnce(val, '\'', once);
  }
}
