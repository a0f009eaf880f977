/**
 When a rewritten line of install/scripts/migrate_openmower.py still has its comment as a comment: to a YAML
 reader (YAML 1.2.2, section 6.6) a '#' begins one only behind a blank.
 */
module YamlComment {
  import opened Basics
  import opened Strings
  import opened YamlLine
  import opened LinePatch
  import opened Migration

  /** The first '#' of the line, if there is one, stands behind a blank. */
  predicate CommentStandsApart(line: string) {
    var h := HashFrom(line, 0);
    h < |line| ==> h > 0 && IsSpace(line[h - 1])
  }

  /** The comment taken over, if there is one, brings a blank of its own. */
  predicate StartsBlank(c: Option<string>) {
    c.Some? ==> c.value != "" && IsSpace(c.value[0])
  }

  predicate HasText(line: string, from: nat, to: nat) {
    exists k :: from <= k < to <= |line| && !IsSpace(line[k])
  }

  // ---------------------------------------------------------------- the line written

  predicate NoHash(s: string) {
    forall k :: 0 <= k < |s| ==> s[k] != '#'
  }

  lemma HeadHasNoHash(indent: string, key: string, value: string)
    requires IsIndent(indent) && IsKey(key) && Solid(value)
    ensures NoHash(indent + key + ": " + value)
  {
    assert forall k :: 0 <= k < |indent| ==> IsIndentChar(indent[k]);
    assert forall k :: 0 <= k < |key| ==> IsWordChar(key[k]);
    assert NoHash(indent) && NoHash(key) && NoHash(": ") && NoHash(value);
  }

  lemma HashBehind(head: string, c: string, g: nat, line: string)
    requires head != "" && NoHash(head) && IsCommentAt(c, g) && line == head + c
    ensures HashFrom(line, 0) == |head| + g < |line|
    ensures line[|head| + g - 1] == if g > 0 then c[g - 1] else head[|head| - 1]
  {
    forall k | 0 <= k < |head| + g ensures line[k] != '#' {
      assert line[k] == if k < |head| then head[k] else c[k - |head|];
    }
    HashFromIs(line, 0, |head| + g);
  }

  lemma HeadEnds(head: string, start: string, value: string)
    requires head == start + value && value != ""
    ensures head[|head| - 1] == value[|value| - 1]
  {
  }

  lemma WrittenExactly(m: KeyLine, value: string)
    requires WellFormed(m) && Solid(value)
    ensures CommentStandsApart(WithValue(m, value)) <==> StartsBlank(m.tail.comment)
  {
    var start := m.indent + m.key + ": ";
    var head := start + value;
    HeadHasNoHash(m.indent, m.key, value);
    HeadEnds(head, start, value);
    if m.tail.comment.None? {
      assert head + "" == head;
      HashFromIs(head, 0, |head|);
    } else {
      var g :| IsCommentAt(m.tail.comment.value, g);
      HashBehind(head, m.tail.comment.value, g, WithValue(m, value));
    }
  }

  // ---------------------------------------------------------------- the line there was

  /** The comment split off brings a blank exactly when a blank precedes its '#' and some text precedes that. */
  lemma SplitOffExactly(rest: string)
    ensures var h, c := HashFrom(rest, 0), SplitTail(rest).comment;
            && (c.Some? <==> h < |rest|)
            && (c.Some? ==> (StartsBlank(c) <==> h > 0 && IsSpace(rest[h - 1]) && HasText(rest, 0, h)))
  {
    var i, h := SkipSpace(rest, 0), HashFrom(rest, 0);
    HashAfterBlanks(rest);
    SkipSpaceStops(rest, 0);
    HashFromStops(rest, 0);
    if h < |rest| {
      var head := rest[..h];
      var e := DropSpace(head, h);
      DropSpaceStops(head, h);
      BlanksBefore(rest, i, e, h, head);
    }
  }

  lemma BlanksBefore(rest: string, i: nat, e: nat, h: nat, head: string)
    requires i <= h < |rest| && e <= h && head == rest[..h] && rest[h] == '#' && !IsSpace(rest[i])
    requires forall k :: 0 <= k < i ==> IsSpace(rest[k])
    requires (e > 0 ==> !IsSpace(head[e - 1])) && forall k :: e <= k < h ==> IsSpace(head[k])
    ensures var c := if e <= i then rest[i..] else rest[e..];
            IsSpace(c[0]) <==> h > 0 && IsSpace(rest[h - 1]) && HasText(rest, 0, h)
  {
    assert forall k :: 0 <= k < h ==> head[k] == rest[k];
    if e <= i {
      assert forall k :: e <= k < h ==> IsSpace(rest[k]);
      assert i == h;
    } else {
      assert !IsSpace(rest[e - 1]) && HasText(rest, 0, h);
    }
  }

  lemma HashShift(line: string, from: nat, rest: string)
    requires from <= |line| && rest == line[from..] && forall k :: 0 <= k < from ==> line[k] != '#'
    ensures HashFrom(line, 0) == from + HashFrom(rest, 0)
  {
    var h := HashFrom(rest, 0);
    HashFromStops(rest, 0);
    forall k | 0 <= k < from + h ensures line[k] != '#' {
      assert k >= from ==> line[k] == rest[k - from];
    }
    assert from + h < |line| ==> line[from + h] == rest[h];
    HashFromIs(line, 0, from + h);
  }

  lemma TextShift(line: string, from: nat, rest: string, h: nat)
    requires from <= |line| && rest == line[from..] && h <= |rest|
    ensures HasText(rest, 0, h) <==> HasText(line, from, from + h)
  {
    if k :| 0 <= k < h && !IsSpace(rest[k]) {
      assert !IsSpace(line[from + k]);
    }
    if k :| from <= k < from + h && !IsSpace(line[k]) {
      assert !IsSpace(rest[k - from]);
    }
  }

  /** Where the colon of a matching line stands. */
  function Colon(line: string): nat {
    WordEnd(line, IndentEnd(line, 0))
  }

  lemma BeforeColon(line: string)
    requires Match(line).Some?
    ensures Colon(line) < |line| && line[Colon(line)] == ':' && forall k :: 0 <= k <= Colon(line) ==> line[k] != '#'
    ensures Match(line).value.tail == SplitTail(line[Colon(line) + 1..])
  {
    var n := IndentEnd(line, 0);
    IndentEndStops(line, 0);
    WordEndStops(line, n);
    forall k | 0 <= k <= Colon(line) ensures line[k] != '#' {
      assert k < n ==> IsIndentChar(line[k]);
      assert n <= k < Colon(line) ==> IsWordChar(line[k]);
    }
  }

  /** The old line keeps its comment apart: a blank precedes its first '#', and a value precedes that. */
  predicate CommentBehindBlankAndValue(line: string) {
    var h := HashFrom(line, 0);
    h < |line| ==> h > 0 && IsSpace(line[h - 1]) && HasText(line, Colon(line) + 1, h)
  }

  lemma OldLineExactly(line: string)
    requires Match(line).Some?
    ensures StartsBlank(Match(line).value.tail.comment) <==> CommentBehindBlankAndValue(line)
  {
    BeforeColon(line);
    var from := Colon(line) + 1;
    AfterColonExactly(line, from, line[from..], HashFrom(line[from..], 0));
  }

  lemma AfterColonExactly(line: string, from: nat, rest: string, h: nat)
    requires 0 < from <= |line| && rest == line[from..] && h == HashFrom(rest, 0) && line[from - 1] == ':'
    requires forall k :: 0 <= k < from ==> line[k] != '#'
    ensures StartsBlank(SplitTail(rest).comment)
            <==> (HashFrom(line, 0) < |line| ==>
                    IsSpace(line[HashFrom(line, 0) - 1]) && HasText(line, from, HashFrom(line, 0)))
  {
    SplitOffExactly(rest);
    HashShift(line, from, rest);
    TextShift(line, from, rest, h);
    assert line[from + h - 1] == if h > 0 then rest[h - 1] else ':';
  }

  // ---------------------------------------------------------------- exactly when the comment is kept apart

  /**
   Rewriting keeps the comment apart from the new value exactly when the pattern took a blank along with
   it: when in the old line a blank precedes the first '#' and something other than blanks stands
   between the colon and that blank.
   */
  lemma CommentStandsApartExactly(line: string, key: string, value: string)
    requires HasKey(line, key) && Solid(value)
    ensures CommentStandsApart(Rewritten(line, key, value)) <==> StartsBlank(Match(line).value.tail.comment)
    ensures CommentStandsApart(Rewritten(line, key, value)) <==> CommentBehindBlankAndValue(line)
  {
    MatchedParts(line);
    WrittenExactly(Match(line).value, value);
    OldLineExactly(line);
  }

  // ---------------------------------------------------------------- two files on which it is not

  lemma OneLineFile(line: string, s: Setting)
    requires HasKey(line, s.key) && !LineIsSet(line)
    ensures Apply(YAML, [line], s, false) == [Rewritten(line, s.key, s.value)]
  {
    FindKeyIs(YAML, [line], s.key, 0);
  }

  lemma BlankTail(rest: string, c: string)
    requires rest == " " + c && c != "" && c[0] == '#'
    ensures SplitTail(rest) == Tail("", Some(c))
  {
    SkipSpaceIs(rest, 1);
    HashFromIs(rest, 1, 1);
    assert rest[1..] == c;
    var head := rest[..1];
    DropSpaceStops(head, 1);
  }

  lemma EmptyCountsAsUnset(value: string)
    requires value == ""
    ensures !CountsAsSet(value)
  {
    StripBlank(value);
  }

  /** A key without a value but with a comment: the new value and the comment are glued together. */
  lemma CommentGluedToValue(s: Setting, c: string)
    requires IsKey(s.key) && c != "" && c[0] == '#'
    ensures Apply(YAML, ["  " + s.key + ":" + (" " + c)], s, false) == ["  " + s.key + ": " + s.value + c]
  {
    var line := "  " + s.key + ":" + (" " + c);
    MatchInverts("  ", s.key, " " + c, line);
    BlankTail(" " + c, c);
    EmptyCountsAsUnset("");
    OneLineFile(line, s);
  }

  lemma GluedTail(rest: string, value: string, c: string)
    requires rest == " " + value + c && Solid(value) && !IsSpace(value[0]) && c != "" && c[0] == '#'
    ensures SplitTail(rest) == Tail(value, Some(c))
  {
    assert IsCommentAt(c, 0);
    SkipSpaceIs(value, 0);
    assert value[0..] == value;
    SolidBeforeComment(value, c, 0, rest);
  }

  /** A '#' directly behind a value that counts as unset sticks to the new value as well. */
  lemma HashGluedToValue(s: Setting, c: string)
    requires IsKey(s.key) && c != "" && c[0] == '#'
    ensures Apply(YAML, ["  " + s.key + ":" + (" " + "0" + c)], s, false) == ["  " + s.key + ": " + s.value + c]
  {
    var zero := "0";
    var line := "  " + s.key + ":" + (" " + zero + c);
    ZeroCountsAsUnset(zero);
    GluedTail(" " + zero + c, zero, c);
    MatchInverts("  ", s.key, " " + zero + c, line);
    OneLineFile(line, s);
  }
}
