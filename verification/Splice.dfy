/** Replacing the coverage-controller block: docker/logs/mow_sessions/splice_dwb_source.py. */
module Splice {
  import opened Basics
  import opened Strings

  const HEADER_MARK := "# ── Coverage controller"
  const ENTRY_MARK := "    FollowCoveragePath:"

  predicate IsHeader(line: string) {
    StartsWith(TrimLeft(line), HEADER_MARK)
  }

  predicate IsEntry(line: string) {
    StartsWith(line, ENTRY_MARK)
  }

  function Indent(line: string): nat {
    SkipSpace(line, 0)
  }

  /** A line that belongs to a block once the block's entry has been passed: blank, or indented deeper than 4. */
  predicate Inside(line: string) {
    Indent(line) == |line| || Indent(line) > 4
  }

  /** The first index from `i` on of a header, of an entry, of a line outside the block; or the end. */
  function HeaderFrom(lines: seq<string>, i: nat): (r: nat)
    requires i <= |lines|
    ensures i <= r <= |lines| && (r < |lines| ==> IsHeader(lines[r]))
    ensures forall j :: i <= j < r ==> !IsHeader(lines[j])
    decreases |lines| - i
  {
    if i < |lines| && !IsHeader(lines[i]) then HeaderFrom(lines, i + 1) else i
  }

  function EntryFrom(lines: seq<string>, i: nat): (r: nat)
    requires i <= |lines|
    ensures i <= r <= |lines| && (r < |lines| ==> IsEntry(lines[r]))
    ensures forall j :: i <= j < r ==> !IsEntry(lines[j])
    decreases |lines| - i
  {
    if i < |lines| && !IsEntry(lines[i]) then EntryFrom(lines, i + 1) else i
  }

  function OutsideFrom(lines: seq<string>, i: nat): (r: nat)
    requires i <= |lines|
    ensures i <= r <= |lines| && (r < |lines| ==> !Inside(lines[r]))
    ensures forall j :: i <= j < r ==> Inside(lines[j])
    decreases |lines| - i
  {
    if i < |lines| && Inside(lines[i]) then OutsideFrom(lines, i + 1) else i
  }

  /** The lines replaced: from the header to the end of the entry's block. */
  datatype Span = Span(start: nat, end: nat)

  function OldBlock(lines: seq<string>): (s: Option<Span>)
    ensures s.Some? ==> s.value.start < s.value.end <= |lines|
  {
    var h := HeaderFrom(lines, 0);
    var f := EntryFrom(lines, h);
    if h == |lines| || f == |lines| then None else Some(Span(h, OutsideFrom(lines, f + 1)))
  }

  /** None stands for the exception raised when the file has no header, or no entry from there on. */
  function Spliced(lines: seq<string>, block: seq<string>): Option<seq<string>> {
    match OldBlock(lines)
    case None => None
    case Some(s) => Some(lines[..s.start] + block + lines[s.end..])
  }

  /** The scan for the end of the old block. */
  method EndOfBlock(lines: seq<string>, start: nat) returns (e: nat)
    requires start <= |lines|
    ensures e == OutsideFrom(lines, start)
  {
    e := start;
    while e < |lines|
      invariant start <= e <= |lines| && OutsideFrom(lines, start) == OutsideFrom(lines, e)
    {
      var indent := Indent(lines[e]);
      if indent == |lines[e]| {
        e := e + 1;
        continue;
      }
      if indent <= 4 {
        break;
      }
      e := e + 1;
    }
  }

  method SpliceLines(lines: seq<string>, block: seq<string>) returns (out: Option<seq<string>>)
    ensures out == Spliced(lines, block)
  {
    var h := HeaderFrom(lines, 0);
    if h == |lines| {
      return None;
    }
    var f := EntryFrom(lines, h);
    if f == |lines| {
      return None;
    }
    var e := EndOfBlock(lines, f + 1);
    return Some(lines[..h] + block + lines[e..]);
  }

  /** The shape of the block written: its header first, then comments, its entry at `k`, and deeper lines to the end. */
  ghost predicate BlockShape(block: seq<string>, k: nat) {
    && 0 < k < |block| && IsHeader(block[0]) && IsEntry(block[k])
    && (forall j :: 0 <= j < k ==> !IsEntry(block[j]))
    && (forall j :: k < j < |block| ==> Inside(block[j]))
  }

  lemma FirstHeader(lines: seq<string>, h: nat)
    requires h < |lines| && IsHeader(lines[h]) && forall j :: 0 <= j < h ==> !IsHeader(lines[j])
    ensures HeaderFrom(lines, 0) == h
  {
    var r := HeaderFrom(lines, 0);
    assert r < |lines| ==> IsHeader(lines[r]);
  }

  lemma FirstEntry(lines: seq<string>, h: nat, f: nat)
    requires h <= f < |lines| && IsEntry(lines[f]) && forall j :: h <= j < f ==> !IsEntry(lines[j])
    ensures EntryFrom(lines, h) == f
  {
    var r := EntryFrom(lines, h);
    assert r < |lines| ==> IsEntry(lines[r]);
  }

  lemma FirstOutside(lines: seq<string>, i: nat, e: nat)
    requires i <= e <= |lines| && (e < |lines| ==> !Inside(lines[e])) && forall j :: i <= j < e ==> Inside(lines[j])
    ensures OutsideFrom(lines, i) == e
  {
    var r := OutsideFrom(lines, i);
    assert r < |lines| ==> !Inside(lines[r]);
    assert e < |lines| ==> !Inside(lines[e]);
  }

  /** After a splice the block found is exactly the one written. */
  lemma WrittenBlockIsFound(head: seq<string>, block: seq<string>, tail: seq<string>, k: nat)
    requires BlockShape(block, k)
    requires forall j :: 0 <= j < |head| ==> !IsHeader(head[j])
    requires tail != [] ==> !Inside(tail[0])
    ensures OldBlock(head + block + tail) == Some(Span(|head|, |head| + |block|))
  {
    var lines, h, e := head + block + tail, |head|, |head| + |block|;
    assert forall j :: 0 <= j < h ==> lines[j] == head[j];
    assert forall j :: h <= j < e ==> lines[j] == block[j - h];
    assert tail != [] ==> lines[e] == tail[0];
    FirstHeader(lines, h);
    FirstEntry(lines, h, h + k);
    FirstOutside(lines, h + k + 1, e);
  }

  lemma OldBlockEdges(lines: seq<string>)
    requires OldBlock(lines).Some?
    ensures var s := OldBlock(lines).value;
            && (forall j :: 0 <= j < s.start ==> !IsHeader(lines[j])) && IsHeader(lines[s.start])
            && (s.end < |lines| ==> !Inside(lines[s.end]))
  {
  }

  /** Splicing twice writes what splicing once wrote. */
  lemma SplicingTwiceIsOnce(lines: seq<string>, block: seq<string>, k: nat)
    requires BlockShape(block, k) && Spliced(lines, block).Some?
    ensures Spliced(Spliced(lines, block).value, block) == Spliced(lines, block)
  {
    var s := OldBlock(lines).value;
    OldBlockEdges(lines);
    var head, tail := lines[..s.start], lines[s.end..];
    WrittenBlockIsFound(head, block, tail, k);
    var out := head + block + tail;
    assert out[..s.start] == head && out[s.start + |block|..] == tail;
  }

  /**
   The text before the header survives in `out`, and so does the text after the old block, from its first
   non-blank line indented at most 4; in between the entry was there and everything after it was
   blank or deeper.
   */
  ghost predicate Replaced(lines: seq<string>, block: seq<string>, out: seq<string>, h: nat, f: nat, e: nat) {
    IsBlock(lines, h, f, e) && out == lines[..h] + block + lines[e..]
  }

  /** The first header at `h`, the next entry at `f`, and the end of the entry's block at `e`. */
  ghost predicate IsBlock(lines: seq<string>, h: nat, f: nat, e: nat) {
    && h <= f < e <= |lines|
    && IsHeader(lines[h]) && (forall j :: 0 <= j < h ==> !IsHeader(lines[j]))
    && IsEntry(lines[f]) && (forall j :: h <= j < f ==> !IsEntry(lines[j]))
    && (forall j :: f < j < e ==> Deep(lines[j])) && (e < |lines| ==> !Deep(lines[e]))
  }

  /** Blank, or beginning with five blanks or more. */
  predicate Deep(line: string) {
    Blank(line) || (|line| > 4 && Blank(line[..5]))
  }

  lemma InsideIsDeep(line: string)
    ensures Inside(line) <==> Deep(line)
  {
    SkipSpaceStops(line, 0);
    if Blank(line) {
      SkipSpaceIs(line, |line|);
    }
    if |line| > 4 {
      assert forall k :: 0 <= k < 5 ==> line[..5][k] == line[k];
    }
  }

  lemma FoundIsBlock(lines: seq<string>, h: nat, f: nat)
    requires h == HeaderFrom(lines, 0) && f == EntryFrom(lines, h) < |lines|
    ensures IsBlock(lines, h, f, OutsideFrom(lines, f + 1))
  {
    var e := OutsideFrom(lines, f + 1);
    forall j | f < j < e ensures Deep(lines[j]) {
      InsideIsDeep(lines[j]);
    }
    if e < |lines| {
      InsideIsDeep(lines[e]);
    }
  }

  lemma OnlyTheBlockIsReplaced(lines: seq<string>, block: seq<string>)
    requires Spliced(lines, block).Some?
    ensures exists h: nat, f: nat, e: nat :: Replaced(lines, block, Spliced(lines, block).value, h, f, e)
  {
    var h := HeaderFrom(lines, 0);
    var f := EntryFrom(lines, h);
    FoundIsBlock(lines, h, f);
    assert Replaced(lines, block, Spliced(lines, block).value, h, f, OutsideFrom(lines, f + 1));
  }

  /** The script succeeds exactly on files with an entry at or after their first header. */
  lemma SucceedsExactly(lines: seq<string>, block: seq<string>)
    ensures Spliced(lines, block).Some?
            <==> exists i, j :: 0 <= i <= j < |lines| && IsHeader(lines[i]) && IsEntry(lines[j])
  {
    var h := HeaderFrom(lines, 0);
    var f := EntryFrom(lines, h);
    if i, j :| 0 <= i <= j < |lines| && IsHeader(lines[i]) && IsEntry(lines[j]) {
      assert h <= i && f <= j;
    }
    assert h < |lines| && f < |lines| ==> IsHeader(lines[h]) && IsEntry(lines[f]);
  }

  // ---------------------------------------------------------------- the script's own block

  predicate StartsAt(line: string, indent: nat, text: string) {
    StartsWith(line, seq(indent, _ => ' ') + text)
  }

  /** How the lines of the script's block begin: header, comments, entry, then parameters two columns deeper. */
  ghost predicate ScriptBlock(block: seq<string>) {
    && |block| == 65 && StartsAt(block[0], 4, "# ── Coverage controller")
    && StartsAt(block[19], 4, "FollowCoveragePath:")
    && (forall j :: 0 <= j < 19 ==> StartsAt(block[j], 4, "#"))
    && (forall j :: 20 <= j < 65 ==> StartsAt(block[j], 6, ""))
  }

  lemma BeginsWith(line: string, indent: nat, text: string)
    requires StartsAt(line, indent, text)
    ensures |line| >= indent + |text| && line[indent..indent + |text|] == text
    ensures forall k :: 0 <= k < indent ==> line[k] == ' '
  {
    var p := seq(indent, _ => ' ') + text;
    assert line[..|p|] == p;
    forall k | 0 <= k < indent ensures line[k] == ' ' {
      assert line[k] == p[k];
    }
    assert line[..|p|][indent..] == p[indent..];
  }

  lemma HeaderLine(line: string)
    requires StartsAt(line, 4, HEADER_MARK)
    ensures IsHeader(line)
  {
    BeginsWith(line, 4, HEADER_MARK);
    assert line[4] == HEADER_MARK[0] == '#';
    SkipSpaceIs4(line);
    assert line[4..][..|HEADER_MARK|] == HEADER_MARK;
  }

  lemma SkipSpaceIs4(line: string)
    requires |line| > 4 && !IsSpace(line[4]) && forall k :: 0 <= k < 4 ==> line[k] == ' '
    ensures SkipSpace(line, 0) == 4
  {
    SkipSpaceIs(line, 4);
  }

  lemma DeepLine(line: string)
    requires StartsAt(line, 6, "")
    ensures Inside(line)
  {
    BeginsWith(line, 6, "");
    SkipSpaceStops(line, 0);
    var r := SkipSpace(line, 0);
    assert r < |line| ==> !IsSpace(line[r]);
  }

  lemma ScriptBlockHasTheShape(block: seq<string>)
    requires ScriptBlock(block)
    ensures BlockShape(block, 19)
  {
    HeaderLine(block[0]);
    assert seq(4, _ => ' ') + "FollowCoveragePath:" == ENTRY_MARK;
    forall j | 0 <= j < 19 ensures !IsEntry(block[j]) {
      BeginsWith(block[j], 4, "#");
      assert block[j][4..5] == "#" && ENTRY_MARK[4] == 'F';
      assert block[j][4] == block[j][4..5][0];
    }
    forall j | 19 < j < 65 ensures Inside(block[j]) {
      DeepLine(block[j]);
    }
  }

  /** Splicing the script's own block twice writes what splicing it once wrote. */
  lemma ScriptSplicesOnce(lines: seq<string>, block: seq<string>)
    requires ScriptBlock(block) && Spliced(lines, block).Some?
    ensures Spliced(Spliced(lines, block).value, block) == Spliced(lines, block)
  {
    ScriptBlockHasTheShape(block);
    SplicingTwiceIsOnce(lines, block, 19);
  }
}
