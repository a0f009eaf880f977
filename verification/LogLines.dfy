/** Log-line reassembly: StreamContainerLogLines of gui/pkg/api/containers.go. */
module LogLines {
  import opened Basics

  const MAX_LINE := 262144

  /** What one ReadLine returns; `more` is its isPrefix flag. */
  datatype Fragment = Fragment(chunk: seq<byte>, more: bool)

  datatype Failure = ReadFailed | EmitFailed

  function Cut(line: seq<byte>): seq<byte> {
    if |line| > MAX_LINE then line[..MAX_LINE] else line
  }

  // ---------------------------------------------------------------- the stream the fragments came from

  /** The finished lines of the stream and the bytes of the line still open. */
  datatype Text = Text(lines: seq<seq<byte>>, open: seq<byte>)

  function Joined(fs: seq<Fragment>): Text {
    if fs == [] then Text([], [])
    else
      var before, f := Joined(fs[..|fs| - 1]), fs[|fs| - 1];
      if f.more then before.(open := before.open + f.chunk)
      else Text(before.lines + [before.open + f.chunk], [])
  }

  function CutAll(lines: seq<seq<byte>>): (r: seq<seq<byte>>)
    ensures |r| == |lines|
  {
    seq(|lines|, k requires 0 <= k < |lines| => Cut(lines[k]))
  }

  /** The line handed on when `chunk` ends a line of which `open` was collected: only a collected line is cut. */
  function Finished(open: seq<byte>, chunk: seq<byte>): seq<byte> {
    if open == [] then chunk else Cut(open + chunk)
  }

  function Handed(fs: seq<Fragment>): seq<seq<byte>> {
    if fs == [] then []
    else
      var init, f := fs[..|fs| - 1], fs[|fs| - 1];
      if f.more then Handed(init) else Handed(init) + [Finished(Joined(init).open, f.chunk)]
  }

  /** A finished line is cut to its first 256 KiB unless it came as one over-long fragment. */
  lemma FinishedIsCutExactly(open: seq<byte>, chunk: seq<byte>)
    ensures Finished(open, chunk) == Cut(open + chunk) <==> open != [] || |chunk| <= MAX_LINE
  {
    if open == [] {
      assert open + chunk == chunk;
    }
  }

  /**
   Whatever the fragmentation, as long as no fragment is longer than the limit (the reader's own are
   at most 4 KiB): one line out per line in, in order, each cut to its first 256 KiB.
   */
  lemma {:induction false} OutputIsTheLinesCut(fs: seq<Fragment>)
    requires forall f :: f in fs ==> |f.chunk| <= MAX_LINE
    ensures Handed(fs) == CutAll(Joined(fs).lines)
  {
    if fs != [] {
      var init, f := fs[..|fs| - 1], fs[|fs| - 1];
      assert f in fs;
      OutputIsTheLinesCut(init);
      FinishedIsCutExactly(Joined(init).open, f.chunk);
    }
  }

  /** Two fragmentations of the same lines give the same output. */
  lemma FragmentationDoesNotMatter(fs: seq<Fragment>, gs: seq<Fragment>)
    requires forall f :: f in fs + gs ==> |f.chunk| <= MAX_LINE
    requires Joined(fs).lines == Joined(gs).lines
    ensures Handed(fs) == Handed(gs)
  {
    forall f | f in fs ensures |f.chunk| <= MAX_LINE { assert f in fs + gs; }
    forall f | f in gs ensures |f.chunk| <= MAX_LINE { assert f in fs + gs; }
    OutputIsTheLinesCut(fs);
    OutputIsTheLinesCut(gs);
  }

  // ---------------------------------------------------------------- the loop

  /** What the receiver is handed when it refuses the line after `room` of them. */
  function UpTo(lines: seq<seq<byte>>, room: nat): seq<seq<byte>> {
    if |lines| <= room then lines else lines[..room + 1]
  }

  lemma CutOfCut(open: seq<byte>, chunk: seq<byte>)
    ensures var pending := Cut(open);
            var left := MAX_LINE - |pending|;
            left >= 0 && pending + (if |chunk| > left then chunk[..left] else chunk) == Cut(open + chunk)
  {
  }

  /**
   The reader delivers `fragments` and then fails (end of stream or otherwise); the receiver refuses
   a line once it has taken `room` of them. A line still open at the end is never handed on.
   */
  method StreamLogLines(fragments: seq<Fragment>, room: nat) returns (handed: seq<seq<byte>>, failure: Failure)
    ensures handed == UpTo(Handed(fragments), room)
    ensures failure == if |Handed(fragments)| > room then EmitFailed else ReadFailed
  {
    handed := [];
    var pending: seq<byte> := [];
    for i := 0 to |fragments|
      invariant handed == Handed(fragments[..i]) && |handed| <= room
      invariant pending == Cut(Joined(fragments[..i]).open)
    {
      OneMore(fragments, i);
      var line;
      line, pending := Collect(Joined(fragments[..i]).open, pending, fragments[i]);
      if fragments[i].more {
        continue;
      }
      handed := handed + [line];
      if |handed| > room {
        StopsHere(fragments, i + 1, handed, room);
        return handed, EmitFailed;
      }
    }
    assert fragments[..|fragments|] == fragments;
    return handed, ReadFailed;
  }

  /** The receiver refused the last of the lines handed on so far. */
  lemma StopsHere(fragments: seq<Fragment>, i: nat, handed: seq<seq<byte>>, room: nat)
    requires i <= |fragments| && handed == Handed(fragments[..i]) && |handed| == room + 1
    ensures handed == UpTo(Handed(fragments), room) && |Handed(fragments)| > room
  {
    HandedGrows(fragments, i, |fragments|);
  }

  lemma OneMore(fragments: seq<Fragment>, i: nat)
    requires i < |fragments|
    ensures var a, f := fragments[..i], fragments[i];
            && Joined(fragments[..i + 1])
               == (if f.more then Joined(a).(open := Joined(a).open + f.chunk)
                   else Text(Joined(a).lines + [Joined(a).open + f.chunk], []))
            && Handed(fragments[..i + 1])
               == if f.more then Handed(a) else Handed(a) + [Finished(Joined(a).open, f.chunk)]
  {
    assert fragments[..i + 1][..i] == fragments[..i];
  }

  /** The loop body up to the point where a finished line is handed on; `line` matters only then. */
  method Collect(ghost open: seq<byte>, pending: seq<byte>, f: Fragment) returns (line: seq<byte>, left: seq<byte>)
    requires pending == Cut(open)
    ensures !f.more ==> line == Finished(open, f.chunk) && left == []
    ensures f.more ==> left == Cut(open + f.chunk)
  {
    line, left := f.chunk, pending;
    if f.more || |pending| > 0 {
      CutOfCut(open, f.chunk);
      var remaining := MAX_LINE - |pending|;
      if remaining > 0 {
        left := pending + if |f.chunk| > remaining then f.chunk[..remaining] else f.chunk;
      } else {
        assert pending + [] == pending;
      }
      if f.more {
        return;
      }
      line := left;
      left := [];
    }
  }

  lemma {:induction false} HandedGrows(fs: seq<Fragment>, m: nat, n: nat)
    requires m <= n <= |fs|
    ensures Handed(fs[..m]) <= Handed(fs[..n])
    ensures n == |fs| ==> Handed(fs[..m]) <= Handed(fs)
  {
    if m < n {
      HandedGrows(fs, m, n - 1);
      assert fs[..n][..n - 1] == fs[..n - 1];
    }
    if n == |fs| {
      assert fs[..n] == fs;
    }
  }

  // ---------------------------------------------------------------- lines cut into fragments and put together

  function Concat(chunks: seq<seq<byte>>): seq<byte> {
    if chunks == [] then [] else chunks[0] + Concat(chunks[1..])
  }

  /** The fragments a line arrives in: all but the last announce more. */
  function FragmentsOf(chunks: seq<seq<byte>>): seq<Fragment>
    requires chunks != []
  {
    if |chunks| == 1 then [Fragment(chunks[0], false)] else [Fragment(chunks[0], true)] + FragmentsOf(chunks[1..])
  }

  function Arriving(lines: seq<seq<seq<byte>>>): seq<Fragment>
    requires forall k :: 0 <= k < |lines| ==> lines[k] != []
  {
    if lines == [] then [] else Arriving(lines[..|lines| - 1]) + FragmentsOf(lines[|lines| - 1])
  }

  lemma JoinedAppend(fs: seq<Fragment>, f: Fragment)
    ensures Joined(fs + [f]) == if f.more then Joined(fs).(open := Joined(fs).open + f.chunk)
                                else Text(Joined(fs).lines + [Joined(fs).open + f.chunk], [])
  {
    assert (fs + [f])[..|fs|] == fs;
  }

  lemma {:induction false} JoinedLine(fs: seq<Fragment>, chunks: seq<seq<byte>>)
    requires chunks != []
    ensures Joined(fs + FragmentsOf(chunks)) == Text(Joined(fs).lines + [Joined(fs).open + Concat(chunks)], [])
    decreases |chunks|
  {
    if |chunks| == 1 {
      JoinedAppend(fs, Fragment(chunks[0], false));
      assert chunks[1..] == [] && chunks[0] + Concat(chunks[1..]) == chunks[0];
    } else {
      var f := Fragment(chunks[0], true);
      JoinedAppend(fs, f);
      JoinedLine(fs + [f], chunks[1..]);
      Regroup(fs, [f], FragmentsOf(chunks[1..]));
      Regroup(Joined(fs).open, chunks[0], Concat(chunks[1..]));
    }
  }

  lemma Regroup<T>(a: seq<T>, b: seq<T>, c: seq<T>)
    ensures a + (b + c) == a + b + c
  {
  }

  lemma {:induction false} FragmentsAreChunks(chunks: seq<seq<byte>>, f: Fragment)
    requires chunks != [] && f in FragmentsOf(chunks)
    ensures f.chunk in chunks
    decreases |chunks|
  {
    if |chunks| > 1 && f in FragmentsOf(chunks[1..]) {
      FragmentsAreChunks(chunks[1..], f);
    }
  }

  lemma {:induction false} ArrivingJoined(lines: seq<seq<seq<byte>>>)
    requires forall k :: 0 <= k < |lines| ==> lines[k] != []
    ensures Joined(Arriving(lines)) == Text(seq(|lines|, k requires 0 <= k < |lines| => Concat(lines[k])), [])
  {
    if lines == [] {
      assert seq(|lines|, k requires 0 <= k < |lines| => Concat(lines[k])) == [];
    } else {
      var n := |lines| - 1;
      ArrivingJoined(lines[..n]);
      JoinedLine(Arriving(lines[..n]), lines[n]);
      assert [] + Concat(lines[n]) == Concat(lines[n]);
      assert seq(|lines|, k requires 0 <= k < |lines| => Concat(lines[k]))
          == seq(n, k requires 0 <= k < n => Concat(lines[..n][k])) + [Concat(lines[n])];
    }
  }

  lemma {:induction false} ArrivingShort(lines: seq<seq<seq<byte>>>, f: Fragment)
    requires forall k :: 0 <= k < |lines| ==> lines[k] != []
    requires forall k, j :: 0 <= k < |lines| && 0 <= j < |lines[k]| ==> |lines[k][j]| <= 262144
    requires f in Arriving(lines)
    ensures |f.chunk| <= 262144
  {
    var n := |lines| - 1;
    if f in FragmentsOf(lines[n]) {
      FragmentsAreChunks(lines[n], f);
    } else {
      ArrivingShort(lines[..n], f);
    }
  }

  /** Lines cut into any fragments come out one by one, in order, each as its first 262144 bytes. */
  lemma EveryLineComesOut(lines: seq<seq<seq<byte>>>)
    requires forall k :: 0 <= k < |lines| ==> lines[k] != []
    requires forall k, j :: 0 <= k < |lines| && 0 <= j < |lines[k]| ==> |lines[k][j]| <= 262144
    ensures var out := Handed(Arriving(lines));
            && |out| == |lines|
            && forall k :: 0 <= k < |lines| ==>
                             var line := Concat(lines[k]);
                             out[k] == if |line| > 262144 then line[..262144] else line
  {
    ArrivingJoined(lines);
    forall f | f in Arriving(lines) ensures |f.chunk| <= MAX_LINE {
      ArrivingShort(lines, f);
    }
    OutputIsTheLinesCut(Arriving(lines));
  }
}
