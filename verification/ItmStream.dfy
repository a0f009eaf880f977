/** The line buffer of one ITM channel: class Stream of firmware/stm32/ros_usbnode/swo_parser.py. */
module ItmStream {
  const MAX_LINE_LENGTH := 1024

  /** What goes to the console, each under its stream id. */
  datatype Line = Warning(id: nat) | Text(id: nat, header: string, body: string)

  datatype Fed = Fed(buffer: string, printed: seq<Line>)

  /** One character: buffered, or the end of a line, or the overflow of one. */
  function AddChar(id: nat, header: string, buffer: string, c: char): Fed {
    if |buffer| >= MAX_LINE_LENGTH then Fed("", [Warning(id), Text(id, header, buffer + [c])])
    else if c == '\n' then Fed("", [Text(id, header, buffer)])
    else Fed(buffer + [c], [])
  }

  function AddChars(id: nat, header: string, buffer: string, s: string): Fed {
    if s == "" then Fed(buffer, [])
    else
      var before := AddChars(id, header, buffer, s[..|s| - 1]);
      var last := AddChar(id, header, before.buffer, s[|s| - 1]);
      Fed(last.buffer, before.printed + last.printed)
  }

  lemma {:induction false} AddCharsAppend(id: nat, header: string, buffer: string, s: string, t: string)
    ensures var a := AddChars(id, header, buffer, s);
            var b := AddChars(id, header, a.buffer, t);
            AddChars(id, header, buffer, s + t) == Fed(b.buffer, a.printed + b.printed)
    decreases |t|
  {
    var a := AddChars(id, header, buffer, s);
    if t == "" {
      assert s + t == s && a.printed + [] == a.printed;
    } else {
      var init := t[..|t| - 1];
      assert (s + t)[..|s + t| - 1] == s + init;
      AddCharsAppend(id, header, buffer, s, init);
    }
  }

  class Stream {
    const id: nat
    const header: string
    var buffer: string

    constructor (id: nat, header: string)
      ensures this.id == id && this.header == header && buffer == ""
    {
      this.id, this.header, buffer := id, header, "";
    }

    method Add(c: char) returns (printed: seq<Line>)
      modifies this
      ensures Fed(buffer, printed) == AddChar(id, header, old(buffer), c)
    {
      if |buffer| >= MAX_LINE_LENGTH {
        printed := [Warning(id), Text(id, header, buffer + [c])];
        buffer := "";
        return;
      }
      if c == '\n' {
        printed := [Text(id, header, buffer)];
        buffer := "";
        return;
      }
      buffer := buffer + [c];
      printed := [];
    }

    method AddAll(s: string) returns (printed: seq<Line>)
      modifies this
      ensures Fed(buffer, printed) == AddChars(id, header, old(buffer), s)
    {
      printed := [];
      for i := 0 to |s|
        invariant Fed(buffer, printed) == AddChars(id, header, old(buffer), s[..i])
      {
        assert s[..i + 1][..i] == s[..i];
        var more := Add(s[i]);
        printed := printed + more;
      }
      assert s[..|s|] == s;
    }
  }

  // ---------------------------------------------------------------- nothing is lost

  /** The characters a run of printed lines accounts for: a plain line ended at a newline, an overflow did not. */
  function Accounted(printed: seq<Line>): string {
    if printed == [] then ""
    else
      var last := printed[|printed| - 1];
      var before := printed[..|printed| - 1];
      if last.Warning? then Accounted(before)
      else if before != [] && before[|before| - 1].Warning? then Accounted(before) + last.body
      else Accounted(before) + last.body + "\n"
  }

  ghost predicate EndsWithText(printed: seq<Line>) {
    printed != [] ==> printed[|printed| - 1].Text?
  }

  /** A plain line has no newline and at most 1024 characters, an overflow exactly 1025. */
  ghost predicate WellFormedAt(printed: seq<Line>, k: nat)
    requires k < |printed|
  {
    printed[k].Text? ==>
      if k > 0 && printed[k - 1].Warning? then |printed[k].body| == MAX_LINE_LENGTH + 1
      else |printed[k].body| <= MAX_LINE_LENGTH && '\n' !in printed[k].body
  }

  ghost predicate WellPrinted(printed: seq<Line>) {
    forall k :: 0 <= k < |printed| ==> WellFormedAt(printed, k)
  }

  lemma OneCharAccounted(id: nat, header: string, buffer: string, c: char, printed: seq<Line>)
    requires EndsWithText(printed)
    ensures var f := AddChar(id, header, buffer, c);
            Accounted(printed + f.printed) + f.buffer == Accounted(printed) + buffer + [c]
  {
    var f := AddChar(id, header, buffer, c);
    var all := printed + f.printed;
    if |f.printed| == 2 {
      assert all[..|all| - 1] == printed + [Warning(id)];
      assert (printed + [Warning(id)])[..|printed|] == printed;
    } else if |f.printed| == 1 {
      assert all[..|all| - 1] == printed;
    } else {
      assert all == printed;
    }
  }

  lemma OneCharWellPrinted(id: nat, header: string, buffer: string, c: char, printed: seq<Line>)
    requires EndsWithText(printed) && WellPrinted(printed)
    requires |buffer| <= MAX_LINE_LENGTH && '\n' !in buffer
    ensures var f := AddChar(id, header, buffer, c);
            && |f.buffer| <= MAX_LINE_LENGTH && '\n' !in f.buffer
            && EndsWithText(printed + f.printed) && WellPrinted(printed + f.printed)
  {
    var f := AddChar(id, header, buffer, c);
    var all, n := printed + f.printed, |printed|;
    forall k | 0 <= k < |all| ensures WellFormedAt(all, k) {
      if k < n {
        assert WellFormedAt(printed, k);
        assert all[k] == printed[k] && (k > 0 ==> all[k - 1] == printed[k - 1]);
      } else {
        assert all[k] == f.printed[k - n];
        assert k > n ==> all[k - 1] == f.printed[k - n - 1];
        assert k == n && n > 0 ==> all[k - 1] == printed[n - 1];
      }
    }
  }

  /**
   From an empty buffer the printed lines and the buffer give back the input exactly; the buffer never
   passes 1024 characters and never holds a newline.
   */
  lemma {:induction false} NothingIsLost(id: nat, header: string, s: string)
    ensures var f := AddChars(id, header, "", s);
            && Accounted(f.printed) + f.buffer == s
            && |f.buffer| <= MAX_LINE_LENGTH && '\n' !in f.buffer
            && EndsWithText(f.printed) && WellPrinted(f.printed)
  {
    if s != "" {
      var init, c := s[..|s| - 1], s[|s| - 1];
      NothingIsLost(id, header, init);
      var f := AddChars(id, header, "", init);
      OneCharAccounted(id, header, f.buffer, c, f.printed);
      OneCharWellPrinted(id, header, f.buffer, c, f.printed);
      assert s == init + [c];
    }
  }

  // ---------------------------------------------------------------- whole lines

  predicate NoNewline(s: string) {
    forall k :: 0 <= k < |s| ==> s[k] != '\n'
  }

  lemma {:induction false} LineIsBuffered(id: nat, header: string, s: string)
    requires NoNewline(s) && |s| <= 1024
    ensures AddChars(id, header, "", s) == Fed(s, [])
  {
    if s != "" {
      var init := s[..|s| - 1];
      LineIsBuffered(id, header, init);
      assert s == init + [s[|s| - 1]];
    }
  }

  /** A line of fewer than 1024 characters is printed whole, under the stream's id and header, when it ends. */
  lemma ShortLineIsPrinted(id: nat, header: string, s: string)
    requires NoNewline(s) && |s| < 1024
    ensures AddChars(id, header, "", s + "\n") == Fed("", [Text(id, header, s)])
  {
    LineIsBuffered(id, header, s);
    assert (s + "\n")[..|s|] == s && (s + "\n")[|s|] == '\n';
  }

  /** After 1024 characters the next one, a newline too, is printed with them, behind a warning. */
  lemma LongLineIsBroken(id: nat, header: string, s: string, c: char)
    requires NoNewline(s) && |s| == 1024
    ensures AddChars(id, header, "", s + [c]) == Fed("", [Warning(id), Text(id, header, s + [c])])
  {
    LineIsBuffered(id, header, s);
    assert (s + [c])[..|s|] == s && (s + [c])[|s|] == c;
  }

  /** Everything a stream prints carries its id and its header. */
  lemma {:induction false} PrintedUnderItsName(id: nat, header: string, buffer: string, s: string)
    ensures forall l :: l in AddChars(id, header, buffer, s).printed ==> l.id == id && (l.Text? ==> l.header == header)
  {
    if s != "" {
      PrintedUnderItsName(id, header, buffer, s[..|s| - 1]);
    }
  }
}
