/**
 What the emitted deserializer accepts: with texts free of NULs, exactly the encodings that the emitted
 serializer writes (firmware/scripts/sync_ros_lib.py).
 */
module RosReading {
  import opened Basics
  import opened RosCodec

  // ---------------------------------------------------------------- reading an untouched buffer

  /** What stands in an untouched buffer at `start`, and where it ends. */
  function ReadAt(t: Type, mem: seq<byte>, start: nat): (r: Option<(Value, nat)>)
    requires Supported(t) && start <= |mem|
    ensures r.Some? ==> start <= r.value.1 <= |mem|
    decreases t, 0
  {
    match t
    case Prim(width) =>
      if start + width > |mem| then None
      else Some((Num(FromLittleEndian(mem[start..start + width])), start + width))
    case Text =>
      if start + 4 > |mem| then None
      else
        var len := FromLittleEndian(mem[start..start + 4]);
        if start + 4 + len > |mem| then None
        else Some((Str(mem[start + 4..start + 4 + len]), start + 4 + len))
    case Array(fs) =>
      if start + 4 > |mem| then None else ReadManyAt(fs, FromLittleEndian(mem[start..start + 4]), mem, start + 4)
    case Message(fs) => ReadManyAt(fs, |fs.types|, mem, start)
  }

  function ReadManyAt(fs: Fields, n: nat, mem: seq<byte>, start: nat): (r: Option<(Value, nat)>)
    requires start <= |mem|
    requires forall k :: 0 <= k < n ==> HasType(fs, k) && Supported(TypeAt(fs, k))
    ensures r.Some? ==> start <= r.value.1 <= |mem| && r.value.0.Many? && |r.value.0.items| == n
    decreases fs, n
  {
    if n == 0 then Some((Many([]), start))
    else
      match ReadManyAt(fs, n - 1, mem, start)
      case None => None
      case Some(prior) =>
        match ReadAt(TypeAt(fs, n - 1), mem, prior.1)
        case None => None
        case Some(item) => Some((Many(prior.0.items + [item.0]), item.1))
  }

  predicate NulFree(v: Value) {
    match v
    case Num(_) => true
    case Str(text) => 0 !in text
    case Many(items) => forall k :: 0 <= k < |items| ==> NulFree(items[k])
  }

  lemma {:induction false} NumberRoundTrip(bs: seq<byte>)
    ensures LittleEndian(FromLittleEndian(bs), |bs|) == bs
  {
    if bs != [] {
      NumberRoundTrip(bs[1..]);
      LowByteAndRest(bs[0] as nat, FromLittleEndian(bs[1..]));
      assert bs == [bs[0]] + bs[1..];
    }
  }

  lemma LowByteAndRest(b: nat, rest: nat)
    requires b < 256
    ensures (b + 256 * rest) % 256 == b && (b + 256 * rest) / 256 == rest
  {
  }

  lemma JoinSlices(mem: seq<byte>, a: nat, b: nat, c: nat)
    requires a <= b <= c <= |mem|
    ensures mem[a..c] == mem[a..b] + mem[b..c]
  {
  }

  lemma LengthFits(bs: seq<byte>)
    requires |bs| == 4
    ensures FromLittleEndian(bs) < LENGTHS && LittleEndian(FromLittleEndian(bs), 4) == bs
  {
    FromLittleEndianFits(bs);
    NumberRoundTrip(bs);
    assert Pow256(4) == 256 * (256 * (256 * (256 * Pow256(0))));
  }

  /** Whatever can be read without a NUL in its texts is the encoding of what is read. */
  lemma {:induction false} ReadIsEncoding(t: Type, mem: seq<byte>, start: nat)
    requires Supported(t) && start <= |mem| && ReadAt(t, mem, start).Some? && NulFree(ReadAt(t, mem, start).value.0)
    ensures var (v, next) := ReadAt(t, mem, start).value;
            Fits(t, v) && mem[start..next] == Encode(t, v)
    decreases t, 0
  {
    match t {
      case Prim(width) =>
        NumberRoundTrip(mem[start..start + width]);
        FromLittleEndianFits(mem[start..start + width]);
      case Text =>
        LengthFits(mem[start..start + 4]);
        JoinSlices(mem, start, start + 4, ReadAt(t, mem, start).value.1);
      case Array(fs) =>
        var n := FromLittleEndian(mem[start..start + 4]);
        LengthFits(mem[start..start + 4]);
        ReadManyIsEncoding(fs, n, mem, start + 4);
        JoinSlices(mem, start, start + 4, ReadAt(t, mem, start).value.1);
      case Message(fs) => ReadManyIsEncoding(fs, |fs.types|, mem, start);
    }
  }

  lemma {:induction false} ReadManyIsEncoding(fs: Fields, n: nat, mem: seq<byte>, start: nat)
    requires start <= |mem| && AllSupported(fs, n)
    requires ReadManyAt(fs, n, mem, start).Some? && NulFree(ReadManyAt(fs, n, mem, start).value.0)
    ensures var (v, next) := ReadManyAt(fs, n, mem, start).value;
            AllFit(fs, v.items) && mem[start..next] == EncodeMany(fs, v.items, n)
    decreases fs, n
  {
    if n > 0 {
      var prior := ReadManyAt(fs, n - 1, mem, start).value;
      var item := ReadAt(TypeAt(fs, n - 1), mem, prior.1).value;
      InitIsNulFree(prior.0.items, item.0);
      ReadManyIsEncoding(fs, n - 1, mem, start);
      ReadIsEncoding(TypeAt(fs, n - 1), mem, prior.1);
      JoinSlices(mem, start, prior.1, item.1);
      EncodeOneMore(fs, prior.0.items, item.0);
    }
  }

  lemma InitIsNulFree(vs: seq<Value>, v: Value)
    requires NulFree(Many(vs + [v]))
    ensures NulFree(Many(vs)) && NulFree(v)
  {
    var all := vs + [v];
    assert all[|vs|] == v && forall k :: 0 <= k < |vs| ==> all[k] == vs[k];
  }

  lemma EncodeOneMore(fs: Fields, vs: seq<Value>, v: Value)
    requires AllFit(fs, vs) && HasType(fs, |vs|) && Fits(TypeAt(fs, |vs|), v)
    ensures AllFit(fs, vs + [v])
    ensures EncodeMany(fs, vs + [v], |vs| + 1) == EncodeMany(fs, vs, |vs|) + Encode(TypeAt(fs, |vs|), v)
  {
    var all := vs + [v];
    assert all[|vs|] == v && forall k :: 0 <= k < |vs| ==> all[k] == vs[k];
    EncodeManyPrefix(fs, vs, all, |vs|);
  }

  lemma {:induction false} EncodeManyPrefix(fs: Fields, vs: seq<Value>, ws: seq<Value>, n: nat)
    requires n <= |vs| && n <= |ws| && AllFit(fs, vs) && AllFit(fs, ws) && vs[..n] == ws[..n]
    ensures EncodeMany(fs, vs, n) == EncodeMany(fs, ws, n)
  {
    if n > 0 {
      assert vs[n - 1] == vs[..n][n - 1] && ws[n - 1] == ws[..n][n - 1];
      assert vs[..n - 1] == vs[..n][..n - 1] && ws[..n - 1] == ws[..n][..n - 1];
      EncodeManyPrefix(fs, vs, ws, n - 1);
    }
  }

  /** The decoder accepts nothing else: what it takes, its texts free of NULs, is the encoding of what it shows. */
  lemma AcceptedIsEncoded(t: Type, mem: seq<byte>, start: nat)
    requires Supported(t) && start <= |mem| && ReadAt(t, mem, start).Some? && NulFree(ReadAt(t, mem, start).value.0)
    ensures Decode(t, mem, start).Some?
    ensures var r := Decode(t, mem, start).value;
            Fits(t, Shown(r.mem, r.view)) && mem[start..r.next] == Encode(t, Shown(r.mem, r.view))
  {
    var (v, next) := ReadAt(t, mem, start).value;
    ReadIsEncoding(t, mem, start);
    DecodeInvertsEncode(t, v, mem, start);
    var r := Decode(t, mem, start).value;
    MirrorsAreShown(r.mem, start, r.next, r.view, v);
  }

  // ---------------------------------------------------------------- decoding reads what was there

  lemma {:induction false} ReadLooksAhead(t: Type, a: seq<byte>, b: seq<byte>, start: nat)
    requires Supported(t) && start <= |a| == |b| && a[start..] == b[start..]
    ensures ReadAt(t, a, start) == ReadAt(t, b, start)
    decreases t, 0
  {
    match t {
      case Prim(width) =>
        if start + width <= |a| {
          SameAhead(a, b, start, start, start + width);
        }
      case Text =>
        if start + 4 <= |a| {
          SameAhead(a, b, start, start, start + 4);
          var len := FromLittleEndian(a[start..start + 4]);
          if start + 4 + len <= |a| {
            SameAhead(a, b, start, start + 4, start + 4 + len);
          }
        }
      case Array(fs) =>
        if start + 4 <= |a| {
          SameAhead(a, b, start, start, start + 4);
          SameTail(a, b, start, start + 4);
          ReadManyLooksAhead(fs, FromLittleEndian(a[start..start + 4]), a, b, start + 4);
        }
      case Message(fs) => ReadManyLooksAhead(fs, |fs.types|, a, b, start);
    }
  }

  lemma {:induction false} ReadManyLooksAhead(fs: Fields, n: nat, a: seq<byte>, b: seq<byte>, start: nat)
    requires start <= |a| == |b| && a[start..] == b[start..] && AllSupported(fs, n)
    ensures ReadManyAt(fs, n, a, start) == ReadManyAt(fs, n, b, start)
    decreases fs, n
  {
    if n > 0 {
      ReadManyLooksAhead(fs, n - 1, a, b, start);
      var prior := ReadManyAt(fs, n - 1, a, start);
      if prior.Some? {
        SameTail(a, b, start, prior.value.1);
        ReadLooksAhead(TypeAt(fs, n - 1), a, b, prior.value.1);
      }
    }
  }

  lemma SameAhead(a: seq<byte>, b: seq<byte>, start: nat, i: nat, j: nat)
    requires start <= i <= j <= |a| == |b| && a[start..] == b[start..]
    ensures a[i..j] == b[i..j]
  {
    SliceOfSlice(a, start, |a|, i, j);
    SliceOfSlice(b, start, |b|, i, j);
    assert a[start..|a|] == a[start..] && b[start..|b|] == b[start..];
  }

  lemma SameTail(a: seq<byte>, b: seq<byte>, start: nat, i: nat)
    requires start <= i <= |a| == |b| && a[start..] == b[start..]
    ensures a[i..] == b[i..]
  {
    assert a[i..] == a[start..][i - start..] && b[i..] == b[start..][i - start..];
  }

  /** `d` ended where `r` did, and touched nothing outside what it consumed. */
  ghost predicate Agree(mem: seq<byte>, start: nat, d: Option<Read>, r: Option<(Value, nat)>) {
    && (d.Some? <==> r.Some?)
    && (d.Some? ==> d.value.next == r.value.1 && SameOutside(mem, d.value.mem, start, d.value.next))
  }

  /** Decoding in place gets as far as reading the untouched buffer does, to the same end. */
  lemma {:induction false} DecodeReads(t: Type, mem: seq<byte>, start: nat)
    requires Supported(t) && start <= |mem|
    ensures Agree(mem, start, Decode(t, mem, start), ReadAt(t, mem, start))
    decreases t, 0
  {
    match t {
      case Prim(_) =>
      case Text =>
        if ReadAt(t, mem, start).Some? {
          ShiftStaysInside(mem, start, FromLittleEndian(mem[start..start + 4]));
        }
      case Array(fs) =>
        if start + 4 <= |mem| {
          var n := FromLittleEndian(mem[start..start + 4]);
          DecodeManyReads(fs, n, mem, start + 4);
          AgreeFromEarlier(mem, start, DecodeMany(fs, n, mem, start + 4), ReadManyAt(fs, n, mem, start + 4));
        }
      case Message(fs) => DecodeManyReads(fs, |fs.types|, mem, start);
    }
  }

  lemma AgreeFromEarlier(mem: seq<byte>, start: nat, d: Option<Read>, r: Option<(Value, nat)>)
    requires Agree(mem, start + 4, d, r)
    ensures Agree(mem, start, d, r)
  {
    if d.Some? {
      WidenOutside(mem, d.value.mem, start, start + 4, d.value.next);
    }
  }

  lemma ShiftStaysInside(mem: seq<byte>, start: nat, n: nat)
    requires start + 4 + n <= |mem|
    ensures SameOutside(mem, Shifted(mem, start + 4, n), start, start + 4 + n)
  {
  }

  lemma WidenOutside(a: seq<byte>, b: seq<byte>, lo: nat, mid: nat, hi: nat)
    requires lo <= mid && SameOutside(a, b, mid, hi)
    ensures SameOutside(a, b, lo, hi)
  {
    assert a[..lo] == a[..mid][..lo] && b[..lo] == b[..mid][..lo];
  }

  lemma {:induction false} DecodeManyReads(fs: Fields, n: nat, mem: seq<byte>, start: nat)
    requires start <= |mem| && AllSupported(fs, n)
    ensures Agree(mem, start, DecodeMany(fs, n, mem, start), ReadManyAt(fs, n, mem, start))
    decreases fs, n
  {
    if n > 0 {
      DecodeManyReads(fs, n - 1, mem, start);
      if DecodeMany(fs, n - 1, mem, start).Some? {
        DecodeReadsNext(TypeAt(fs, n - 1), mem, start, DecodeMany(fs, n - 1, mem, start).value);
      }
    }
  }

  lemma {:induction false} DecodeReadsNext(t: Type, mem: seq<byte>, start: nat, prior: Read)
    requires Supported(t) && SameOutside(mem, prior.mem, start, prior.next)
    ensures Agree(mem, start, Decode(t, prior.mem, prior.next), ReadAt(t, mem, prior.next))
    decreases t, 1
  {
    ReadLooksAhead(t, mem, prior.mem, prior.next);
    DecodeReads(t, prior.mem, prior.next);
    if Decode(t, prior.mem, prior.next).Some? {
      var item := Decode(t, prior.mem, prior.next).value;
      SameOutsideJoins(mem, prior.mem, item.mem, start, prior.next, item.next);
    }
  }
}
