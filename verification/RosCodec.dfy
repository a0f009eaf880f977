/**
 The meaning of the serialize/deserialize code that firmware/scripts/sync_ros_lib.py emits: a running
 offset into a byte buffer, and a deserializer that shifts every string left inside that buffer, over
 the last byte of its own length, and keeps a pointer to it.
 */
module RosCodec {
  import opened Basics

  /** A field type. `Prim` covers bool, the integers and the floats as their `width` raw bytes. */
  datatype Type = Prim(width: nat) | Text | Array(elems: Fields) | Message(fields: Fields)

  /** The types of a run of values: one per position for a message, the same one throughout for an array. */
  datatype Fields = Each(types: seq<Type>) | Same(elem: Type)

  datatype Value = Num(bits: nat) | Str(text: seq<byte>) | Many(items: seq<Value>)

  predicate HasType(fs: Fields, k: nat) {
    fs.Each? ==> k < |fs.types|
  }

  function TypeAt(fs: Fields, k: nat): Type
    requires HasType(fs, k)
  {
    match fs
    case Each(types) => types[k]
    case Same(elem) => elem
  }

  /** The schemas for which the emitted code is meaningful: arrays hold single bytes or messages. */
  predicate Supported(t: Type) {
    match t
    case Prim(width) => width in {1, 2, 4, 8}
    case Text => true
    case Array(fs) => fs.Same? && (fs.elem == Prim(1) || fs.elem.Message?) && Supported(fs.elem)
    case Message(fs) => fs.Each? && forall k :: 0 <= k < |fs.types| ==> Supported(fs.types[k])
  }

  const LENGTHS := 0x1_0000_0000

  /** `v` is a value the sender can hold in a field of type `t`: strings are C strings, lengths are 32-bit. */
  predicate Fits(t: Type, v: Value) {
    match t
    case Prim(width) => v.Num? && v.bits < Pow256(width)
    case Text => v.Str? && 0 !in v.text && |v.text| < LENGTHS
    case Array(fs) =>
      && v.Many? && fs.Same? && |v.items| < LENGTHS
      && forall k :: 0 <= k < |v.items| ==> Fits(fs.elem, v.items[k])
    case Message(fs) =>
      && v.Many? && fs.Each? && |v.items| == |fs.types|
      && forall k :: 0 <= k < |v.items| ==> Fits(fs.types[k], v.items[k])
  }

  // ---------------------------------------------------------------- little-endian numbers

  function Pow256(n: nat): (p: nat)
    ensures p > 0
  {
    if n == 0 then 1 else 256 * Pow256(n - 1)
  }

  function LittleEndian(bits: nat, width: nat): (bs: seq<byte>)
    ensures |bs| == width
  {
    if width == 0 then [] else [(bits % 256) as byte] + LittleEndian(bits / 256, width - 1)
  }

  function FromLittleEndian(bs: seq<byte>): nat {
    if bs == [] then 0 else bs[0] as nat + 256 * FromLittleEndian(bs[1..])
  }

  lemma {:induction false} LittleEndianRoundTrip(bits: nat, width: nat)
    requires bits < Pow256(width)
    ensures FromLittleEndian(LittleEndian(bits, width)) == bits
  {
    if width > 0 {
      LittleEndianRoundTrip(bits / 256, width - 1);
    }
  }

  lemma DivTwice(a: nat, p: nat)
    requires p > 0
    ensures a / 256 / p == a / (256 * p)
  {
    var q, r := a / 256 / p, a / 256 % p;
    assert a / 256 == q * p + r;
    assert a == 256 * (q * p + r) + a % 256;
    assert a == (256 * p) * q + (256 * r + a % 256);
    assert 0 <= 256 * r + a % 256 < 256 * p;
    Quotient(a, 256 * p, q, 256 * r + a % 256);
  }

  lemma Quotient(a: int, d: int, q: int, r: int)
    requires d > 0 && a == d * q + r && 0 <= r < d
    ensures a / d == q
  {
    var q', r' := a / d, a % d;
    assert d * q' + r' == d * q + r && 0 <= r' < d;
    SameMultiple(d, q, r, q', r');
  }

  lemma SameMultiple(d: int, q: int, r: int, q': int, r': int)
    requires d > 0 && 0 <= r < d && 0 <= r' < d && d * q' + r' == d * q + r
    ensures q == q'
  {
    if q < q' {
      assert d * (q' - q) >= d * 1 by { AtLeastOnce(d, q' - q); }
    } else if q' < q {
      assert d * (q - q') >= d * 1 by { AtLeastOnce(d, q - q'); }
    }
  }

  lemma AtLeastOnce(d: int, k: int)
    requires d > 0 && k >= 1
    ensures d * k >= d
  {
  }

  /** Byte `i` is what shifting right by 8*i and masking gives. */
  lemma {:induction false} ByteOf(bits: nat, width: nat, i: nat)
    requires i < width
    ensures LittleEndian(bits, width)[i] as nat == bits / Pow256(i) % 256
  {
    if i > 0 {
      ByteOf(bits / 256, width - 1, i - 1);
      DivTwice(bits, Pow256(i - 1));
    }
  }

  /** One more byte at the top adds its value shifted left. */
  lemma {:induction false} FromLittleEndianAppend(bs: seq<byte>, b: byte)
    ensures FromLittleEndian(bs + [b]) == FromLittleEndian(bs) + b as nat * Pow256(|bs|)
  {
    if bs == [] {
      assert bs + [b] == [b];
    } else {
      assert (bs + [b])[1..] == bs[1..] + [b];
      FromLittleEndianAppend(bs[1..], b);
      var p := Pow256(|bs| - 1);
      assert 256 * (b as nat * p) == b as nat * (256 * p);
    }
  }

  // ---------------------------------------------------------------- the wire format

  function Encode(t: Type, v: Value): seq<byte>
    requires Fits(t, v)
    decreases t, 0
  {
    match t
    case Prim(width) => LittleEndian(v.bits, width)
    case Text => LittleEndian(|v.text|, 4) + v.text
    case Array(fs) => LittleEndian(|v.items|, 4) + EncodeMany(fs, v.items, |v.items|)
    case Message(fs) => EncodeMany(fs, v.items, |v.items|)
  }

  ghost predicate AllFit(fs: Fields, vs: seq<Value>) {
    forall k :: 0 <= k < |vs| ==> HasType(fs, k) && Fits(TypeAt(fs, k), vs[k])
  }

  /** The first `n` values one after the other. */
  function EncodeMany(fs: Fields, vs: seq<Value>, n: nat): seq<byte>
    requires n <= |vs|
    requires forall k :: 0 <= k < |vs| ==> HasType(fs, k) && Fits(TypeAt(fs, k), vs[k])
    decreases fs, n
  {
    if n == 0 then [] else EncodeMany(fs, vs, n - 1) + Encode(TypeAt(fs, n - 1), vs[n - 1])
  }

  /** Dropping later values does not shorten what the earlier ones take. */
  lemma {:induction false} EncodeManyGrows(fs: Fields, vs: seq<Value>, m: nat, n: nat)
    requires m <= n <= |vs| && AllFit(fs, vs)
    ensures |EncodeMany(fs, vs, m)| <= |EncodeMany(fs, vs, n)|
  {
    if m < n {
      EncodeManyGrows(fs, vs, m, n - 1);
    }
  }

  // ---------------------------------------------------------------- the wire format, byte by byte

  /** How many bytes a value takes. */
  function Size(t: Type, v: Value): nat
    requires Fits(t, v)
    decreases t, 0
  {
    match t
    case Prim(width) => width
    case Text => 4 + |v.text|
    case Array(fs) => 4 + SizeMany(fs, v.items, |v.items|)
    case Message(fs) => SizeMany(fs, v.items, |v.items|)
  }

  function SizeMany(fs: Fields, vs: seq<Value>, n: nat): nat
    requires n <= |vs|
    requires forall k :: 0 <= k < |vs| ==> HasType(fs, k) && Fits(TypeAt(fs, k), vs[k])
    decreases fs, n
  {
    if n == 0 then 0 else SizeMany(fs, vs, n - 1) + Size(TypeAt(fs, n - 1), vs[n - 1])
  }

  /** The four length bytes, the lowest first. */
  ghost predicate CountAt(mem: seq<byte>, at: nat, n: nat) {
    && at + 4 <= |mem|
    && mem[at] as nat == n % 256 && mem[at + 1] as nat == n / 256 % 256
    && mem[at + 2] as nat == n / 65536 % 256 && mem[at + 3] as nat == n / 16777216 % 256
  }

  /**
   Where every byte of a value lies: byte `i` of a number is the number shifted right by 8*i and masked, a
   text stands behind its length and nothing ends it, and the parts of an array (behind its count) or of a
   message follow one another in order.
   */
  ghost predicate Layout(t: Type, v: Value, mem: seq<byte>, at: nat)
    requires Fits(t, v)
    decreases t, 0
  {
    && at + Size(t, v) <= |mem|
    && match t
       case Prim(width) => forall i :: 0 <= i < width ==> mem[at + i] as nat == v.bits / Pow256(i) % 256
       case Text => CountAt(mem, at, |v.text|) && mem[at + 4..at + 4 + |v.text|] == v.text
       case Array(fs) => CountAt(mem, at, |v.items|) && PartsAt(fs, v.items, mem, at + 4)
       case Message(fs) => PartsAt(fs, v.items, mem, at)
  }

  /** Each part lies behind all the parts before it. */
  ghost predicate PartsAt(fs: Fields, vs: seq<Value>, mem: seq<byte>, at: nat)
    requires forall k :: 0 <= k < |vs| ==> HasType(fs, k) && Fits(TypeAt(fs, k), vs[k])
    decreases fs, 0
  {
    forall k: nat :: k < |vs| ==> Layout(TypeAt(fs, k), vs[k], mem, at + SizeMany(fs, vs, k))
  }

  lemma {:induction false} EncodedSize(t: Type, v: Value)
    requires Fits(t, v)
    ensures |Encode(t, v)| == Size(t, v)
    decreases t, 0
  {
    match t {
      case Prim(_) =>
      case Text =>
      case Array(fs) => EncodedSizeMany(fs, v.items, |v.items|);
      case Message(fs) => EncodedSizeMany(fs, v.items, |v.items|);
    }
  }

  lemma {:induction false} EncodedSizeMany(fs: Fields, vs: seq<Value>, n: nat)
    requires n <= |vs| && AllFit(fs, vs)
    ensures |EncodeMany(fs, vs, n)| == SizeMany(fs, vs, n)
    decreases fs, n
  {
    if n > 0 {
      EncodedSizeMany(fs, vs, n - 1);
      EncodedSize(TypeAt(fs, n - 1), vs[n - 1]);
    }
  }

  lemma LengthBytes(n: nat, mem: seq<byte>, at: nat)
    requires at + 4 <= |mem| && mem[at..at + 4] == LittleEndian(n, 4)
    ensures CountAt(mem, at, n)
  {
    var bs := mem[at..at + 4];
    assert mem[at] == bs[0] && mem[at + 1] == bs[1] && mem[at + 2] == bs[2] && mem[at + 3] == bs[3];
    ByteOf(n, 4, 0);
    ByteOf(n, 4, 1);
    ByteOf(n, 4, 2);
    ByteOf(n, 4, 3);
    assert Pow256(1) == 256 && Pow256(2) == 65536 && Pow256(3) == 16777216;
  }

  lemma NumberBytes(bits: nat, width: nat, mem: seq<byte>, at: nat)
    requires at + width <= |mem| && mem[at..at + width] == LittleEndian(bits, width)
    ensures forall i :: 0 <= i < width ==> mem[at + i] as nat == bits / Pow256(i) % 256
  {
    forall i | 0 <= i < width ensures mem[at + i] as nat == bits / Pow256(i) % 256 {
      ByteOf(bits, width, i);
      assert mem[at + i] == mem[at..at + width][i];
    }
  }

  lemma PrefixThenBody(mem: seq<byte>, at: nat, prefix: seq<byte>, body: seq<byte>)
    requires at + |prefix| + |body| <= |mem| && mem[at..at + |prefix| + |body|] == prefix + body
    ensures mem[at..at + |prefix|] == prefix && mem[at + |prefix|..at + |prefix| + |body|] == body
  {
    var whole := mem[at..at + |prefix| + |body|];
    assert mem[at..at + |prefix|] == whole[..|prefix|];
    assert mem[at + |prefix|..at + |prefix| + |body|] == whole[|prefix|..];
  }

  /** Encodings are laid out as described. */
  lemma {:induction false} EncodedLayout(t: Type, v: Value, mem: seq<byte>, at: nat)
    requires Fits(t, v) && at + |Encode(t, v)| <= |mem| && mem[at..at + |Encode(t, v)|] == Encode(t, v)
    ensures Layout(t, v, mem, at)
    decreases t, 0
  {
    match t {
      case Prim(width) => NumberBytes(v.bits, width, mem, at);
      case Text => EncodedText(v.text, mem, at);
      case Array(fs) =>
        PrefixThenBody(mem, at, LittleEndian(|v.items|, 4), EncodeMany(fs, v.items, |v.items|));
        LengthBytes(|v.items|, mem, at);
        EncodedParts(fs, v.items, mem, at + 4);
        EncodedSizeMany(fs, v.items, |v.items|);
      case Message(fs) =>
        EncodedParts(fs, v.items, mem, at);
        EncodedSizeMany(fs, v.items, |v.items|);
    }
  }

  lemma EncodedText(text: seq<byte>, mem: seq<byte>, at: nat)
    requires Fits(Text, Str(text)) && at + 4 + |text| <= |mem|
    requires mem[at..at + 4 + |text|] == LittleEndian(|text|, 4) + text
    ensures Layout(Text, Str(text), mem, at)
  {
    PrefixThenBody(mem, at, LittleEndian(|text|, 4), text);
    LengthBytes(|text|, mem, at);
  }

  lemma {:induction false} EncodedParts(fs: Fields, vs: seq<Value>, mem: seq<byte>, at: nat)
    requires AllFit(fs, vs) && at + |EncodeMany(fs, vs, |vs|)| <= |mem|
    requires mem[at..at + |EncodeMany(fs, vs, |vs|)|] == EncodeMany(fs, vs, |vs|)
    ensures PartsAt(fs, vs, mem, at)
    decreases fs, |vs| + 1
  {
    forall k: nat | k < |vs| ensures Layout(TypeAt(fs, k), vs[k], mem, at + SizeMany(fs, vs, k)) {
      EncodedPart(fs, vs, |vs|, k, mem, at);
    }
  }

  lemma {:induction false} EncodedPart(fs: Fields, vs: seq<Value>, n: nat, k: nat, mem: seq<byte>, at: nat)
    requires k < n <= |vs| && AllFit(fs, vs) && at + |EncodeMany(fs, vs, n)| <= |mem|
    requires mem[at..at + |EncodeMany(fs, vs, n)|] == EncodeMany(fs, vs, n)
    ensures Layout(TypeAt(fs, k), vs[k], mem, at + SizeMany(fs, vs, k))
    decreases fs, n
  {
    var head, last := EncodeMany(fs, vs, n - 1), Encode(TypeAt(fs, n - 1), vs[n - 1]);
    PrefixThenBody(mem, at, head, last);
    if k == n - 1 {
      EncodedSizeMany(fs, vs, k);
      EncodedLayout(TypeAt(fs, k), vs[k], mem, at + |head|);
    } else {
      EncodedPart(fs, vs, n - 1, k, mem, at);
    }
  }

  // ---------------------------------------------------------------- serialize

  predicate SameOutside(was: seq<byte>, now: seq<byte>, lo: nat, hi: nat) {
    && |was| == |now| && lo <= hi <= |was|
    && was[..lo] == now[..lo] && was[hi..] == now[hi..]
  }

  lemma SameOutsideJoins(a: seq<byte>, b: seq<byte>, c: seq<byte>, lo: nat, mid: nat, hi: nat)
    requires SameOutside(a, b, lo, mid) && SameOutside(b, c, mid, hi)
    ensures SameOutside(a, c, lo, hi) && b[lo..mid] == c[lo..mid]
    ensures a[mid..] == b[mid..] && c[lo..hi] == b[lo..mid] + c[mid..hi]
  {
    assert c[..lo] == c[..mid][..lo] && b[..mid][..lo] == b[..lo];
    assert b[hi..] == b[mid..][hi - mid..] && a[hi..] == a[mid..][hi - mid..];
    assert b[lo..mid] == b[..mid][lo..] && c[lo..mid] == c[..mid][lo..];
  }

  /** `offset + i` receives byte `i`, for every byte of a number. */
  method WriteNumber(bits: nat, width: nat, buf: array<byte>, offset: nat) returns (next: nat)
    requires offset + width <= buf.Length
    modifies buf
    ensures next == offset + width && SameOutside(old(buf[..]), buf[..], offset, next)
    ensures buf[offset..next] == LittleEndian(bits, width)
  {
    for i := 0 to width
      invariant buf[..offset] == old(buf[..offset]) && buf[offset + width..] == old(buf[offset + width..])
      invariant buf[offset..offset + i] == LittleEndian(bits, width)[..i]
    {
      ByteOf(bits, width, i);
      buf[offset + i] := (bits / Pow256(i) % 256) as byte;
      assert LittleEndian(bits, width)[..i + 1] == LittleEndian(bits, width)[..i] + [buf[offset + i]];
    }
    next := offset + width;
    assert buf[..] == buf[..offset] + buf[offset..next] + buf[next..];
  }

  method CopyText(text: seq<byte>, buf: array<byte>, offset: nat)
    requires offset + |text| <= buf.Length
    modifies buf
    ensures SameOutside(old(buf[..]), buf[..], offset, offset + |text|) && buf[offset..offset + |text|] == text
  {
    forall i | 0 <= i < |text| {
      buf[offset + i] := text[i];
    }
  }

  method Serialize(t: Type, v: Value, buf: array<byte>, start: nat) returns (next: nat)
    requires Fits(t, v) && start + |Encode(t, v)| <= buf.Length
    modifies buf
    ensures next == start + |Encode(t, v)| && SameOutside(old(buf[..]), buf[..], start, next)
    ensures buf[start..next] == Encode(t, v)
    ensures next == start + Size(t, v) && Layout(t, v, buf[..], start)
    ensures t.Text? ==>
              && next == start + 4 + |v.text| && CountAt(buf[..], start, |v.text|) && buf[start + 4..next] == v.text
    ensures t.Prim? ==>
              && next == start + t.width
              && forall i :: 0 <= i < t.width ==> buf[start + i] as nat == v.bits / Pow256(i) % 256
    ensures t.Array? ==> CountAt(buf[..], start, |v.items|)
    decreases t, 0
  {
    next := SerializeBytes(t, v, buf, start);
    EncodedSize(t, v);
    assert buf[..][start..next] == buf[start..next];
    EncodedLayout(t, v, buf[..], start);
  }

  /** The statements emitted for one field. */
  method SerializeBytes(t: Type, v: Value, buf: array<byte>, start: nat) returns (next: nat)
    requires Fits(t, v) && start + |Encode(t, v)| <= buf.Length
    modifies buf
    ensures next == start + |Encode(t, v)| && SameOutside(old(buf[..]), buf[..], start, next)
    ensures buf[start..next] == Encode(t, v)
    decreases t, 0
  {
    match t {
      case Prim(width) =>
        next := WriteNumber(v.bits, width, buf, start);
      case Text =>
        var offset := WriteNumber(|v.text|, 4, buf, start);
        ghost var mid := buf[..];
        CopyText(v.text, buf, offset);
        next := offset + |v.text|;
        SameOutsideJoins(old(buf[..]), mid, buf[..], start, offset, next);
      case Array(fs) =>
        var offset := WriteNumber(|v.items|, 4, buf, start);
        ghost var mid := buf[..];
        next := SerializeMany(fs, v.items, buf, offset);
        SameOutsideJoins(old(buf[..]), mid, buf[..], start, offset, next);
      case Message(fs) =>
        next := SerializeMany(fs, v.items, buf, start);
    }
  }

  /** Field after field of a message, or element after element of an array. */
  method SerializeMany(fs: Fields, vs: seq<Value>, buf: array<byte>, start: nat) returns (next: nat)
    requires forall k :: 0 <= k < |vs| ==> HasType(fs, k) && Fits(TypeAt(fs, k), vs[k])
    requires start + |EncodeMany(fs, vs, |vs|)| <= buf.Length
    modifies buf
    ensures next == start + |EncodeMany(fs, vs, |vs|)| && SameOutside(old(buf[..]), buf[..], start, next)
    ensures buf[start..next] == EncodeMany(fs, vs, |vs|)
    decreases fs, |vs|
  {
    next := start;
    for i := 0 to |vs|
      invariant next == start + |EncodeMany(fs, vs, i)| <= buf.Length
      invariant SameOutside(old(buf[..]), buf[..], start, next)
      invariant buf[start..next] == EncodeMany(fs, vs, i)
    {
      EncodeManyGrows(fs, vs, i + 1, |vs|);
      ghost var before, mid := buf[..], next;
      next := SerializeBytes(TypeAt(fs, i), vs[i], buf, next);
      SameOutsideJoins(old(buf[..]), before, buf[..], start, mid, next);
    }
  }

  // ---------------------------------------------------------------- deserialize

  /** What the receiver's fields hold: numbers by value, strings as addresses in the receive buffer. */
  datatype View = VNum(bits: nat) | VStr(at: nat) | VMany(items: seq<View>)

  datatype Read = Read(mem: seq<byte>, view: View, next: nat)

  /** The buffer after a string of `len` bytes at `offset` moved one byte down and was terminated. */
  function Shifted(mem: seq<byte>, offset: nat, len: nat): (r: seq<byte>)
    requires 0 < offset && offset + len <= |mem|
    ensures |r| == |mem|
  {
    mem[..offset - 1] + mem[offset..offset + len] + [0] + mem[offset + len..]
  }

  /** In-place decoding at `start`, or None when a length leads outside the buffer. */
  function Decode(t: Type, mem: seq<byte>, start: nat): (r: Option<Read>)
    requires Supported(t) && start <= |mem|
    ensures r.Some? ==> |r.value.mem| == |mem| && start <= r.value.next <= |mem|
    decreases t, 0
  {
    match t
    case Prim(width) =>
      if start + width > |mem| then None
      else Some(Read(mem, VNum(FromLittleEndian(mem[start..start + width])), start + width))
    case Text =>
      if start + 4 > |mem| then None
      else
        var len := FromLittleEndian(mem[start..start + 4]);
        if start + 4 + len > |mem| then None
        else Some(Read(Shifted(mem, start + 4, len), VStr(start + 3), start + 4 + len))
    case Array(fs) =>
      if start + 4 > |mem| then None
      else DecodeMany(fs, FromLittleEndian(mem[start..start + 4]), mem, start + 4)
    case Message(fs) => DecodeMany(fs, |fs.types|, mem, start)
  }

  ghost predicate AllSupported(fs: Fields, n: nat) {
    forall k :: 0 <= k < n ==> HasType(fs, k) && Supported(TypeAt(fs, k))
  }

  function DecodeMany(fs: Fields, n: nat, mem: seq<byte>, start: nat): (r: Option<Read>)
    requires start <= |mem|
    requires forall k :: 0 <= k < n ==> HasType(fs, k) && Supported(TypeAt(fs, k))
    ensures r.Some? ==>
              |r.value.mem| == |mem| && start <= r.value.next <= |mem|
              && r.value.view.VMany? && |r.value.view.items| == n
    decreases fs, n
  {
    if n == 0 then Some(Read(mem, VMany([]), start))
    else
      match DecodeMany(fs, n - 1, mem, start)
      case None => None
      case Some(prior) =>
        match Decode(TypeAt(fs, n - 1), prior.mem, prior.next)
        case None => None
        case Some(item) => Some(Read(item.mem, VMany(prior.view.items + [item.view]), item.next))
  }

  /** Once a decode ran out of the buffer, decoding more items does too. */
  lemma {:induction false} DecodeManyStops(fs: Fields, m: nat, n: nat, mem: seq<byte>, start: nat)
    requires m <= n && start <= |mem| && AllSupported(fs, n)
    requires DecodeMany(fs, n, mem, start).Some?
    ensures DecodeMany(fs, m, mem, start).Some?
  {
    if m < n {
      DecodeManyStops(fs, m, n - 1, mem, start);
    }
  }

  // ---------------------------------------------------------------- deserialize, step by step

  /** Bitwise or. */
  function Or(a: nat, b: nat): nat
    decreases a + b
  {
    if a == 0 && b == 0 then 0 else (if a % 2 == 1 || b % 2 == 1 then 1 else 0) + 2 * Or(a / 2, b / 2)
  }

  function Pow2(k: nat): (p: nat)
    ensures p > 0
  {
    if k == 0 then 1 else 2 * Pow2(k - 1)
  }

  lemma {:induction false} OrZero(b: nat)
    ensures Or(0, b) == b
  {
    if b > 0 {
      OrZero(b / 2);
    }
  }

  /** Or-ing in a number shifted past all bits of `a` adds it. */
  lemma {:induction false} OrShiftedAdds(a: nat, b: nat, k: nat)
    requires a < Pow2(k)
    ensures Or(a, b * Pow2(k)) == a + b * Pow2(k)
  {
    if k == 0 {
      OrZero(b);
    } else {
      var p := Pow2(k - 1);
      assert b * Pow2(k) == 2 * (b * p);
      OrShiftedAdds(a / 2, b, k - 1);
      OrEven(a, b * p);
    }
  }

  lemma OrEven(a: nat, c: nat)
    ensures Or(a, 2 * c) == a % 2 + 2 * Or(a / 2, c)
  {
    if a == 0 && c == 0 {
      assert Or(0, 0) == 0;
    }
  }

  lemma {:induction false} BytesAreBits(n: nat)
    ensures Pow256(n) == Pow2(8 * n)
  {
    if n > 0 {
      BytesAreBits(n - 1);
      var k := 8 * n - 8;
      assert Pow2(k + 2) == 2 * Pow2(k + 1) == 4 * Pow2(k);
      assert Pow2(k + 4) == 2 * Pow2(k + 3) == 4 * Pow2(k + 2);
      assert Pow2(k + 6) == 2 * Pow2(k + 5) == 4 * Pow2(k + 4);
      assert Pow2(k + 8) == 2 * Pow2(k + 7) == 4 * Pow2(k + 6);
    }
  }

  lemma {:induction false} FromLittleEndianFits(bs: seq<byte>)
    ensures FromLittleEndian(bs) < Pow256(|bs|)
  {
    if bs != [] {
      FromLittleEndianFits(bs[1..]);
    }
  }

  /** The bytes read so far occupy the lower 8*i bits, so or-ing in the next one extends the number. */
  lemma OrNextByte(bs: seq<byte>, b: byte)
    ensures Or(FromLittleEndian(bs), b as nat * Pow256(|bs|)) == FromLittleEndian(bs + [b])
  {
    FromLittleEndianFits(bs);
    BytesAreBits(|bs|);
    OrShiftedAdds(FromLittleEndian(bs), b as nat, 8 * |bs|);
    FromLittleEndianAppend(bs, b);
  }

  method ReadNumber(buf: array<byte>, offset: nat, width: nat) returns (bits: nat)
    requires offset + width <= buf.Length
    ensures bits == FromLittleEndian(buf[offset..offset + width])
  {
    bits := 0;
    for i := 0 to width
      invariant bits == FromLittleEndian(buf[offset..offset + i])
    {
      assert buf[offset..offset + i + 1] == buf[offset..offset + i] + [buf[offset + i]];
      OrNextByte(buf[offset..offset + i], buf[offset + i]);
      bits := Or(bits, buf[offset + i] as nat * Pow256(i));
    }
  }

  method ShiftText(buf: array<byte>, offset: nat, len: nat)
    requires 0 < offset && offset + len <= buf.Length
    modifies buf
    ensures buf[..] == Shifted(old(buf[..]), offset, len)
  {
    ghost var was := buf[..];
    for k := offset to offset + len
      invariant forall j :: 0 <= j < offset - 1 || k - 1 <= j < buf.Length ==> buf[j] == was[j]
      invariant forall j :: offset - 1 <= j < k - 1 ==> buf[j] == was[j + 1]
    {
      buf[k - 1] := buf[k];
    }
    buf[offset + len - 1] := 0;
  }

  method Deserialize(t: Type, buf: array<byte>, start: nat) returns (view: View, next: nat)
    requires Supported(t) && start <= buf.Length && Decode(t, buf[..], start).Some?
    modifies buf
    ensures Decode(t, old(buf[..]), start) == Some(Read(buf[..], view, next))
    decreases t, 0
  {
    match t {
      case Prim(width) =>
        var bits := ReadNumber(buf, start, width);
        assert buf[..][start..start + width] == buf[start..start + width];
        return VNum(bits), start + width;
      case Text =>
        assert buf[..][start..start + 4] == buf[start..start + 4];
        var len := ReadNumber(buf, start, 4);
        ShiftText(buf, start + 4, len);
        return VStr(start + 3), start + 4 + len;
      case Array(fs) =>
        assert buf[..][start..start + 4] == buf[start..start + 4];
        var n := ReadNumber(buf, start, 4);
        view, next := DeserializeMany(fs, n, buf, start + 4);
      case Message(fs) =>
        view, next := DeserializeMany(fs, |fs.types|, buf, start);
    }
  }

  lemma DecodeOneMore(fs: Fields, i: nat, was: seq<byte>, start: nat, prior: Read)
    requires start <= |was| && AllSupported(fs, i + 1) && prior.view.VMany?
    requires DecodeMany(fs, i, was, start) == Some(prior) && DecodeMany(fs, i + 1, was, start).Some?
    ensures var item := Decode(TypeAt(fs, i), prior.mem, prior.next);
            && item.Some?
            && DecodeMany(fs, i + 1, was, start)
               == Some(Read(item.value.mem, VMany(prior.view.items + [item.value.view]), item.value.next))
  {
  }

  method DeserializeMany(fs: Fields, n: nat, buf: array<byte>, start: nat) returns (view: View, next: nat)
    requires start <= buf.Length
    requires forall k :: 0 <= k < n ==> HasType(fs, k) && Supported(TypeAt(fs, k))
    requires DecodeMany(fs, n, buf[..], start).Some?
    modifies buf
    ensures DecodeMany(fs, n, old(buf[..]), start) == Some(Read(buf[..], view, next))
    decreases fs, n
  {
    ghost var was := buf[..];
    var items := [];
    next := start;
    for i := 0 to n
      invariant DecodeMany(fs, i, was, start) == Some(Read(buf[..], VMany(items), next))
    {
      DecodeManyStops(fs, i + 1, n, was, start);
      DecodeOneMore(fs, i, was, start, Read(buf[..], VMany(items), next));
      var item;
      item, next := Deserialize(TypeAt(fs, i), buf, next);
      items := items + [item];
    }
    view := VMany(items);
  }

  // ---------------------------------------------------------------- reading the result back

  /** The C string at an address. */
  function CString(mem: seq<byte>, at: nat): seq<byte>
    decreases |mem| - at
  {
    if at >= |mem| || mem[at] == 0 then [] else [mem[at]] + CString(mem, at + 1)
  }

  /** The values the receiver's fields show when its strings are read from the buffer `mem`. */
  function Shown(mem: seq<byte>, view: View): Value {
    match view
    case VNum(bits) => Num(bits)
    case VStr(at) => Str(CString(mem, at))
    case VMany(items) => Many(seq(|items|, k requires 0 <= k < |items| => Shown(mem, items[k])))
  }

  /** Every string of `view` lies, with its terminator, inside [lo, hi) and holds the text of `v`. */
  ghost predicate Mirrors(mem: seq<byte>, lo: nat, hi: nat, view: View, v: Value)
    requires lo <= hi <= |mem|
  {
    match view
    case VNum(bits) => v == Num(bits)
    case VStr(at) =>
      && v.Str? && 0 !in v.text && lo <= at && at + |v.text| < hi
      && mem[at..at + |v.text|] == v.text && mem[at + |v.text|] == 0
    case VMany(items) =>
      && v.Many? && |v.items| == |items|
      && forall k :: 0 <= k < |items| ==> Mirrors(mem, lo, hi, items[k], v.items[k])
  }

  lemma {:induction false} CStringIs(mem: seq<byte>, at: nat, text: seq<byte>)
    requires at + |text| < |mem| && mem[at..at + |text|] == text && mem[at + |text|] == 0 && 0 !in text
    ensures CString(mem, at) == text
    decreases |text|
  {
    if text != [] {
      assert mem[at] == text[0] && text[0] in text;
      assert mem[at + 1..at + |text|] == text[1..];
      CStringIs(mem, at + 1, text[1..]);
    }
  }

  lemma {:induction false} MirrorsAreShown(mem: seq<byte>, lo: nat, hi: nat, view: View, v: Value)
    requires lo <= hi <= |mem| && Mirrors(mem, lo, hi, view, v)
    ensures Shown(mem, view) == v
  {
    match view {
      case VNum(bits) =>
      case VStr(at) => CStringIs(mem, at, v.text);
      case VMany(items) =>
        forall k | 0 <= k < |items| ensures Shown(mem, items[k]) == v.items[k] {
          MirrorsAreShown(mem, lo, hi, items[k], v.items[k]);
        }
    }
  }

  lemma SliceOfSlice<T>(s: seq<T>, lo: nat, hi: nat, i: nat, j: nat)
    requires lo <= i <= j <= hi <= |s|
    ensures s[i..j] == s[lo..hi][i - lo..j - lo]
  {
    var part, whole := s[i..j], s[lo..hi];
    assert |whole[i - lo..j - lo]| == |part|;
    forall k | 0 <= k < |part| ensures part[k] == whole[i - lo..j - lo][k] {
      assert whole[i - lo + k] == s[i + k];
    }
  }

  /** A change outside [lo, hi) does not disturb strings inside it. */
  lemma {:induction false} MirrorsSurvive(
    mem: seq<byte>, mem': seq<byte>, lo: nat, hi: nat, lo': nat, hi': nat, view: View, v: Value)
    requires lo' <= lo <= hi <= hi' <= |mem| == |mem'|
    requires mem[lo..hi] == mem'[lo..hi] && Mirrors(mem, lo, hi, view, v)
    ensures Mirrors(mem', lo', hi', view, v)
    decreases view
  {
    match view {
      case VNum(bits) =>
      case VStr(at) =>
        var n := |v.text|;
        SliceOfSlice(mem, lo, hi, at, at + n);
        SliceOfSlice(mem', lo, hi, at, at + n);
        assert mem[at + n] == mem[lo..hi][at + n - lo] && mem'[at + n] == mem'[lo..hi][at + n - lo];
      case VMany(items) =>
        forall k | 0 <= k < |items| ensures Mirrors(mem', lo', hi', items[k], v.items[k]) {
          MirrorsSurvive(mem, mem', lo, hi, lo', hi', items[k], v.items[k]);
        }
    }
  }

  /** `r` decoded `v`: it consumed [start, next), changed nothing else, and every string still reads. */
  ghost predicate Faithful(mem: seq<byte>, start: nat, size: nat, r: Option<Read>, v: Value) {
    && r.Some? && r.value.next == start + size && SameOutside(mem, r.value.mem, start, r.value.next)
    && Mirrors(r.value.mem, start, r.value.next, r.value.view, v)
  }

  lemma ShiftedTextReads(mem: seq<byte>, start: nat, text: seq<byte>, now: seq<byte>)
    requires start + 4 + |text| <= |mem| && mem[start + 4..start + 4 + |text|] == text && 0 !in text
    requires now == Shifted(mem, start + 4, |text|)
    ensures Faithful(mem, start, 4 + |text|, Some(Read(now, VStr(start + 3), start + 4 + |text|)), Str(text))
  {
    assert now[start + 3..start + 3 + |text|] == text;
    assert now[..start] == mem[..start];
  }

  lemma LengthPrefix(n: nat, body: seq<byte>, mem: seq<byte>, start: nat)
    requires n < LENGTHS && start + 4 + |body| <= |mem|
    requires mem[start..start + 4 + |body|] == LittleEndian(n, 4) + body
    ensures FromLittleEndian(mem[start..start + 4]) == n && mem[start + 4..start + 4 + |body|] == body
  {
    var whole := mem[start..start + 4 + |body|];
    assert mem[start..start + 4] == whole[..4] && mem[start + 4..start + 4 + |body|] == whole[4..];
    assert Pow256(4) == 256 * (256 * (256 * (256 * Pow256(0))));
    LittleEndianRoundTrip(n, 4);
  }

  /** Decoding in place what was encoded gives back every field, wherever in the buffer it lies. */
  lemma {:induction false} DecodeInvertsEncode(t: Type, v: Value, mem: seq<byte>, start: nat)
    requires Supported(t) && Fits(t, v) && start + |Encode(t, v)| <= |mem|
    requires mem[start..start + |Encode(t, v)|] == Encode(t, v)
    ensures Faithful(mem, start, |Encode(t, v)|, Decode(t, mem, start), v)
    decreases t, 0
  {
    match t {
      case Prim(width) =>
        LittleEndianRoundTrip(v.bits, width);
      case Text =>
        DecodeInvertsText(v.text, mem, start);
      case Array(fs) =>
        DecodeInvertsArray(fs, v.items, mem, start);
      case Message(fs) =>
        DecodeInvertsEncodeMany(fs, v.items, |v.items|, mem, start);
        assert v.items[..|v.items|] == v.items;
    }
  }

  /** What was decoded behind a length of four bytes is also decoded from where that length starts. */
  lemma FaithfulFromEarlier(mem: seq<byte>, start: nat, size: nat, r: Option<Read>, v: Value)
    requires Faithful(mem, start + 4, size, r, v)
    ensures Faithful(mem, start, 4 + size, r, v)
  {
    var now, next := r.value.mem, r.value.next;
    assert now[..start] == now[..start + 4][..start] && mem[..start] == mem[..start + 4][..start];
    MirrorsSurvive(now, now, start + 4, next, start, next, r.value.view, v);
  }

  lemma DecodeInvertsText(text: seq<byte>, mem: seq<byte>, start: nat)
    requires |text| < LENGTHS && 0 !in text && start + 4 + |text| <= |mem|
    requires mem[start..start + 4 + |text|] == LittleEndian(|text|, 4) + text
    ensures Faithful(mem, start, 4 + |text|, Decode(Text, mem, start), Str(text))
  {
    LengthPrefix(|text|, text, mem, start);
    DecodedText(mem, start, |text|);
    ShiftedTextReads(mem, start, text, Shifted(mem, start + 4, |text|));
  }

  lemma DecodedText(mem: seq<byte>, start: nat, n: nat)
    requires start + 4 + n <= |mem| && FromLittleEndian(mem[start..start + 4]) == n
    ensures Decode(Text, mem, start) == Some(Read(Shifted(mem, start + 4, n), VStr(start + 3), start + 4 + n))
  {
  }

  lemma {:induction false} DecodeInvertsArray(fs: Fields, vs: seq<Value>, mem: seq<byte>, start: nat)
    requires Supported(Array(fs)) && Fits(Array(fs), Many(vs)) && start + |Encode(Array(fs), Many(vs))| <= |mem|
    requires mem[start..start + |Encode(Array(fs), Many(vs))|] == Encode(Array(fs), Many(vs))
    ensures Faithful(mem, start, |Encode(Array(fs), Many(vs))|, Decode(Array(fs), mem, start), Many(vs))
    decreases fs, |vs| + 1
  {
    var body := EncodeMany(fs, vs, |vs|);
    LengthPrefix(|vs|, body, mem, start);
    DecodeInvertsEncodeMany(fs, vs, |vs|, mem, start + 4);
    assert vs[..|vs|] == vs;
    FaithfulFromEarlier(mem, start, |body|, DecodeMany(fs, |vs|, mem, start + 4), Many(vs));
  }

  lemma {:induction false} DecodeInvertsEncodeMany(fs: Fields, vs: seq<Value>, n: nat, mem: seq<byte>, start: nat)
    requires n <= |vs| && AllFit(fs, vs) && AllSupported(fs, |vs|)
    requires start + |EncodeMany(fs, vs, n)| <= |mem|
    requires mem[start..start + |EncodeMany(fs, vs, n)|] == EncodeMany(fs, vs, n)
    ensures Faithful(mem, start, |EncodeMany(fs, vs, n)|, DecodeMany(fs, n, mem, start), Many(vs[..n]))
    decreases fs, n
  {
    if n > 0 {
      SplitWire(mem, start, EncodeMany(fs, vs, n - 1), Encode(TypeAt(fs, n - 1), vs[n - 1]));
      DecodeInvertsEncodeMany(fs, vs, n - 1, mem, start);
      DecodeInvertsLast(
        fs, vs, n - 1, mem, start, |EncodeMany(fs, vs, n - 1)|, DecodeMany(fs, n - 1, mem, start).value);
    }
  }

  /** One more item: `prior` decoded the first `n`, whose encoding takes `size` bytes. */
  lemma {:induction false} DecodeInvertsLast(
    fs: Fields, vs: seq<Value>, n: nat, mem: seq<byte>, start: nat, size: nat, prior: Read)
    requires n < |vs| && AllFit(fs, vs) && AllSupported(fs, |vs|) && start + size <= |mem|
    requires DecodeMany(fs, n, mem, start) == Some(prior) && Faithful(mem, start, size, Some(prior), Many(vs[..n]))
    requires start + size + |Encode(TypeAt(fs, n), vs[n])| <= |mem|
    requires mem[start + size..][..|Encode(TypeAt(fs, n), vs[n])|] == Encode(TypeAt(fs, n), vs[n])
    ensures Faithful(
              mem, start, size + |Encode(TypeAt(fs, n), vs[n])|, DecodeMany(fs, n + 1, mem, start), Many(vs[..n + 1]))
    decreases fs, n
  {
    var t, mid := TypeAt(fs, n), start + size;
    DecodeInvertsNext(t, vs[n], mem, start, mid, prior.mem);
    FaithfulAppends(
      mem, start, size, prior, vs[..n], |Encode(t, vs[n])|, Decode(t, prior.mem, mid).value, vs[n], vs[..n + 1]);
  }

  /** Once what lies before `mid` has been decoded, the next item is still there to be decoded. */
  lemma {:induction false} DecodeInvertsNext(
    t: Type, v: Value, mem: seq<byte>, start: nat, mid: nat, now: seq<byte>)
    requires Supported(t) && Fits(t, v) && SameOutside(mem, now, start, mid) && mid + |Encode(t, v)| <= |mem|
    requires mem[mid..][..|Encode(t, v)|] == Encode(t, v)
    ensures Faithful(now, mid, |Encode(t, v)|, Decode(t, now, mid), v)
    decreases t, 1
  {
    RestIsUntouched(mem, now, start, mid, Encode(t, v));
    DecodeInvertsEncode(t, v, now, mid);
  }

  lemma RestIsUntouched(mem: seq<byte>, now: seq<byte>, start: nat, mid: nat, last: seq<byte>)
    requires SameOutside(mem, now, start, mid) && mid + |last| <= |mem| && mem[mid..][..|last|] == last
    ensures now[mid..mid + |last|] == last
  {
    assert now[mid..mid + |last|] == now[mid..][..|last|];
  }

  lemma SplitWire(mem: seq<byte>, start: nat, head: seq<byte>, last: seq<byte>)
    requires start + |head| + |last| <= |mem| && mem[start..start + |head| + |last|] == head + last
    ensures mem[start..start + |head|] == head && mem[start + |head|..][..|last|] == last
  {
    var whole := mem[start..start + |head| + |last|];
    assert mem[start..start + |head|] == whole[..|head|];
    assert mem[start + |head|..][..|last|] == whole[|head|..];
  }

  /** Decoding one more item leaves the earlier ones readable. */
  lemma FaithfulAppends(
    mem: seq<byte>, start: nat, size: nat, prior: Read, vs: seq<Value>, more: nat, item: Read, v: Value,
    all: seq<Value>)
    requires prior.view.VMany? && |all| == |vs| + 1 && vs == all[..|vs|] && v == all[|vs|]
    requires Faithful(mem, start, size, Some(prior), Many(vs))
    requires Faithful(prior.mem, start + size, more, Some(item), v)
    ensures Faithful(
              mem, start, size + more,
              Some(Read(item.mem, VMany(prior.view.items + [item.view]), item.next)), Many(all))
  {
    var mid, next := start + size, start + size + more;
    SameOutsideJoins(mem, prior.mem, item.mem, start, mid, next);
    MirrorsSurvive(prior.mem, item.mem, start, mid, start, next, prior.view, Many(vs));
    MirrorsSurvive(item.mem, item.mem, mid, next, start, next, item.view, v);
  }

  /** No encoding is a prefix of another value's encoding of the same type. */
  lemma EncodingIsUniquelyDecodable(t: Type, v: Value, w: Value, tail: seq<byte>, tail': seq<byte>)
    requires Supported(t) && Fits(t, v) && Fits(t, w)
    requires Encode(t, v) + tail == Encode(t, w) + tail'
    ensures v == w && tail == tail'
  {
    var mem := Encode(t, v) + tail;
    DecodeInvertsEncode(t, v, mem, 0);
    DecodeInvertsEncode(t, w, mem, 0);
    var r := Decode(t, mem, 0).value;
    MirrorsAreShown(r.mem, 0, r.next, r.view, v);
    MirrorsAreShown(r.mem, 0, r.next, r.view, w);
    assert tail == mem[r.next..] && tail' == mem[r.next..];
  }

  /** The whole trip through one buffer: sent, decoded in place, and read back from the mutated buffer. */
  method Relay(t: Type, v: Value, buf: array<byte>, start: nat) returns (view: View, sent: nat, received: nat)
    requires Supported(t) && Fits(t, v) && start + |Encode(t, v)| <= buf.Length
    modifies buf
    ensures sent == received == start + |Encode(t, v)|
    ensures SameOutside(old(buf[..]), buf[..], start, sent)
    ensures Shown(buf[..], view) == v
  {
    sent := Serialize(t, v, buf, start);
    ghost var wire := buf[..];
    assert wire[start..sent] == buf[start..sent];
    DecodeInvertsEncode(t, v, wire, start);
    view, received := Deserialize(t, buf, start);
    MirrorsAreShown(buf[..], start, received, view, v);
  }
}
