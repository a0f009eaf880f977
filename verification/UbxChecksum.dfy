/**
 The UBX checksum (u-blox F9 interface description, section 3.4) and the frame builder of
 ros2/scripts/f9p_set_nav_prio.py.
 */
module UbxChecksum {
  import opened Basics

  const SYNC1: byte := 0xB5
  const SYNC2: byte := 0x62

  datatype Message = Message(cls: byte, id: byte, payload: seq<byte>)

  // ---------------------------------------------------------------- the two sums

  function Sum(data: seq<byte>): nat {
    if data == [] then 0 else Sum(data[..|data| - 1]) + data[|data| - 1] as nat
  }

  /** The sum of the sums of all prefixes. */
  function PrefixSums(data: seq<byte>): nat {
    if data == [] then 0 else PrefixSums(data[..|data| - 1]) + Sum(data)
  }

  /** The sum of `data[i]` weighted by `n - i`. */
  function WeightedSum(data: seq<byte>, n: int): int {
    if data == [] then 0
    else WeightedSum(data[..|data| - 1], n) + (n - (|data| - 1)) * data[|data| - 1] as int
  }

  lemma {:induction false} WeightGrows(data: seq<byte>, n: int)
    ensures WeightedSum(data, n + 1) == WeightedSum(data, n) + Sum(data)
  {
    if data != [] {
      WeightGrows(data[..|data| - 1], n);
      var w, x := n - (|data| - 1), data[|data| - 1] as int;
      assert (w + 1) * x == w * x + x;
    }
  }

  /** Closed form: byte i of n counts n - i times in the second sum. */
  lemma {:induction false} PrefixSumsAreWeighted(data: seq<byte>)
    ensures PrefixSums(data) == WeightedSum(data, |data|)
  {
    if data != [] {
      var init := data[..|data| - 1];
      PrefixSumsAreWeighted(init);
      WeightGrows(init, |init|);
    }
  }

  lemma AddMod(a: int, b: int)
    ensures (a % 256 + b) % 256 == (a + b) % 256
    ensures (a + b % 256) % 256 == (a + b) % 256
  {
    var q, p := a / 256, b / 256;
    assert a == 256 * q + a % 256 && b == 256 * p + b % 256;
    assert (a + b) - (a % 256 + b) == 256 * q;
    assert (a + b) - (a + b % 256) == 256 * p;
  }

  /** The two running sums, as the loop keeps them. */
  method Checksum(data: seq<byte>) returns (a: byte, b: byte)
    ensures (a, b) == ChecksumOf(data)
  {
    var x, y := 0, 0;
    for i := 0 to |data|
      invariant x == Sum(data[..i]) % 256
      invariant y == PrefixSums(data[..i]) % 256
    {
      assert data[..i + 1][..i] == data[..i];
      x := (x + data[i] as int) % 256;
      AddMod(Sum(data[..i]), data[i] as int);
      y := (y + x) % 256;
      AddMod(PrefixSums(data[..i]), x);
      AddMod(PrefixSums(data[..i]), Sum(data[..i + 1]));
    }
    assert data[..|data|] == data;
    a, b := x as byte, y as byte;
  }

  function ChecksumOf(data: seq<byte>): (byte, byte) {
    ((Sum(data) % 256) as byte, (PrefixSums(data) % 256) as byte)
  }

  /** Both sums start at 0, and every byte adds to the first and then the first to the second, modulo 256. */
  lemma ChecksumByteByByte(data: seq<byte>, x: byte)
    ensures ChecksumOf([]) == (0, 0)
    ensures var (a, b) := ChecksumOf(data);
            var next := (a as int + x as int) % 256;
            ChecksumOf(data + [x]) == (next as byte, ((b as int + next) % 256) as byte)
  {
    var all := data + [x];
    assert all[..|all| - 1] == data;
    AddMod(Sum(data), x as int);
    AddMod(PrefixSums(data), Sum(all) % 256);
    AddMod(PrefixSums(data), Sum(all));
  }

  // ---------------------------------------------------------------- what the checksum detects

  /** `d` counted `w` times, without a product. */
  function Scaled(w: nat, d: int): int {
    if w == 0 then 0 else Scaled(w - 1, d) + d
  }

  lemma {:induction false} ScaledIsTimes(w: nat, d: int)
    ensures Scaled(w, d) == w * d
  {
    if w > 0 {
      ScaledIsTimes(w - 1, d);
      assert w * d == (w - 1) * d + d;
    }
  }

  /** Changing one byte by `d` changes the sums by `d` and by `d` times the byte's weight. */
  lemma {:induction false} UpdateSums(data: seq<byte>, i: nat, v: byte, w: nat, d: int)
    requires i < |data| && w == |data| - i && d == v as int - data[i] as int
    ensures Sum(data[i := v]) == Sum(data) + d
    ensures PrefixSums(data[i := v]) == PrefixSums(data) + Scaled(w, d)
    decreases |data|
  {
    var last := |data| - 1;
    if i == last {
      assert data[i := v][..last] == data[..last];
      assert Scaled(1, d) == Scaled(0, d) + d;
    } else {
      assert data[i := v][..last] == data[..last][i := v];
      UpdateSums(data[..last], i, v, w - 1, d);
    }
  }

  /** Any change of a single byte changes the first checksum byte. */
  lemma SingleByteChangeIsDetected(data: seq<byte>, i: nat, v: byte)
    requires i < |data| && v != data[i]
    ensures ChecksumOf(data[i := v]).0 != ChecksumOf(data).0
  {
    UpdateSums(data, i, v, |data| - i, v as int - data[i] as int);
    NearbySumsDiffer(Sum(data), Sum(data[i := v]));
  }

  lemma NearbySumsDiffer(a: int, b: int)
    requires a != b && -256 < a - b < 256
    ensures a % 256 != b % 256
  {
  }

  lemma CongruentExactly(a: int, b: int)
    ensures a % 256 == b % 256 <==> (a - b) % 256 == 0
  {
    AddMod(a - b, b);
    AddMod(a, -b);
    AddMod(b, -b);
  }

  function Swapped(data: seq<byte>, i: nat, j: nat): seq<byte>
    requires i < |data| && j < |data|
  {
    data[i := data[j]][j := data[i]]
  }

  /** Swapping two bytes that differ by `d` keeps the first sum and moves the second by distance times `d`. */
  lemma SwapShifts(data: seq<byte>, i: nat, j: nat, p: nat, q: nat, d: int)
    requires i < j < |data| && p == |data| - i && q == |data| - j && d == data[j] as int - data[i] as int
    ensures Sum(Swapped(data, i, j)) == Sum(data)
    ensures PrefixSums(Swapped(data, i, j)) == PrefixSums(data) + Scaled(p, d) + Scaled(q, -d)
  {
    UpdateSums(data, i, data[j], p, d);
    UpdateSums(data[i := data[j]], j, data[i], q, -d);
  }

  lemma Weights(p: nat, q: nat, d: int)
    ensures Scaled(p, d) + Scaled(q, -d) == (p - q) * d
  {
    ScaledIsTimes(p, d);
    ScaledIsTimes(q, -d);
    assert (p - q) * d == p * d + q * -d;
  }

  /** Swapping two bytes goes unnoticed exactly when distance times difference is a multiple of 256. */
  lemma SwapDetectionIsExact(data: seq<byte>, i: nat, j: nat)
    requires i < j < |data|
    ensures ChecksumOf(Swapped(data, i, j)) == ChecksumOf(data)
            <==> ((j - i) * (data[j] as int - data[i] as int)) % 256 == 0
  {
    var now: int, was: int := PrefixSums(Swapped(data, i, j)), PrefixSums(data);
    var p, q, d := |data| - i, |data| - j, data[j] as int - data[i] as int;
    SwapShifts(data, i, j, p, q, d);
    Weights(p, q, d);
    assert p - q == j - i;
    CongruentExactly(now, was);
    assert ChecksumOf(Swapped(data, i, j)) == ChecksumOf(data) <==> now % 256 == was % 256;
  }

  /** Swapping two different neighbours is always detected. */
  lemma AdjacentSwapIsDetected(data: seq<byte>, i: nat)
    requires i + 1 < |data| && data[i] != data[i + 1]
    ensures ChecksumOf(Swapped(data, i, i + 1)) != ChecksumOf(data)
  {
    SwapDetectionIsExact(data, i, i + 1);
    var d := data[i + 1] as int - data[i] as int;
    assert (i + 1 - i) * d == d;
    NearbySumsDiffer(d, 0);
  }

  // ---------------------------------------------------------------- frames

  const MAX_PAYLOAD := 65535

  /** Everything the checksum covers: class, id, little-endian length, payload. */
  function Covered(m: Message): seq<byte>
    requires |m.payload| <= MAX_PAYLOAD
  {
    [m.cls, m.id, (|m.payload| % 256) as byte, (|m.payload| / 256) as byte] + m.payload
  }

  function FrameBytes(m: Message): seq<byte>
    requires |m.payload| <= MAX_PAYLOAD
  {
    var (a, b) := ChecksumOf(Covered(m));
    [SYNC1, SYNC2] + Covered(m) + [a, b]
  }

  /** None stands for the exception raised when the length does not fit its 16-bit field. */
  method BuildUbx(m: Message) returns (frame: Option<seq<byte>>)
    ensures frame.Some? <==> |m.payload| <= MAX_PAYLOAD
    ensures frame.Some? ==> frame.value == FrameBytes(m)
  {
    if |m.payload| > MAX_PAYLOAD {
      return None;
    }
    var a, b := Checksum(Covered(m));
    return Some([SYNC1, SYNC2] + Covered(m) + [a, b]);
  }

  /** Where every byte of a frame stands: preamble, class, id, length with its low byte first, payload, checksum. */
  lemma FrameLooks(m: Message)
    requires |m.payload| <= 65535
    ensures var f, n := FrameBytes(m), |m.payload|;
            && |f| == n + 8 && f[0] == 0xB5 && f[1] == 0x62 && f[2] == m.cls && f[3] == m.id
            && f[4] as nat == n % 256 && f[5] as nat == n / 256 && f[6..6 + n] == m.payload
            && (f[6 + n], f[7 + n]) == ChecksumOf(f[2..6 + n])
  {
    var f, n, data := FrameBytes(m), |m.payload|, Covered(m);
    var (a, b) := ChecksumOf(data);
    FrameSlices(f, data, [SYNC1, SYNC2], [a, b]);
    assert data[4..] == m.payload;
    assert f[6..6 + n] == f[2..6 + n][4..];
  }

  lemma FrameSlices(f: seq<byte>, data: seq<byte>, front: seq<byte>, back: seq<byte>)
    requires f == front + data + back && |front| == |back| == 2 && |data| >= 4
    ensures f[2..2 + |data|] == data && f[0] == front[0] && f[1] == front[1]
    ensures f[2] == data[0] && f[3] == data[1] && f[4] == data[2] && f[5] == data[3]
    ensures f[2 + |data|] == back[0] && f[3 + |data|] == back[1]
  {
  }
}
