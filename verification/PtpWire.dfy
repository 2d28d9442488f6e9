/** The ten-byte timestamp codec of ptp_sync.c and the Delay_Req it fills in. */
module PtpWire {
  import opened CInt
  import opened PtpTime

  const TS_OFFSET := 34
  const MESSAGE_LEN := 44

  // ----- Big-endian integers

  function Pow256(k: nat): (p: nat)
    ensures p > 0
  {
    if k == 0 then 1 else 256 * Pow256(k - 1)
  }

  /** The value of a big-endian byte string. */
  function Decode(s: seq<byte>): (n: nat)
  {
    if s == [] then 0 else Decode(s[..|s| - 1]) * 256 + s[|s| - 1]
  }

  /** The low k bytes of n in two's complement, most significant first. */
  function Encode(n: int, k: nat): (s: seq<byte>)
    ensures |s| == k
    decreases k
  {
    if k == 0 then [] else Encode(n / 256, k - 1) + [n % 256]
  }

  /** `n >> 8*i` on a signed integer. */
  function ShiftBytes(n: int, i: nat): int
    decreases i
  {
    if i == 0 then n else ShiftBytes(n / 256, i - 1)
  }

  lemma {:induction false} EncodeByte(n: int, k: nat, i: nat)
    requires i < k
    ensures Encode(n, k)[k - 1 - i] == ShiftBytes(n, i) % 256
    decreases k
  {
    if i > 0 {
      EncodeByte(n / 256, k - 1, i - 1);
    }
  }

  lemma ModScaled(n: int, p: int)
    requires p > 0
    ensures n % (256 * p) == n / 256 % p * 256 + n % 256
  {
    var q, m, r := n / 256 / p, 256 * p, n / 256 % p * 256 + n % 256;
    assert n / 256 == p * q + n / 256 % p;
    assert m * q == 256 * (p * q);
    QuotientUnique(n, m, q, r);
  }

  lemma {:induction false} DecodeOfEncode(n: int, k: nat)
    ensures Decode(Encode(n, k)) == n % Pow256(k)
    decreases k
  {
    if k > 0 {
      DecodeOfEncode(n / 256, k - 1);
      assert Encode(n, k)[..k - 1] == Encode(n / 256, k - 1);
      ModScaled(n, Pow256(k - 1));
    }
  }

  lemma {:induction false} EncodeOfDecode(s: seq<byte>)
    ensures Encode(Decode(s), |s|) == s
    ensures Decode(s) < Pow256(|s|)
  {
    if s != [] {
      EncodeOfDecode(s[..|s| - 1]);
      assert s == s[..|s| - 1] + [s[|s| - 1]];
    }
  }

  /** Only the value modulo 256^k is encoded. */
  lemma {:induction false} EncodeCongruent(n: int, c: int, k: nat)
    ensures Encode(n + c * Pow256(k), k) == Encode(n, k)
    decreases k
  {
    if k > 0 {
      var m := n + c * Pow256(k);
      var d := c * Pow256(k - 1);
      assert m == n + 256 * d;
      EncodeCongruent(n / 256, c, k - 1);
    }
  }

  // ----- Timestamps

  function EncodeTs(t: Ts): (s: seq<byte>)
    ensures |s| == 10
  {
    Encode(t.seconds, 6) + Encode(t.nanosec, 4)
  }

  function DecodeTs(s: seq<byte>): Ts
    requires |s| == 10
  {
    Ts(Decode(s[..6]), ToInt32(Decode(s[6..])))
  }

  lemma PowersOf256()
    ensures Pow256(2) == 0x1_0000 && Pow256(4) == TWO32 && Pow256(6) == TWO48
  {
    assert Pow256(1) == 256 * Pow256(0);
    assert Pow256(3) == 256 * Pow256(2);
    assert Pow256(5) == 256 * Pow256(4);
  }

  /** Every timestamp with 48-bit seconds and 32-bit signed nanoseconds survives
      the wire. */
  lemma TsRoundTrip(t: Ts)
    requires 0 <= t.seconds < TWO48 && IsInt32(t.nanosec)
    ensures DecodeTs(EncodeTs(t)) == t
  {
    hide Encode, Decode, Pow256;
    PowersOf256();
    var s := EncodeTs(t);
    assert s[..6] == Encode(t.seconds, 6) && s[6..] == Encode(t.nanosec, 4);
    DecodeOfEncode(t.seconds, 6);
    DecodeOfEncode(t.nanosec, 4);
  }

  /** Every ten bytes, valid or not, are reproduced from what is stored. */
  lemma BytesRoundTrip(s: seq<byte>)
    requires |s| == 10
    ensures EncodeTs(DecodeTs(s)) == s
    ensures 0 <= DecodeTs(s).seconds < TWO48 && IsInt32(DecodeTs(s).nanosec)
  {
    hide Encode, Decode, Pow256;
    PowersOf256();
    EncodeOfDecode(s[..6]);
    EncodeOfDecode(s[6..]);
    var n := Decode(s[6..]);
    EncodeCongruent(n, -1, 4);
    assert ToInt32(n) == n || ToInt32(n) == n + -1 * Pow256(4);
    assert s[..6] + s[6..] == s;
  }

  /** A loop of ptp_prepare_timestamp, which runs down from the last byte. */
  method WriteBytes(n: int, k: nat, out: array<byte>, at: nat)
    requires at + k <= out.Length
    modifies out
    ensures out[at..at + k] == Encode(n, k)
    ensures forall j :: 0 <= j < out.Length && !(at <= j < at + k) ==> out[j] == old(out[j])
  {
    var i := 0;
    while i < k
      invariant 0 <= i <= k
      invariant forall j :: 0 <= j < i ==> out[at + k - 1 - j] == ShiftBytes(n, j) % 256
      invariant forall j :: 0 <= j < out.Length && !(at + k - i <= j < at + k) ==> out[j] == old(out[j])
    {
      out[at + k - 1 - i] := ShiftBytes(n, i) % 256;
      i := i + 1;
    }
    forall j | 0 <= j < k ensures out[at + j] == Encode(n, k)[j] {
      EncodeByte(n, k, k - 1 - j);
      assert out[at + k - 1 - (k - 1 - j)] == ShiftBytes(n, k - 1 - j) % 256;
    }
  }

  /** ptp_prepare_timestamp: six bytes of seconds, four of nanoseconds. */
  method PrepareTimestamp(t: Ts, out: array<byte>, at: nat)
    requires at + 10 <= out.Length
    modifies out
    ensures out[..] == old(out[..at]) + EncodeTs(t) + old(out[at + 10..])
  {
    hide Encode;
    WriteBytes(t.seconds, 6, out, at);
    ghost var seconds := out[at..at + 6];
    WriteBytes(t.nanosec, 4, out, at + 6);
    assert out[at..at + 6] == seconds;
    assert out[..] == out[..at] + out[at..at + 6] + out[at + 6..at + 10] + out[at + 10..];
  }

  /** ptp_store_timestamp: unsigned accumulators, then a conversion to int32_t. */
  method StoreTimestamp(timestamp: seq<byte>) returns (t: Ts)
    requires |timestamp| == 10
    ensures t == DecodeTs(timestamp)
  {
    var sec: nat, i := 0, 0;
    while i < 6
      invariant 0 <= i <= 6 && sec == Decode(timestamp[..i])
    {
      assert timestamp[..i + 1][..i] == timestamp[..i];
      sec := sec * 256 + timestamp[i];
      i := i + 1;
    }
    var nanosec: nat := 0;
    while i < 10
      invariant 6 <= i <= 10 && nanosec == Decode(timestamp[6..i])
    {
      assert timestamp[6..i + 1][..i - 6] == timestamp[6..i];
      nanosec := nanosec * 256 + timestamp[i];
      i := i + 1;
    }
    assert timestamp[6..10] == timestamp[6..];
    t := Ts(sec, ToInt32(nanosec));
  }

  // ----- Messages

  /** The low four bits of the first byte. */
  function MessageType(m: seq<byte>): int
    requires m != []
  {
    m[0] % 16
  }

  const SYNC := 0
  const DELAY_REQ := 1
  const PDELAY_RESP := 3
  const FOLLOW_UP := 8
  const DELAY_RESP := 9
  const PDELAY_RESP_FOLLOW_UP := 0xA
  const ANNOUNCE := 0xB

  /** The timestamp field that Follow_Up and Delay_Resp share. */
  function Stamp(m: seq<byte>): Ts
    requires |m| >= MESSAGE_LEN
  {
    DecodeTs(m[TS_OFFSET..MESSAGE_LEN])
  }

  /** The Delay_Req that answers a Follow_Up: it copies the sdo and version bytes,
      and sends every field it never writes (sequence number included) as zero. */
  function DelayReq(m: seq<byte>, t3: Ts): (r: seq<byte>)
    requires |m| >= 4
    ensures |r| == MESSAGE_LEN
  {
    RequestHeader(m) + EncodeTs(t3)
  }

  function RequestHeader(m: seq<byte>): (h: seq<byte>)
    requires |m| >= 4
    ensures |h| == TS_OFFSET
  {
    [m[0] / 16 * 16 + DELAY_REQ, m[1]] + Encode(MESSAGE_LEN, 2) + Zeros(28) + [5, 0]
  }

  function Zeros(k: nat): seq<byte> {
    seq(k, _ => 0)
  }

  /** A Delay_Req keeps the first half byte and the version of the message it answers,
      carries its type, its length, its control field and its send time back out, and
      is zero everywhere else. */
  lemma DelayReqDecodes(m: seq<byte>, t3: Ts)
    requires |m| >= 4 && 0 <= t3.seconds < TWO48 && IsInt32(t3.nanosec)
    ensures var r := DelayReq(m, t3);
      && |r| == 44
      && r[0] % 16 == 1 && r[0] / 16 == m[0] / 16 && r[1] == m[1]
      && r[2..4] == [0, 44] && r[32] == 5
      && (forall i :: 4 <= i < 34 && i != 32 ==> r[i] == 0)
      && Stamp(r) == t3
  {
    hide Encode, Decode, Pow256, EncodeTs, DecodeTs;
    var r := DelayReq(m, t3);
    TsRoundTrip(t3);
    LengthBytes();
    assert r[..34] == RequestHeader(m);
    assert r[TS_OFFSET..MESSAGE_LEN] == EncodeTs(t3);
    assert forall i :: 0 <= i < 34 ==> r[i] == RequestHeader(m)[i];
  }

  lemma LengthBytes()
    ensures Encode(MESSAGE_LEN, 2) == [0, 44]
  {
    assert Encode(0, 1) == Encode(0, 0) + [0];
  }

  lemma DecodeStep(s: seq<byte>)
    requires s != []
    ensures Decode(s) == Decode(s[..|s| - 1]) * 256 + s[|s| - 1]
  {
  }

  lemma Decode4(s: seq<byte>)
    requires |s| == 4
    ensures Decode(s) == 0x100_0000 * s[0] as int + 0x1_0000 * s[1] as int + 0x100 * s[2] as int + s[3]
  {
    hide Decode;
    DecodeStep(s);
    DecodeStep(s[..3]);
    DecodeStep(s[..3][..2]);
    DecodeStep(s[..3][..2][..1]);
    DecodeNothing(s[..3][..2][..1][..0]);
  }

  lemma DecodeNothing(s: seq<byte>)
    requires s == []
    ensures Decode(s) == 0
  {
  }

  lemma Decode6(s: seq<byte>)
    requires |s| == 6
    ensures Decode(s) == 0x1_0000 * (0x100_0000 * s[0] as int + 0x1_0000 * s[1] as int + 0x100 * s[2] as int + s[3])
                         + 0x100 * s[4] as int + s[5]
  {
    hide Decode;
    DecodeStep(s);
    DecodeStep(s[..5]);
    assert s[..5][..4] == s[..4];
    Decode4(s[..4]);
  }

  /** Where and how a message carries its timestamp: big-endian from byte 34 on, six
      bytes of seconds and four of nanoseconds in two's complement. */
  lemma StampIs(m: seq<byte>)
    requires |m| >= 44
    ensures var high := 0x100_0000 * m[34] as int + 0x1_0000 * m[35] as int + 0x100 * m[36] as int + m[37];
      var nanosec := 0x100_0000 * m[40] as int + 0x1_0000 * m[41] as int + 0x100 * m[42] as int + m[43];
      && Stamp(m).seconds == 0x1_0000 * high + 0x100 * m[38] as int + m[39]
      && Stamp(m).nanosec == if nanosec < 0x8000_0000 then nanosec else nanosec - 0x1_0000_0000
  {
    hide Decode;
    var s := m[TS_OFFSET..MESSAGE_LEN];
    Decode6(s[..6]);
    Decode4(s[6..]);
  }
}
