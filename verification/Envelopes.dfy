/** Connect envelopes: a flag byte, a 4-byte big-endian length, and the payload. */
module Envelopes {
  import opened Basics

  const LENGTH_LIMIT := 0x1_0000_0000

  /** Bit 0 of the flag byte: the payload is gzipped. */
  predicate Compressed(flag: byte) {
    flag % 2 == 1
  }

  /** Bit 1 of the flag byte: the trailing frame, whose payload is JSON. */
  predicate EndStream(flag: byte) {
    flag / 2 % 2 == 1
  }

  /** binary.BigEndian.PutUint32 of uint32(n): the length wraps at 2^32. */
  function PutUint32(n: nat): Bytes {
    [n / 0x100_0000 % 256, n / 0x1_0000 % 256, n / 0x100 % 256, n % 256]
  }

  function Uint32(b: Bytes): (n: nat)
    requires |b| >= 4
    ensures n < LENGTH_LIMIT
  {
    var b0: int, b1: int, b2: int, b3: int := b[0], b[1], b[2], b[3];
    b0 * 0x100_0000 + b1 * 0x1_0000 + b2 * 0x100 + b3
  }

  /** Shifting by one byte at a time. */
  lemma ShiftTwice(n: nat)
    ensures n / 0x100 / 0x100 == n / 0x1_0000
  {
  }

  lemma ShiftThrice(n: nat)
    ensures n / 0x1_0000 / 0x100 == n / 0x100_0000
  {
  }

  lemma LowByte(q: nat)
    ensures q == 0x100 * (q / 0x100) + q % 256 && 0 <= q % 256 < 0x100
  {
  }

  lemma Remainder(n: nat, high: nat, low: nat)
    requires n == LENGTH_LIMIT * high + low && low < LENGTH_LIMIT
    ensures n % LENGTH_LIMIT == low
  {
  }

  lemma Uint32RoundTrip(n: nat)
    ensures Uint32(PutUint32(n)) == n % LENGTH_LIMIT
  {
    var q3, q2, q1 := n / 0x100_0000, n / 0x1_0000, n / 0x100;
    ShiftTwice(n);
    ShiftThrice(n);
    LowByte(n);
    LowByte(q1);
    LowByte(q2);
    LowByte(q3);
    Remainder(n, q3 / 0x100, Uint32(PutUint32(n)));
  }

  function Envelope(flag: byte, payload: Bytes): (s: Bytes)
    ensures |s| == 5 + |payload| && s[0] == flag
  {
    [flag] + PutUint32(|payload|) + payload
  }

  lemma EnvelopeParts(flag: byte, payload: Bytes, rest: Bytes)
    ensures var s := Envelope(flag, payload) + rest;
      && |s| == 5 + |payload| + |rest|
      && s[0] == flag
      && Uint32(s[1..5]) == |payload| % LENGTH_LIMIT
      && s[5..] == payload + rest
      && s[5..5 + |payload|] == payload
      && s[5 + |payload|..] == rest
  {
    var s := Envelope(flag, payload) + rest;
    assert s[1..5] == PutUint32(|payload|);
    Uint32RoundTrip(|payload|);
  }

  /** A frame, written out: the flag, the length of the data with its most significant byte first, and the data. */
  ghost predicate IsFrame(s: Bytes, flag: byte, data: Bytes) {
    && |s| == 5 + |data| && s[0] == flag && s[5..] == data
    && s[1] as int * 0x100_0000 + s[2] as int * 0x1_0000 + s[3] as int * 0x100 + s[4] as int == |data|
  }

  /** The envelope is a frame, its length right, exactly when that length fits 32 bits. */
  lemma EnvelopeIsFrame(flag: byte, payload: Bytes)
    ensures var s := Envelope(flag, payload);
      |s| == 5 + |payload| && s[0] == flag && (IsFrame(s, flag, payload) <==> |payload| < 0x1_0000_0000)
  {
    var s := Envelope(flag, payload);
    EnvelopeParts(flag, payload, []);
    hide Envelope, PutUint32;
    assert s + [] == s && payload + [] == payload;
    assert Uint32(s[1..5]) == s[1] as int * 0x100_0000 + s[2] as int * 0x1_0000 + s[3] as int * 0x100 + s[4] as int;
  }

  /** How the readers take a frame apart, whatever follows it. */
  lemma FrameParts(s: Bytes, flag: byte, data: Bytes, rest: Bytes)
    requires IsFrame(s, flag, data)
    ensures var t := s + rest;
      && |t| == 5 + |data| + |rest| && t[0] == flag && Uint32(t[1..5]) == |data|
      && t[5..5 + |data|] == data && t[5 + |data|..] == rest
  {
    var t := s + rest;
    assert t[1..5] == s[1..5];
    assert Uint32(s[1..5]) == s[1] as int * 0x100_0000 + s[2] as int * 0x1_0000 + s[3] as int * 0x100 + s[4] as int;
    assert t[5..5 + |data|] == s[5..];
  }
}
