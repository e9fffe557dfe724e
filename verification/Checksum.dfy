/**
 * The byte obfuscation inside the x-cursor-checksum header
 * (pkg/cursor/checksum.go). Each byte is masked with the previous output byte,
 * so the transformation is a bijection that is undone from left to right.
 */
module Checksum {

  const SEED: bv8 := 165

  /** An array index as a byte: it wraps around at 256. */
  function IndexByte(i: nat): bv8 {
    (i % 256) as bv8
  }

  function Xor(x: bv8, t: bv8): bv8 {
    x ^ t
  }

  function Plus(x: bv8, n: bv8): bv8 {
    x + n
  }

  function Minus(x: bv8, n: bv8): bv8 {
    x - n
  }

  lemma ByteLaws(x: bv8, y: bv8)
    ensures Xor(Xor(x, y), y) == x && Minus(Plus(x, y), y) == x && Plus(Minus(x, y), y) == x
  {
  }

  /** One byte: masked with the output before it, then shifted by its index, modulo 256. */
  function Scramble(x: bv8, t: bv8, n: bv8): bv8 {
    Plus(Xor(x, t), n)
  }

  function Unscramble(y: bv8, t: bv8, n: bv8): bv8 {
    Xor(Minus(y, n), t)
  }

  lemma ScrambleInverse(x: bv8, t: bv8, n: bv8)
    ensures Scramble(Unscramble(x, t, n), t, n) == x
    ensures Unscramble(Scramble(x, t, n), t, n) == x
  {
    hide Xor, Plus, Minus;
    ByteLaws(Minus(x, n), t);
    ByteLaws(x, n);
    ByteLaws(Xor(x, t), n);
    ByteLaws(x, t);
  }

  /** The obfuscation of `b` from index `i` on, when the byte before it came out as `t`. */
  function ObfuscateFrom(b: seq<bv8>, i: nat, t: bv8): (c: seq<bv8>)
    ensures |c| == |b|
    decreases |b|
  {
    if b == [] then []
    else
      var out := Scramble(b[0], t, IndexByte(i));
      [out] + ObfuscateFrom(b[1..], i + 1, out)
  }

  function Obfuscated(b: seq<bv8>): seq<bv8> {
    ObfuscateFrom(b, 0, SEED)
  }

  /** The mask for index `i`: the output before it. */
  function Mask(c: seq<bv8>, i: nat): bv8
    requires i <= |c|
  {
    if i == 0 then SEED else c[i - 1]
  }

  lemma {:induction false} ObfuscateAt(b: seq<bv8>, i: nat, t: bv8, k: nat)
    requires k < |b|
    ensures var c := ObfuscateFrom(b, i, t);
      c[k] == Scramble(b[k], if k == 0 then t else c[k - 1], IndexByte(i + k))
    decreases |b|
  {
    hide IndexByte, Scramble, Unscramble;
    var out := Scramble(b[0], t, IndexByte(i));
    if k > 0 {
      ObfuscateAt(b[1..], i + 1, out, k - 1);
    }
  }

  /** obfuscateBytes: in place, the carried byte `t` being the one just written. */
  method ObfuscateBytes(b: array<bv8>)
    modifies b
    ensures b[..] == Obfuscated(old(b[..]))
  {
    hide IndexByte, Scramble, Unscramble;
    var t := SEED;
    ghost var was := b[..];
    for i := 0 to b.Length
      invariant b[i..] == was[i..]
      invariant b[..i] + ObfuscateFrom(was[i..], i, t) == Obfuscated(was)
    {
      assert was[i..][0] == was[i] && was[i..][1..] == was[i + 1..];
      assert b[i] == b[i..][0];
      ghost var done := b[..i];
      b[i] := Scramble(b[i], t, IndexByte(i));
      t := b[i];
      assert b[..i + 1] == done + [t];
      ghost var rest := ObfuscateFrom(was[i + 1..], i + 1, t);
      assert done + ([t] + rest) == done + [t] + rest;
    }
  }

  /** The inverse loop, also in place: it keeps the old output byte before overwriting it. */
  method ClarifyBytes(c: array<bv8>)
    modifies c
    ensures Obfuscated(c[..]) == old(c[..])
    ensures forall b :: Obfuscated(b) == old(c[..]) ==> c[..] == b
  {
    hide IndexByte, Scramble, Unscramble;
    var t := SEED;
    ghost var was := c[..];
    for i := 0 to c.Length
      invariant c[i..] == was[i..]
      invariant t == Mask(was, i)
      invariant forall k :: 0 <= k < i ==> Scramble(c[k], Mask(was, k), IndexByte(k)) == was[k]
    {
      var next := c[i];
      assert next == c[i..][0] == was[i];
      c[i] := Unscramble(next, t, IndexByte(i));
      ScrambleInverse(next, t, IndexByte(i));
      t := next;
    }
    Determined(c[..], was);
    forall b | Obfuscated(b) == was ensures c[..] == b {
      ObfuscationInjective(c[..], b);
    }
  }

  lemma ObfuscateFromStart(b: seq<bv8>, k: nat)
    requires k < |b|
    ensures Obfuscated(b)[k] == Scramble(b[k], Mask(Obfuscated(b), k), IndexByte(k))
  {
    hide IndexByte, Scramble, ObfuscateFrom;
    ObfuscateAt(b, 0, SEED, k);
  }

  /** Each output byte: the input byte masked with the output before it, at first with 165, and its index added. */
  lemma ObfuscatedBytes(b: seq<bv8>, k: nat)
    requires k < |b|
    ensures var c := Obfuscated(b);
      c[k] == (b[k] ^ (if k == 0 then 165 else c[k - 1])) + (k % 256) as bv8
  {
    ObfuscateFromStart(b, k);
    ScrambleIs(b[k], Mask(Obfuscated(b), k), IndexByte(k));
    IndexByteIs(k);
    hide Scramble, IndexByte, Obfuscated, ObfuscateFrom;
  }

  lemma ScrambleIs(x: bv8, t: bv8, n: bv8)
    ensures Scramble(x, t, n) == (x ^ t) + n
  {
  }

  lemma IndexByteIs(k: nat)
    ensures IndexByte(k) == (k % 256) as bv8
  {
  }

  /** An output that satisfies the masking equation everywhere is the obfuscation. */
  lemma Determined(b: seq<bv8>, c: seq<bv8>)
    requires |b| == |c|
    requires forall k :: 0 <= k < |c| ==> Scramble(b[k], Mask(c, k), IndexByte(k)) == c[k]
    ensures Obfuscated(b) == c
  {
    hide IndexByte, Scramble, Unscramble;
    var o := Obfuscated(b);
    var k := 0;
    while k < |c|
      invariant 0 <= k <= |c| && o[..k] == c[..k]
    {
      ObfuscateAt(b, 0, SEED, k);
      assert k > 0 ==> o[k - 1] == o[..k][k - 1] == c[..k][k - 1];
      assert o[k] == c[k];
      k := k + 1;
    }
  }

  /** No two byte strings, of whatever lengths, obfuscate to the same one. */
  lemma ObfuscationInjective(a: seq<bv8>, b: seq<bv8>)
    ensures Obfuscated(a) == Obfuscated(b) <==> a == b
  {
    hide IndexByte, Scramble, Unscramble;
    if Obfuscated(a) == Obfuscated(b) {
      assert |a| == |b|;
      forall k | 0 <= k < |a| ensures a[k] == b[k] {
        ObfuscateAt(a, 0, SEED, k);
        ObfuscateAt(b, 0, SEED, k);
        var t := if k == 0 then SEED else Obfuscated(a)[k - 1];
        ScrambleInverse(a[k], t, IndexByte(k));
        ScrambleInverse(b[k], t, IndexByte(k));
      }
    }
  }

  /** The low byte of a shifted counter. */
  function ByteOf(x: bv32): bv8 {
    (x & 0xFF) as bv8
  }

  /** The six-byte timestamp block, before obfuscation. */
  function TickBytes(ts: bv32): seq<bv8> {
    [ByteOf(ts >> 8), ByteOf(ts), ByteOf(ts >> 24), ByteOf(ts >> 16), ByteOf(ts >> 8), ByteOf(ts)]
  }

  function JoinBytes(b3: bv8, b2: bv8, b1: bv8, b0: bv8): bv32 {
    (b3 as bv32 << 24) | (b2 as bv32 << 16) | (b1 as bv32 << 8) | b0 as bv32
  }

  lemma JoinTick(ts: bv32)
    ensures JoinBytes(ByteOf(ts >> 24), ByteOf(ts >> 16), ByteOf(ts >> 8), ByteOf(ts)) == ts
  {
  }

  /** The block holds the tick's four bytes, the most significant first, behind a copy of its two low bytes. */
  lemma BlockLayout(ts: bv32)
    ensures var b := TickBytes(ts);
      |b| == 6 && b[..2] == b[4..] && JoinBytes(b[2], b[3], b[4], b[5]) == ts
  {
    hide ByteOf, JoinBytes;
    JoinTick(ts);
  }

  /** The obfuscated block tells every 32-bit tick apart. */
  lemma BlockDeterminesTick(ts: bv32, us: bv32)
    ensures Obfuscated(TickBytes(ts)) == Obfuscated(TickBytes(us)) <==> ts == us
  {
    hide ByteOf, JoinBytes;
    ObfuscationInjective(TickBytes(ts), TickBytes(us));
    JoinTick(ts);
    JoinTick(us);
    if TickBytes(ts) == TickBytes(us) {
      assert ByteOf(ts >> 24) == TickBytes(ts)[2] && ByteOf(us >> 24) == TickBytes(us)[2];
      assert ByteOf(ts >> 16) == TickBytes(ts)[3] && ByteOf(us >> 16) == TickBytes(us)[3];
      assert ByteOf(ts >> 8) == TickBytes(ts)[4] && ByteOf(us >> 8) == TickBytes(us)[4];
      assert ByteOf(ts) == TickBytes(ts)[5] && ByteOf(us) == TickBytes(us)[5];
    }
  }
}
