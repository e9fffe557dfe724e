/**
 * The hand-written protobuf layer of pkg/cursor/proto.go: varints, records and
 * the flat field list, after the Protocol Buffers Encoding specification
 * ("Base 128 Varints", "Length-Delimited Records").
 */
module Wire {
  import opened Basics

  const TWO_32 := 0x1_0000_0000
  const TWO_64 := 0x1_0000_0000_0000_0000

  type uint64 = x: int | 0 <= x < 0x1_0000_0000_0000_0000
  type int32 = x: int | -0x8000_0000 <= x < 0x8000_0000

  datatype Field = Field(num: nat, wire: nat, uvar: nat, raw: Bytes)

  datatype ParseError =
    | BadTag
    | BadVarint(num: nat)
    | TruncatedFixed64(num: nat)
    | BadLength(num: nat)
    | TruncatedBytes(num: nat)
    | TruncatedFixed32(num: nat)
    | UnsupportedWire(wire: nat)

  // ---------- varints ----------

  /** The number a group of varint bytes stands for: seven bits each, least significant first. */
  function VarintValue(b: Bytes): nat {
    if b == [] then 0 else b[0] % 128 + 128 * VarintValue(b[1..])
  }

  /** One more than the largest value the bytes from index `i` on may hold. */
  function Cap(i: nat): (c: nat)
    ensures c >= 2
    decreases 9 - i
  {
    if i >= 9 then 2 else 128 * Cap(i + 1)
  }

  lemma CapZero()
    ensures Cap(0) == TWO_64
  {
    assert Cap(6) == 128 * 128 * 128 * 2;
    assert Cap(3) == 128 * 128 * 128 * Cap(6);
    assert Cap(0) == 128 * 128 * 128 * Cap(3);
  }

  /** `b` is a base-128 group for `v`: the top bit is set on all but the last byte. Padded encodings count. */
  ghost predicate IsGroup(b: Bytes, v: nat) {
    && b != []
    && (forall j :: 0 <= j < |b| - 1 ==> b[j] >= 128)
    && b[|b| - 1] < 128
    && VarintValue(b) == v
  }

  /** `b` is an encoding of `v` occupying varint positions `i` and up. */
  ghost predicate IsVarintFrom(b: Bytes, v: nat, i: nat) {
    IsGroup(b, v) && |b| + i <= 10 && v < Cap(i)
  }

  /** `b` is an encoding of `v`: at most ten bytes, and a value that fits 64 bits. */
  ghost predicate IsVarint(b: Bytes, v: nat) {
    IsGroup(b, v) && |b| <= 10 && v < TWO_64
  }

  /** The shortest encoding, as binary.PutUvarint writes it. */
  function Varint(v: nat): Bytes {
    if v < 128 then [v] else [v % 128 + 128] + Varint(v / 128)
  }

  datatype VarintRead = VarintRead(value: nat, size: nat)

  /** binary.Uvarint from byte index `i` on; None for its results n <= 0. */
  function UvarintFrom(data: Bytes, i: nat): (r: Option<VarintRead>)
    decreases 10 - i
  {
    if data == [] || i >= 10 then None
    else if data[0] < 128 then
      if i == 9 && data[0] > 1 then None else Some(VarintRead(data[0], 1))
    else match UvarintFrom(data[1..], i + 1)
      case None => None
      case Some(rest) => Some(VarintRead(data[0] % 128 + 128 * rest.value, rest.size + 1))
  }

  function Uvarint(data: Bytes): Option<VarintRead> {
    UvarintFrom(data, 0)
  }

  /** A group of more than one byte: its first byte continues, and the rest is a group for the rest of the value. */
  lemma VarintCons(b: Bytes, v: nat, i: nat)
    requires |b| > 1
    ensures IsVarintFrom(b, v, i) <==> b[0] >= 128 && i <= 8 && exists w: nat ::
      v == b[0] % 128 + 128 * w && IsVarintFrom(b[1..], w, i + 1)
  {
    var t := b[1..];
    var w := VarintValue(t);
    assert t[|t| - 1] == b[|b| - 1];
    assert forall j :: 0 <= j < |t| ==> t[j] == b[j + 1];
    if IsVarintFrom(b, v, i) {
      assert IsVarintFrom(t, w, i + 1);
    }
    if b[0] >= 128 && i <= 8 && exists w: nat :: v == b[0] % 128 + 128 * w && IsVarintFrom(t, w, i + 1) {
      assert forall j :: 1 <= j < |b| ==> b[j] == t[j - 1];
      assert IsVarintFrom(b, v, i);
    }
  }

  lemma VarintOne(b: Bytes, v: nat, i: nat)
    requires |b| == 1
    ensures IsVarintFrom(b, v, i) <==> i <= 9 && b[0] < 128 && v == b[0] && (i == 9 ==> v <= 1)
  {
    assert b[1..] == [] && VarintValue(b[1..]) == 0;
    assert VarintValue(b) == b[0] % 128;
    assert if i < 9 then Cap(i) == 128 * Cap(i + 1) else Cap(i) == 2;
  }

  /** The first `n` elements, cut at `k`. */
  lemma Slices<T>(s: seq<T>, k: nat, n: nat)
    requires k <= n <= |s|
    ensures s[..n][..k] == s[..k] && s[..n][k..] == s[k..][..n - k]
  {
  }

  lemma {:induction false} UvarintFromSound(data: Bytes, i: nat)
    requires UvarintFrom(data, i).Some?
    ensures var r := UvarintFrom(data, i).value;
      r.size <= |data| && IsVarintFrom(data[..r.size], r.value, i)
    decreases |data|
  {
    hide IsVarintFrom;
    if data[0] < 128 {
      VarintOne(data[..1], data[0], i);
    } else {
      UvarintFromSound(data[1..], i + 1);
      var rest := UvarintFrom(data[1..], i + 1).value;
      Slices(data, 1, rest.size + 1);
      VarintCons(data[..rest.size + 1], data[0] % 128 + 128 * rest.value, i);
    }
  }

  lemma {:induction false} UvarintFromComplete(data: Bytes, i: nat, v: nat, n: nat)
    requires n <= |data| && IsVarintFrom(data[..n], v, i)
    ensures UvarintFrom(data, i) == Some(VarintRead(v, n))
    decreases |data|
  {
    var b := data[..n];
    assert n > 0 && b[0] == data[0] && i < 10;
    hide IsVarintFrom;
    if n == 1 {
      VarintOne(b, v, i);
    } else {
      VarintCons(b, v, i);
      Slices(data, 1, n);
      var w: nat :| v == b[0] % 128 + 128 * w && IsVarintFrom(b[1..], w, i + 1);
      UvarintFromComplete(data[1..], i + 1, w, n - 1);
    }
  }

  lemma UvarintFromExact(data: Bytes, i: nat, v: nat, n: nat)
    ensures UvarintFrom(data, i) == Some(VarintRead(v, n))
       <==> n <= |data| && IsVarintFrom(data[..n], v, i)
  {
    hide UvarintFrom, IsVarintFrom;
    if UvarintFrom(data, i).Some? {
      UvarintFromSound(data, i);
    }
    if n <= |data| && IsVarintFrom(data[..n], v, i) {
      UvarintFromComplete(data, i, v, n);
    }
  }

  /** The reader accepts exactly the well-formed varint prefixes, with exactly their value. */
  lemma UvarintExact(data: Bytes, v: nat, n: nat)
    ensures Uvarint(data) == Some(VarintRead(v, n)) <==> n <= |data| && IsVarint(data[..n], v)
  {
    UvarintFromExact(data, 0, v, n);
    CapZero();
  }

  lemma {:induction false} VarintIsVarintFrom(v: nat, i: nat)
    requires i <= 9 && v < Cap(i)
    ensures IsVarintFrom(Varint(v), v, i)
    decreases 9 - i
  {
    var b := Varint(v);
    if v < 128 {
      VarintOne(b, v, i);
    } else {
      VarintIsVarintFrom(v / 128, i + 1);
      assert b[1..] == Varint(v / 128);
      VarintCons(b, v, i);
      assert (v % 128 + 128) % 128 == v % 128;
    }
  }

  lemma VarintIsVarint(v: uint64)
    ensures IsVarint(Varint(v), v)
  {
    CapZero();
    VarintIsVarintFrom(v, 0);
  }

  /** Writing then reading is exact for every uint64, whatever bytes follow. */
  lemma VarintRoundTrip(v: uint64, rest: Bytes)
    ensures Uvarint(Varint(v) + rest) == Some(VarintRead(v, |Varint(v)|))
  {
    VarintIsVarint(v);
    var data := Varint(v) + rest;
    assert data[..|Varint(v)|] == Varint(v);
    UvarintExact(data, v, |Varint(v)|);
  }

  lemma UvarintSize(a: Bytes)
    requires Uvarint(a).Some?
    ensures 0 < Uvarint(a).value.size <= |a| && Uvarint(a).value.value < TWO_64
  {
    UvarintExact(a, Uvarint(a).value.value, Uvarint(a).value.size);
  }

  lemma UvarintOf(b: Bytes, v: nat, data: Bytes)
    requires IsVarint(b, v) && b <= data
    ensures Uvarint(data) == Some(VarintRead(v, |b|))
  {
    assert data[..|b|] == b;
    UvarintExact(data, v, |b|);
  }

  // ---------- records ----------

  datatype Record = Record(field: Field, size: nat)

  /** The part of a record after its tag, by wire type; `size` counts the bytes of `rest` it takes. */
  function ParseValue(num: nat, wire: nat, rest: Bytes): (r: Result<Record, ParseError>)
    ensures r.Ok? ==> r.value.size <= |rest| && r.value.field.num == num && r.value.field.wire == wire
  {
    match wire
    case 0 =>
      (match Uvarint(rest)
       case None => Err(BadVarint(num))
       case Some(v) => UvarintSize(rest); Ok(Record(Field(num, 0, v.value, []), v.size)))
    case 1 =>
      if |rest| < 8 then Err(TruncatedFixed64(num)) else Ok(Record(Field(num, 1, 0, []), 8))
    case 2 =>
      (match Uvarint(rest)
       case None => Err(BadLength(num))
       case Some(l) =>
         UvarintSize(rest);
         if |rest| - l.size < l.value then Err(TruncatedBytes(num))
         else Ok(Record(Field(num, 2, 0, rest[l.size..l.size + l.value]), l.size + l.value)))
    case 5 =>
      if |rest| < 4 then Err(TruncatedFixed32(num)) else Ok(Record(Field(num, 5, 0, []), 4))
    case _ => Err(UnsupportedWire(wire))
  }

  /** One turn of the parseFields loop: the first record of `data` and its length. */
  function ParseRecord(data: Bytes): (r: Result<Record, ParseError>)
    ensures r.Ok? ==> 0 < r.value.size <= |data|
  {
    match Uvarint(data)
    case None => Err(BadTag)
    case Some(tag) =>
      UvarintSize(data);
      match ParseValue(tag.value / 8, tag.value % 8, data[tag.size..])
      case Err(e) => Err(e)
      case Ok(rec) => Ok(Record(rec.field, tag.size + rec.size))
  }

  lemma ParseRecordOf(data: Bytes, tag: nat, k: nat, f: Field, n: nat)
    requires Uvarint(data) == Some(VarintRead(tag, k)) && k <= |data|
    requires f.num == tag / 8 && f.wire == tag % 8
    requires ParseValue(f.num, f.wire, data[k..]) == Ok(Record(f, n))
    ensures ParseRecord(data) == Ok(Record(f, k + n))
  {
    hide UvarintFrom, ParseValue;
  }

  function Prepend(fs: seq<Field>, r: Result<seq<Field>, ParseError>): Result<seq<Field>, ParseError> {
    if r.Ok? then Ok(fs + r.value) else r
  }

  /** The flat field list of a message, or the error of its first bad record. */
  function Parse(data: Bytes): Result<seq<Field>, ParseError>
    decreases |data|
  {
    if data == [] then Ok([])
    else match ParseRecord(data)
      case Err(e) => Err(e)
      case Ok(rec) => Prepend([rec.field], Parse(data[rec.size..]))
  }

  lemma ParseNothing()
    ensures Parse([]) == Ok([])
  {
  }

  lemma PrependTwice(fs: seq<Field>, gs: seq<Field>, r: Result<seq<Field>, ParseError>)
    ensures Prepend(fs, Prepend(gs, r)) == Prepend(fs + gs, r)
  {
    if r.Ok? {
      assert fs + (gs + r.value) == (fs + gs) + r.value;
    }
  }

  lemma ParseStep(out: seq<Field>, data: Bytes, f: Field, n: nat)
    requires ParseRecord(data) == Ok(Record(f, n))
    ensures n <= |data| && Prepend(out, Parse(data)) == Prepend(out + [f], Parse(data[n..]))
  {
    PrependTwice(out, [f], Parse(data[n..]));
  }

  lemma ParseTurn(out: seq<Field>, data: Bytes, tag: nat, k: nat, f: Field, n: nat)
    requires Uvarint(data) == Some(VarintRead(tag, k)) && k <= |data|
    requires f.num == tag / 8 && f.wire == tag % 8
    requires ParseValue(f.num, f.wire, data[k..]) == Ok(Record(f, n))
    ensures n <= |data[k..]| && Prepend(out, Parse(data)) == Prepend(out + [f], Parse(data[k..][n..]))
  {
    hide Uvarint, ParseValue, Parse;
    ParseRecordOf(data, tag, k, f, n);
    ParseStep(out, data, f, k + n);
    assert data[k + n..] == data[k..][n..];
  }

  /** The switch of the parseFields loop: consumes the value of a record from the front of `data`. */
  method ReadValue(num: nat, wire: nat, input: Bytes) returns (r: Result<Field, ParseError>, data: Bytes)
    ensures r.Err? ==> ParseValue(num, wire, input) == Err(r.error)
    ensures r.Ok? ==> |data| <= |input| && data == input[|input| - |data|..]
    ensures r.Ok? ==> ParseValue(num, wire, input) == Ok(Record(r.value, |input| - |data|))
  {
    data := input;
    var f := Field(num, wire, 0, []);
    match wire {
      case 0 =>
        var v := Uvarint(data);
        if v.None? {
          return Err(BadVarint(num)), data;
        }
        UvarintSize(data);
        f := f.(uvar := v.value.value);
        data := data[v.value.size..];
      case 1 =>
        if |data| < 8 {
          return Err(TruncatedFixed64(num)), data;
        }
        data := data[8..];
      case 2 =>
        var l := Uvarint(data);
        if l.None? {
          return Err(BadLength(num)), data;
        }
        UvarintSize(data);
        data := data[l.value.size..];
        if |data| < l.value.value {
          return Err(TruncatedBytes(num)), data;
        }
        f := f.(raw := data[..l.value.value]);
        assert f.raw == input[l.value.size..l.value.size + l.value.value];
        data := data[l.value.value..];
      case 5 =>
        if |data| < 4 {
          return Err(TruncatedFixed32(num)), data;
        }
        data := data[4..];
      case _ =>
        return Err(UnsupportedWire(wire)), data;
    }
    return Ok(f), data;
  }

  /** parseFields: `data` shrinks by one record per turn, `out` grows by one field. */
  method ParseFields(input: Bytes) returns (r: Result<seq<Field>, ParseError>)
    ensures r == Parse(input)
  {
    var data := input;
    var out: seq<Field> := [];
    assert Parse(input).Ok? ==> [] + Parse(input).value == Parse(input).value;
    while |data| > 0
      invariant Parse(input) == Prepend(out, Parse(data))
      decreases |data|
    {
      var tag := Uvarint(data);
      if tag.None? {
        return Err(BadTag);
      }
      UvarintSize(data);
      ghost var before := data;
      data := data[tag.value.size..];
      ghost var rest := data;
      var f;
      f, data := ReadValue(tag.value.value / 8, tag.value.value % 8, data);
      if f.Err? {
        return Err(f.error);
      }
      ParseTurn(out, before, tag.value.value, tag.value.size, f.value, |rest| - |data|);
      out := out + [f.value];
    }
    assert out + [] == out;
    return Ok(out);
  }

  /** `b` is the value of a record for `f`, its length prefix, if any, ending at `m`. */
  ghost predicate IsValueAt(b: Bytes, f: Field, m: nat) {
    match f.wire
    case 0 => m == 0 && IsVarint(b, f.uvar) && f.raw == []
    case 1 => m == 0 && |b| == 8 && f.uvar == 0 && f.raw == []
    case 2 => m <= |b| && IsVarint(b[..m], |f.raw|) && b[m..] == f.raw && f.uvar == 0
    case 5 => m == 0 && |b| == 4 && f.uvar == 0 && f.raw == []
    case _ => false
  }

  /** `b` is one record for `f`: a tag ending at `k`, then the value its wire type calls for. */
  ghost predicate IsRecordAt(b: Bytes, f: Field, k: nat, m: nat) {
    k <= |b| && f.wire < 8 && IsVarint(b[..k], f.num * 8 + f.wire) && IsValueAt(b[k..], f, m)
  }

  ghost predicate IsRecord(b: Bytes, f: Field) {
    exists k: nat, m: nat :: IsRecordAt(b, f, k, m)
  }

  lemma ParseValueSound(num: nat, wire: nat, rest: Bytes) returns (m: nat)
    requires ParseValue(num, wire, rest).Ok?
    ensures var rec := ParseValue(num, wire, rest).value;
      IsValueAt(rest[..rec.size], rec.field, m)
  {
    var Record(f, n) := ParseValue(num, wire, rest).value;
    m := 0;
    if wire == 0 {
      UvarintExact(rest, f.uvar, n);
    } else if wire == 2 {
      var l := Uvarint(rest).value;
      UvarintExact(rest, l.value, l.size);
      m := l.size;
      assert rest[..n][..m] == rest[..m];
      assert rest[..n][m..] == f.raw;
    }
  }

  lemma ParseRecordSound(data: Bytes)
    requires ParseRecord(data).Ok?
    ensures IsRecord(data[..ParseRecord(data).value.size], ParseRecord(data).value.field)
  {
    var Record(f, n) := ParseRecord(data).value;
    var tag := Uvarint(data).value;
    UvarintExact(data, tag.value, tag.size);
    var m := ParseValueSound(tag.value / 8, tag.value % 8, data[tag.size..]);
    Slices(data, tag.size, n);
    hide Uvarint, IsVarint, IsValueAt;
    assert IsRecordAt(data[..n], f, tag.size, m);
  }

  lemma ParseValueComplete(b: Bytes, f: Field, m: nat, rest: Bytes)
    requires IsValueAt(b, f, m)
    ensures ParseValue(f.num, f.wire, b + rest) == Ok(Record(f, |b|))
  {
    hide Uvarint, VarintValue;
    match f.wire {
      case 0 => UvarintOf(b, f.uvar, b + rest);
      case 2 =>
        assert b + rest == b[..m] + (f.raw + rest);
        UvarintOf(b[..m], |f.raw|, b + rest);
      case _ =>
    }
  }

  lemma TagParts(num: nat, wire: nat)
    requires wire < 8
    ensures (num * 8 + wire) / 8 == num && (num * 8 + wire) % 8 == wire
  {
  }

  lemma ParseRecordCompleteAt(b: Bytes, f: Field, k: nat, m: nat, rest: Bytes, data: Bytes)
    requires IsRecordAt(b, f, k, m) && data == b + rest
    ensures ParseRecord(data) == Ok(Record(f, |b|))
  {
    hide Uvarint, ParseValue, ParseRecord;
    UvarintOf(b[..k], f.num * 8 + f.wire, data);
    ParseValueComplete(b[k..], f, m, rest);
    assert data[k..] == b[k..] + rest;
    TagParts(f.num, f.wire);
    ParseRecordOf(data, f.num * 8 + f.wire, k, f, |b[k..]|);
  }

  lemma ParseRecordComplete(b: Bytes, f: Field, rest: Bytes)
    requires IsRecord(b, f)
    ensures ParseRecord(b + rest) == Ok(Record(f, |b|))
  {
    var k: nat, m: nat :| IsRecordAt(b, f, k, m);
    ParseRecordCompleteAt(b, f, k, m, rest, b + rest);
  }

  /** Adjacent records `parts` for the fields `fs`, nothing between them and nothing left over. */
  ghost predicate Tiles(data: Bytes, fs: seq<Field>, parts: seq<Bytes>) {
    && |parts| == |fs|
    && Flatten(parts) == data
    && forall i :: 0 <= i < |fs| ==> IsRecord(parts[i], fs[i])
  }

  lemma {:induction false} ParseSound(data: Bytes) returns (parts: seq<Bytes>)
    requires Parse(data).Ok?
    ensures Tiles(data, Parse(data).value, parts)
    decreases |data|
  {
    hide IsRecord, ParseRecord;
    if data == [] {
      parts := [];
    } else {
      ParseRecordSound(data);
      var rec := ParseRecord(data).value;
      var rest := ParseSound(data[rec.size..]);
      parts := [data[..rec.size]] + rest;
      assert parts[1..] == rest;
      assert data == data[..rec.size] + data[rec.size..];
    }
  }

  lemma {:induction false} ParseComplete(data: Bytes, fs: seq<Field>, parts: seq<Bytes>)
    requires Tiles(data, fs, parts)
    ensures Parse(data) == Ok(fs)
    decreases |parts|
  {
    hide IsRecord, ParseRecord;
    if parts != [] {
      var rest := Flatten(parts[1..]);
      ParseRecordComplete(parts[0], fs[0], rest);
      assert data[|parts[0]|..] == rest;
      ParseComplete(rest, fs[1..], parts[1..]);
      assert fs == [fs[0]] + fs[1..];
    }
  }

  /** The parser accepts exactly the tilings by well-formed records, and returns their fields in order. */
  lemma ParseExact(data: Bytes, fs: seq<Field>)
    ensures Parse(data) == Ok(fs) <==> exists parts :: Tiles(data, fs, parts)
  {
    if Parse(data) == Ok(fs) {
      var parts := ParseSound(data);
    }
    if exists parts :: Tiles(data, fs, parts) {
      var parts :| Tiles(data, fs, parts);
      ParseComplete(data, fs, parts);
    }
  }

  lemma ParseRecordAppend(a: Bytes, b: Bytes)
    requires ParseRecord(a).Ok?
    ensures ParseRecord(a + b) == ParseRecord(a)
    ensures (a + b)[ParseRecord(a).value.size..] == a[ParseRecord(a).value.size..] + b
  {
    var rec := ParseRecord(a).value;
    ParseRecordSound(a);
    assert a + b == a[..rec.size] + (a[rec.size..] + b);
    ParseRecordComplete(a[..rec.size], rec.field, a[rec.size..] + b);
  }

  /** Parsing is a homomorphism on accepted input; a later error is reported unchanged. */
  lemma {:induction false} ParseAppend(a: Bytes, b: Bytes)
    requires Parse(a).Ok?
    ensures Parse(a + b) == Prepend(Parse(a).value, Parse(b))
    decreases |a|
  {
    if a == [] {
      assert a + b == b;
      if Parse(b).Ok? {
        assert [] + Parse(b).value == Parse(b).value;
      }
    } else {
      var rec := ParseRecord(a).value;
      var tail := a[rec.size..];
      ParseRecordAppend(a, b);
      ParseAppend(tail, b);
      PrependTwice([rec.field], Parse(tail).value, Parse(b));
    }
  }

  lemma ParseOne(b: Bytes, f: Field)
    requires IsRecord(b, f)
    ensures b != [] && Parse(b) == Ok([f])
  {
    ParseRecordComplete(b, f, []);
    assert b + [] == b;
    assert ParseRecord(b) == Ok(Record(f, |b|));
    assert b[|b|..] == [];
    assert Parse(b[|b|..]) == Ok([]);
    assert [f] + [] == [f];
  }

  // ---------- writers ----------

  function AppendVarint(dst: Bytes, v: nat): Bytes {
    dst + Varint(v)
  }

  function AppendTag(dst: Bytes, num: nat, wire: nat): Bytes {
    AppendVarint(dst, num * 8 + wire)
  }

  /** Always writes the field, even if empty. */
  function AppendBytesField(dst: Bytes, num: nat, b: Bytes): (r: Bytes)
    ensures |r| > |dst| + |b|
  {
    AppendVarint(AppendTag(dst, num, 2), |b|) + b
  }

  /** Skips an empty string. */
  function AppendString(dst: Bytes, num: nat, s: Bytes): (r: Bytes)
    ensures |r| >= |dst| + |s|
  {
    if s == [] then dst else AppendVarint(AppendTag(dst, num, 2), |s|) + s
  }

  /** The two's-complement bits of `v` as an unsigned 32-bit number. */
  function ToUint32(v: int32): uint64 {
    v % TWO_32
  }

  /** Skips zero; a negative number is written as its unsigned 32-bit form. */
  function AppendInt32(dst: Bytes, num: nat, v: int32): (r: Bytes)
    ensures |r| >= |dst|
  {
    if v == 0 then dst else AppendVarint(AppendTag(dst, num, 0), ToUint32(v))
  }

  /** A slice that starts as nil and is only appended to: it is still nil iff nothing was written. */
  function Grown(b: Bytes): Option<Bytes> {
    if b == [] then None else Some(b)
  }

  /** Skips a nil sub-message; an empty one that is not nil is written. */
  function AppendMessage(dst: Bytes, num: nat, m: Option<Bytes>): (r: Bytes)
    ensures m.None? ==> r == dst
    ensures m.Some? ==> |r| > |dst| + |m.value|
  {
    if m.None? then dst else AppendBytesField(dst, num, m.value)
  }

  /** A uint64 read back as a 32-bit signed number, as protobuf readers do for int32 fields. */
  function ToInt32(u: nat): int32 {
    var w := u % TWO_32;
    if w >= 0x8000_0000 then w - TWO_32 else w
  }

  lemma Int32RoundTrip(v: int32)
    ensures ToInt32(ToUint32(v)) == v
  {
  }

  /** The field list of an optional length-delimited field. */
  function BytesFields(num: nat, s: Bytes): seq<Field> {
    if s == [] then [] else [Field(num, 2, 0, s)]
  }

  function Int32Fields(num: nat, v: int32): seq<Field> {
    if v == 0 then [] else [Field(num, 0, ToUint32(v), [])]
  }

  const MAX_FIELD := 0x1000_0000_0000

  lemma LengthDelimitedRecord(num: nat, s: Bytes) returns (rec: Bytes)
    requires num < MAX_FIELD && |s| < TWO_64
    ensures rec == Varint(num * 8 + 2) + Varint(|s|) + s && Parse(rec) == Ok([Field(num, 2, 0, s)])
  {
    var tag, len := Varint(num * 8 + 2), Varint(|s|);
    rec := tag + len + s;
    VarintIsVarint(num * 8 + 2);
    VarintIsVarint(|s|);
    assert rec[..|tag|] == tag;
    assert rec[|tag|..] == len + s;
    assert (len + s)[..|len|] == len && (len + s)[|len|..] == s;
    assert IsRecordAt(rec, Field(num, 2, 0, s), |tag|, |len|);
    ParseOne(rec, Field(num, 2, 0, s));
  }

  lemma LengthDelimitedParses(b: Bytes, fs: seq<Field>, num: nat, s: Bytes)
    requires Parse(b) == Ok(fs) && num < MAX_FIELD && |s| < TWO_64
    ensures Parse(AppendBytesField(b, num, s)) == Ok(fs + [Field(num, 2, 0, s)])
  {
    hide Varint, Parse;
    var rec := LengthDelimitedRecord(num, s);
    ParseAppend(b, rec);
    assert AppendBytesField(b, num, s) == b + rec;
  }

  lemma AppendStringParses(b: Bytes, fs: seq<Field>, num: nat, s: Bytes)
    requires Parse(b) == Ok(fs) && num < MAX_FIELD && |s| < TWO_64
    ensures Parse(AppendString(b, num, s)) == Ok(fs + BytesFields(num, s))
  {
    hide Varint, Parse;
    if s == [] {
      assert fs + [] == fs;
    } else {
      LengthDelimitedParses(b, fs, num, s);
      assert AppendString(b, num, s) == AppendBytesField(b, num, s);
    }
  }

  lemma AppendMessageParses(b: Bytes, fs: seq<Field>, num: nat, m: Bytes)
    requires Parse(b) == Ok(fs) && num < MAX_FIELD && |m| < TWO_64
    ensures Parse(AppendMessage(b, num, Grown(m))) == Ok(fs + BytesFields(num, m))
  {
    hide Varint, Parse, AppendBytesField;
    if m == [] {
      assert fs + [] == fs;
    } else {
      LengthDelimitedParses(b, fs, num, m);
    }
  }

  lemma VarintRecord(num: nat, u: uint64) returns (rec: Bytes)
    requires num < MAX_FIELD
    ensures rec == Varint(num * 8) + Varint(u) && Parse(rec) == Ok([Field(num, 0, u, [])])
  {
    var tag, val := Varint(num * 8), Varint(u);
    rec := tag + val;
    VarintIsVarint(num * 8);
    VarintIsVarint(u);
    assert rec[..|tag|] == tag;
    assert rec[|tag|..] == val;
    assert IsRecordAt(rec, Field(num, 0, u, []), |tag|, 0);
    ParseOne(rec, Field(num, 0, u, []));
  }

  lemma AppendInt32Parses(b: Bytes, fs: seq<Field>, num: nat, v: int32)
    requires Parse(b) == Ok(fs) && num < MAX_FIELD
    ensures Parse(AppendInt32(b, num, v)) == Ok(fs + Int32Fields(num, v))
  {
    if v == 0 {
      assert fs + [] == fs;
    } else {
      hide Varint, Parse;
      var u := ToUint32(v);
      var rec := VarintRecord(num, u);
      ParseAppend(b, rec);
      assert (b + Varint(num * 8)) + Varint(u) == b + rec;
    }
  }
}
