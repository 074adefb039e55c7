/**
 The variable-length integer that prefixes every string written to a file:
 the encoder, a decoder that takes the encoder's own body length, and the
 reader the library has, which asks for one body byte more.
 */
module HadoopVLong {
  import opened Wrappers
  import opened Bytes

  const TWO_63: int := 0x8000_0000_0000_0000
  const TWO_64: int := 0x1_0000_0000_0000_0000

  type Long = x: int | -TWO_63 <= x < TWO_63
  newtype Int8 = x: int | -128 <= x < 128

  /** `byte(x)` and `int8(b)`. */
  function AsByte(x: int): Byte
    requires -128 <= x < 128
  {
    if x < 0 then x + 256 else x
  }

  function AsSigned(b: Byte): int { if b < 128 then b else b - 256 }

  /** The low 64 bits, read as a signed number. */
  function Wrap(x: int): Long {
    var low := x % TWO_64;
    if low < TWO_63 then low else low - TWO_64
  }

  // ---- base 256 ----

  function Pow256(n: nat): (p: nat)
    ensures p >= 1
  {
    if n == 0 then 1 else 256 * Pow256(n - 1)
  }

  /** `e >> (8 * k)`. */
  function ShiftRight(e: nat, k: nat): nat { if k == 0 then e else ShiftRight(e, k - 1) / 256 }

  function Width(e: nat): nat { if e == 0 then 0 else 1 + Width(e / 256) }

  function BigEndian(e: nat, n: nat): Row { if n == 0 then [] else BigEndian(e / 256, n - 1) + [e % 256] }

  function Fold(body: Row): nat {
    if body == [] then 0 else 256 * Fold(body[..|body| - 1]) + body[|body| - 1]
  }

  lemma {:induction false} WidthIsLeast(e: nat, n: nat)
    ensures Width(e) <= n <==> e < Pow256(n)
  {
    if n > 0 && e > 0 { WidthIsLeast(e / 256, n - 1); }
  }

  lemma {:induction false} FoldBigEndian(e: nat, n: nat)
    requires e < Pow256(n)
    ensures |BigEndian(e, n)| == n && Fold(BigEndian(e, n)) == e
  {
    if n > 0 {
      FoldBigEndian(e / 256, n - 1);
      assert BigEndian(e, n)[..n - 1] == BigEndian(e / 256, n - 1);
    }
  }

  lemma {:induction false} BigEndianFold(body: Row)
    ensures Fold(body) < Pow256(|body|) && BigEndian(Fold(body), |body|) == body
  {
    if body != [] {
      var front, last := body[..|body| - 1], body[|body| - 1];
      BigEndianFold(front);
      assert (256 * Fold(front) + last) / 256 == Fold(front) && (256 * Fold(front) + last) % 256 == last;
      assert body == front + [last];
    }
  }

  lemma {:induction false} FoldHead(first: Byte, rest: Row)
    ensures Fold([first] + rest) == first * Pow256(|rest|) + Fold(rest)
  {
    var body := [first] + rest;
    if rest == [] {
      assert body[..0] == [];
    } else {
      var front, last := rest[..|rest| - 1], rest[|rest| - 1];
      FoldHead(first, front);
      assert body[..|body| - 1] == [first] + front;
      assert first * Pow256(|rest|) == 256 * (first * Pow256(|front|));
    }
  }

  // ---- the code ----

  predicate OneByte(v: int) { -112 <= v <= 127 }

  /** `value ^ -1` below zero. */
  function Magnitude(v: Long): nat { if v < 0 then -1 - v else v }

  lemma LongWidth(v: Long)
    ensures Width(Magnitude(v)) <= 8
    ensures Magnitude(v) < Pow256(Width(Magnitude(v)))
    ensures !OneByte(v) ==> Width(Magnitude(v)) >= 1
  {
    assert Pow256(8) == TWO_64;
    WidthIsLeast(Magnitude(v), 8);
    WidthIsLeast(Magnitude(v), Width(Magnitude(v)));
  }

  /** The head byte, as a signed number: the value itself, or the sign and the body length. */
  function Head(v: Long): (h: int)
    ensures -128 <= h < 128
    ensures OneByte(v) <==> h >= -112
    ensures !OneByte(v) ==> (v >= 0 <==> h >= -120)
  {
    LongWidth(v);
    if OneByte(v) then v else (if v < 0 then -120 else -112) - Width(Magnitude(v))
  }

  function Body(v: Long): Row { if OneByte(v) then [] else BigEndian(Magnitude(v), Width(Magnitude(v))) }

  function Encode(v: Long): Row { [AsByte(Head(v))] + Body(v) }

  lemma BodyStep(prefix: Row, e: nat, index: nat, done: nat)
    requires index > 0
    ensures prefix + BigEndian(ShiftRight(e, index), done) + [ShiftRight(e, index - 1) % 256] ==
            prefix + BigEndian(ShiftRight(e, index - 1), done + 1)
  {
  }

  lemma BodyEnds(e: nat, n: nat)
    ensures ShiftRight(e, 0) == e && BigEndian(ShiftRight(e, n), 0) == []
  {
  }

  /** `appendHadoopVLong`. */
  method AppendVLong(dst: Row, value: Long) returns (out: Row)
    ensures out == dst + Encode(value)
  {
    hide BigEndian, ShiftRight, Pow256;
    LongWidth(value);
    if value >= -112 && value <= 127 {
      return dst + [AsByte(value)];
    }
    var length: Int8, encoded: Long := -112, value;
    if value < 0 {
      encoded, length := -1 - value, -120;
    }
    ghost var base := length;
    var current: nat := encoded;
    while current != 0
      invariant Width(current) <= 8
      invariant length as int == base as int - (Width(encoded) - Width(current))
    {
      current, length := current / 256, length - 1;
    }
    var prefix := dst + [AsByte(length as int)];
    var count: Int8 := -(length + 112);
    if length < -120 {
      count := -(length + 120);
    }
    assert encoded == Magnitude(value) && count as int == Width(Magnitude(value));
    assert prefix == dst + [AsByte(Head(value))];
    out := AppendBody(prefix, encoded, count as int);
  }

  /** The loop that appends the body, most significant byte first. */
  method AppendBody(dst: Row, encoded: nat, count: nat) returns (out: Row)
    ensures out == dst + BigEndian(encoded, count)
  {
    hide BigEndian, ShiftRight;
    out := dst;
    var index := count;
    BodyEnds(encoded, count);
    while index > 0
      invariant 0 <= index <= count
      invariant out == dst + BigEndian(ShiftRight(encoded, index), count - index)
    {
      BodyStep(dst, encoded, index, count - index);
      out := out + [ShiftRight(encoded, index - 1) % 256];
      index := index - 1;
    }
  }

  // ---- a decoder that takes the encoder's own body length ----

  /** Body length and sign, from the head alone. */
  function BodyLength(head: Byte): nat {
    var h := AsSigned(head);
    if h >= -112 then 0 else if h >= -120 then -112 - h else -120 - h
  }

  predicate Negative(head: Byte) { AsSigned(head) < -120 }

  datatype Decoded = Decoded(value: int, rest: Row)

  function Decode(code: Row): (d: Option<Decoded>) {
    if code == [] || |code| < 1 + BodyLength(code[0]) then None
    else
      var n := BodyLength(code[0]);
      var e := Fold(code[1..1 + n]);
      Some(Decoded(if n == 0 then AsSigned(code[0]) else if Negative(code[0]) then -1 - e else e, code[1 + n..]))
  }

  /** One to nine bytes, and the head alone fixes the sign and the length. */
  lemma HeadFixesLength(v: Long)
    ensures 1 <= |Encode(v)| <= 9
    ensures |Encode(v)| == 1 + BodyLength(Encode(v)[0])
    ensures !OneByte(v) ==> (Negative(Encode(v)[0]) <==> v < 0)
    ensures |Encode(v)| == 1 <==> OneByte(v)
  {
    hide Pow256, BigEndian, Fold, Width;
    LongWidth(v);
    FoldBigEndian(Magnitude(v), Width(Magnitude(v)));
  }

  /** Whatever follows the code, decoding recovers the value and leaves the rest. */
  lemma DecodeEncode(v: Long, rest: Row)
    ensures Decode(Encode(v) + rest) == Some(Decoded(v, rest))
  {
    hide Pow256, BigEndian, Fold, Width;
    HeadFixesLength(v);
    LongWidth(v);
    var code, n := Encode(v) + rest, |Body(v)|;
    assert code[0] == Encode(v)[0];
    assert code[1..1 + n] == Body(v) && code[1 + n..] == rest;
    FoldBigEndian(Magnitude(v), Width(Magnitude(v)));
  }

  /** Injective and prefix-free: two streams that start with a code and agree hold the same value. */
  lemma PrefixFree(v: Long, w: Long, rest: Row, other: Row)
    requires Encode(v) + rest == Encode(w) + other
    ensures v == w && rest == other
  {
    hide Encode, Decode;
    DecodeEncode(v, rest);
    DecodeEncode(w, other);
  }

  /** No leading zero byte, a value that needs a body, and one that fits 64 bits. */
  predicate Shortest(code: Row)
    requires Decode(code).Some?
  {
    var n, v := BodyLength(code[0]), Decode(code).value.value;
    n == 0 || (code[1] != 0 && !OneByte(v) && -TWO_63 <= v < TWO_63)
  }

  lemma {:induction false} LeadingByte(body: Row)
    requires body != []
    ensures Width(Fold(body)) == |body| <==> body[0] != 0
  {
    hide Pow256;
    var front, last := body[..|body| - 1], body[|body| - 1];
    assert Fold(body) / 256 == Fold(front);
    if front != [] {
      LeadingByte(front);
    }
  }

  /** Exactly the shortest codes are what the encoder writes. */
  lemma EncodeDecode(code: Row)
    requires Decode(code).Some?
    ensures Shortest(code) <==>
            var d := Decode(code).value; -TWO_63 <= d.value < TWO_63 && Encode(d.value) + d.rest == code
  {
    hide Pow256, BigEndian, Fold, Width;
    var d, n := Decode(code).value, BodyLength(code[0]);
    var body := code[1..1 + n];
    assert code == [code[0]] + body + d.rest;
    BigEndianFold(body);
    if n > 0 {
      LeadingByte(body);
    }
    if -TWO_63 <= d.value < TWO_63 {
      HeadFixesLength(d.value);
      if Encode(d.value) + d.rest == code {
        assert Encode(d.value)[0] == code[0];
      }
    }
  }

  // ---- the library's reader ----

  function ReaderCount(head: Byte): nat {
    var h := AsSigned(head);
    if h >= -112 then 0 else if h >= -120 then -111 - h else -119 - h
  }

  function WrapFold(body: Row): Long {
    if body == [] then 0 else Wrap(256 * WrapFold(body[..|body| - 1]) + body[|body| - 1])
  }

  /** A value, or an error when the stream is short; and how many bytes were taken. */
  datatype Outcome<T> = Outcome(value: Option<T>, consumed: nat)

  function ReadValue(input: Row): Outcome<Long> {
    if input == [] then Outcome(None, 0)
    else
      var n := ReaderCount(input[0]);
      if |input| < 1 + n then Outcome(None, |input|)
      else if n == 0 then Outcome(Some(AsSigned(input[0])), 1)
      else
        var value := WrapFold(input[1..1 + n]);
        Outcome(Some(if Negative(input[0]) then -1 - value else value), 1 + n)
  }

  function WriteString(s: Row): Row
    requires |s| < TWO_63
  {
    Encode(|s|) + s
  }

  function ReadString(input: Row): Outcome<Row> {
    var size := ReadValue(input);
    if size.value.None? || size.value.value < 0 then Outcome(None, size.consumed)
    else
      var end := size.consumed + size.value.value;
      if |input| < end then Outcome(None, |input|) else Outcome(Some(input[size.consumed..end]), end)
  }

  class InputStream {
    const bytes: Row
    var offset: nat

    ghost predicate Valid() reads this { offset <= |bytes| }

    /** The bytes not read yet. */
    ghost function Ahead(): Row reads this requires Valid() { bytes[offset..] }

    constructor (contents: Row)
      ensures Valid() && bytes == contents && offset == 0
    {
      bytes, offset := contents, 0;
    }

    /** `io.ReadFull`: all or an error, and a short read takes what there is. */
    method ReadBytes(count: nat) returns (r: Option<Row>)
      requires Valid()
      modifies this
      ensures Valid()
      ensures r == if count <= |old(Ahead())| then Some(old(Ahead())[..count]) else None
      ensures offset == old(offset) + if r.Some? then count else |old(Ahead())|
    {
      if offset + count <= |bytes| {
        r := Some(bytes[offset..offset + count]);
        assert r.value == Ahead()[..count];
        offset := offset + count;
      } else {
        r, offset := None, |bytes|;
      }
    }

    method ReadVLong() returns (r: Option<Long>)
      requires Valid()
      modifies this
      ensures Valid()
      ensures offset >= old(offset) && Outcome(r, offset - old(offset)) == ReadValue(old(Ahead()))
    {
      ghost var input := Ahead();
      var first := ReadBytes(1);
      if first.None? {
        return None;
      }
      var head := AsSigned(first.value[0]);
      assert first.value[0] == input[0];
      if head >= -112 {
        return Some(head);
      }
      var count, negative := -119 - head, true;
      if head >= -120 {
        count, negative := -111 - head, false;
      }
      assert Ahead() == input[1..];
      var body := ReadBytes(count);
      if body.None? {
        return None;
      }
      assert body.value == input[1..1 + count];
      var value := FoldBytes(body.value);
      r := Some(if negative then -1 - value else value);
    }

    method ReadText() returns (r: Option<Row>)
      requires Valid()
      modifies this
      ensures Valid()
      ensures offset >= old(offset) && Outcome(r, offset - old(offset)) == ReadString(old(Ahead()))
    {
      hide ReadValue;
      ghost var input := Ahead();
      var size := ReadVLong();
      if size.None? || size.value < 0 {
        return None;
      }
      ghost var start := offset - old(offset);
      assert Ahead() == input[start..];
      r := ReadBytes(size.value);
      assert r.Some? ==> r.value == input[start..start + size.value];
    }
  }

  method FoldBytes(body: Row) returns (value: Long)
    ensures value == WrapFold(body)
  {
    hide Wrap;
    value := 0;
    for i := 0 to |body|
      invariant value == WrapFold(body[..i])
    {
      assert body[..i + 1][..i] == body[..i];
      value := Wrap(256 * value + body[i]);
    }
    assert body[..|body|] == body;
  }

  lemma WrapAbsorbs(x: int, k: int)
    ensures Wrap(x + k * TWO_64) == Wrap(x)
  {
    assert (x + k * TWO_64) % TWO_64 == x % TWO_64;
  }

  lemma {:induction false} WrapFoldIsFold(body: Row)
    ensures WrapFold(body) == Wrap(Fold(body))
  {
    if body != [] {
      var front, last := body[..|body| - 1], body[|body| - 1];
      WrapFoldIsFold(front);
      var x := Fold(front);
      var k := if x % TWO_64 < TWO_63 then x / TWO_64 else x / TWO_64 + 1;
      assert Wrap(x) == x - k * TWO_64;
      WrapAbsorbs(256 * x + last, -256 * k);
    }
  }

  lemma FixedByShift(body: Row, b: Byte)
    requires body != []
    ensures body[1..] + [b] == body <==> forall i | 0 <= i < |body| :: body[i] == b
  {
    if body[1..] + [b] == body {
      forall i | 0 <= i < |body| ensures body[i] == b { SameToTheEnd(body, b, i); }
    }
  }

  lemma {:induction false} SameToTheEnd(body: Row, b: Byte, i: nat)
    requires i < |body| && body[1..] + [b] == body
    ensures body[i] == b
    decreases |body| - i
  {
    assert body[i] == (body[1..] + [b])[i];
    if i + 1 < |body| {
      SameToTheEnd(body, b, i + 1);
    }
  }

  lemma FoldInjective(a: Row, b: Row)
    requires |a| == |b|
    ensures Fold(a) == Fold(b) <==> a == b
  {
    BigEndianFold(a);
    BigEndianFold(b);
  }

  lemma WrapShort(e: nat, b: Byte)
    requires 0 < e < Pow256(7)
    ensures Wrap(256 * e + b) != e
  {
    assert Pow256(7) == 0x100_0000_0000_0000;
  }

  lemma WrapEquals(x: nat, y: nat)
    requires x < TWO_64 && y < TWO_63
    ensures Wrap(x) == y <==> x == y
  {
  }

  lemma EightBytes()
    ensures Pow256(8) == TWO_64
  {
  }

  /** Shifting one byte into a 64-bit number leaves it unchanged exactly when all its bytes are that byte. */
  lemma WrapLong(body: Row, b: Byte)
    requires |body| == 8 && Fold(body) < TWO_63
    ensures Wrap(Fold(body + [b])) == Fold(body) <==> forall i | 0 <= i < 8 :: body[i] == b
  {
    hide Fold, Wrap, Pow256;
    var tail := body[1..] + [b];
    assert body + [b] == [body[0]] + tail;
    FoldHead(body[0], tail);
    BigEndianFold(tail);
    EightBytes();
    WrapAbsorbs(Fold(tail), body[0]);
    WrapEquals(Fold(tail), Fold(body));
    FoldInjective(tail, body);
    FixedByShift(body, b);
  }

  /** The bytes the reader asks for, head included: one more than were written unless the head is all. */
  lemma ReaderAsksOneMore(v: Long)
    ensures 1 + ReaderCount(Encode(v)[0]) == |Encode(v)| + (if OneByte(v) then 0 else 1)
  {
    HeadFixesLength(v);
  }

  /** When the value read back is nevertheless the one written. */
  predicate Accident(v: Long, rest: Row) {
    rest != [] && |Body(v)| == 8 && forall i | 0 <= i < 8 :: Body(v)[i] == rest[0]
  }

  lemma ReadShifted(v: Long, rest: Row)
    requires !OneByte(v) && rest != []
    ensures var r := ReadValue(Encode(v) + rest);
            r.consumed == |Encode(v)| + 1 && (r.value == Some(v) <==> Accident(v, rest))
  {
    hide Fold, Wrap, Pow256, BigEndian, Width;
    var input, body, b := Encode(v) + rest, Body(v), rest[0];
    HeadFixesLength(v);
    ReaderAsksOneMore(v);
    assert input[0] == Encode(v)[0];
    assert input[1..1 + ReaderCount(input[0])] == body + [b];
    WrapFoldIsFold(body + [b]);
    LongWidth(v);
    FoldBigEndian(Magnitude(v), Width(Magnitude(v)));
    ShiftedValue(v, b);
  }

  lemma ShiftedValue(v: Long, b: Byte)
    requires !OneByte(v)
    ensures Wrap(Fold(Body(v) + [b])) == Magnitude(v) <==> |Body(v)| == 8 && forall i | 0 <= i < 8 :: Body(v)[i] == b
  {
    hide Wrap, BigEndian, Pow256;
    var body, e := Body(v), Magnitude(v);
    LongWidth(v);
    FoldBigEndian(e, Width(e));
    if |body| == 8 {
      WrapLong(body, b);
    } else {
      WidthIsLeast(e, 7);
      assert (body + [b])[..|body|] == body;
      WrapShort(e, b);
    }
  }

  /** The reader recovers the value and its place in the stream exactly for one-byte codes. */
  lemma ReaderAgreesExactly(v: Long, rest: Row)
    ensures ReadValue(Encode(v) + rest) == Outcome(Some(v), |Encode(v)|) <==> OneByte(v)
    ensures ReadValue(Encode(v) + rest).value == Some(v) <==> OneByte(v) || Accident(v, rest)
    ensures ReadValue(Encode(v) + rest).value.None? <==> !OneByte(v) && rest == []
  {
    hide WrapFold, Width, BigEndian, Pow256;
    var input := Encode(v) + rest;
    HeadFixesLength(v);
    ReaderAsksOneMore(v);
    assert input[0] == Encode(v)[0];
    if !OneByte(v) && rest != [] {
      ReadShifted(v, rest);
    }
  }

  /**
   Whatever follows it, a string is read back, up to its end, exactly when it is
   at most 127 bytes long; with nothing behind it a longer one never is.
   */
  lemma StringRoundTrip(s: Row, rest: Row)
    requires |s| < TWO_63
    ensures ReadString(WriteString(s) + rest) == Outcome(Some(s), |WriteString(s)|) <==> |s| <= 127
    ensures ReadString(WriteString(s)).value == Some(s) <==> |s| <= 127
  {
    hide ReadValue, Encode;
    assert WriteString(s) + rest == Encode(|s|) + (s + rest);
    ReaderAgreesExactly(|s|, s + rest);
    ReaderAgreesExactly(|s|, s);
    if |s| > 127 {
      ReadShifted(|s|, s + rest);
      ReadShifted(|s|, s);
    } else {
      HeadFixesLength(|s|);
      assert WriteString(s)[1..1 + |s|] == s == (WriteString(s) + rest)[1..1 + |s|];
    }
  }
}
