/** The framing of messages on the connection between controller and replica. */
module WireModel {
  import opened Layers

  type Bytes = seq<Byte>

  const MagicVersion: nat := 0x1b03

  datatype Message = Message(magic: nat, seqNo: nat, kind: nat, offset: int, size: int, data: Bytes)

  datatype Result<+T> = Ok(value: T) | EndOfStream | WrongVersion

  // ---- Little-endian numbers ----

  function Pow256(k: nat): (r: nat)
    ensures r > 0
  {
    if k == 0 then 1 else 256 * Pow256(k - 1)
  }

  /** The k low bytes of n, lowest first; higher ones are cut off. */
  function Little(n: nat, k: nat): (r: Bytes)
    ensures |r| == k
  {
    if k == 0 then [] else [(n % 256) as Byte] + Little(n / 256, k - 1)
  }

  function FromLittle(b: Bytes): nat {
    if b == [] then 0 else b[0] as nat + 256 * FromLittle(b[1..])
  }

  /** Reading back k bytes of a number gives the number modulo 256^k. */
  lemma {:induction false} LittleRoundTrip(n: nat, k: nat)
    ensures FromLittle(Little(n, k)) == n % Pow256(k)
  {
    if k > 0 {
      LittleRoundTrip(n / 256, k - 1);
      var low := (n % 256) as Byte;
      assert Little(n, k) == [low] + Little(n / 256, k - 1);
      assert Little(n, k)[1..] == Little(n / 256, k - 1);
      ModStep(n, Pow256(k - 1));
    }
  }

  lemma ModStep(n: nat, m: nat)
    requires m > 0
    ensures 256 * m > 0
    ensures n % 256 + 256 * ((n / 256) % m) == n % (256 * m)
  {
    var q, r := n / 256 / m, (n / 256) % m;
    assert n / 256 == q * m + r;
    assert n == 256 * (q * m + r) + n % 256;
    var rest := n % 256 + 256 * r;
    assert n == q * (256 * m) + rest by {
      assert 256 * (q * m) == q * (256 * m);
    }
    assert 0 <= rest < 256 * m by {
      assert r <= m - 1;
      assert 256 * r <= 256 * (m - 1);
    }
    DivModUnique(n, 256 * m, q, rest);
  }

  lemma MulMonotone(a: nat, b: nat, d: nat)
    requires a <= b
    ensures a * d <= b * d
  {
  }

  lemma DivModUnique(n: nat, d: nat, q: nat, r: nat)
    requires d > 0 && r < d && n == q * d + r
    ensures n % d == r
  {
    var q', r' := n / d, n % d;
    assert n == q' * d + r';
    if q < q' {
      MulMonotone(q + 1, q', d);
    } else {
      MulMonotone(q', q, d);
      if q' < q {
        MulMonotone(q' + 1, q, d);
      }
    }
  }

  /** The last byte has the greatest weight. */
  lemma {:induction false} LastByteIsHighest(b: Bytes, x: Byte)
    ensures FromLittle(b + [x]) == FromLittle(b) + Pow256(|b|) * x as nat
  {
    var all := b + [x];
    if b == [] {
      assert all[1..] == [];
    } else {
      LastByteIsHighest(b[1..], x);
      assert all[1..] == b[1..] + [x];
      assert 256 * (Pow256(|b| - 1) * x as nat) == Pow256(|b|) * x as nat;
    }
  }

  lemma SmallRoundTrip(n: nat, k: nat)
    requires n < Pow256(k)
    ensures FromLittle(Little(n, k)) == n
  {
    LittleRoundTrip(n, k);
  }

  // ---- Signed 64-bit numbers, as two's complement ----

  const Two63: int := 0x8000_0000_0000_0000
  const Two64: int := 0x1_0000_0000_0000_0000

  predicate Int64(x: int) {
    -Two63 <= x < Two63
  }

  function ToUnsigned(x: int): nat {
    if x >= 0 then x else if x + Two64 >= 0 then x + Two64 else 0
  }

  function ToSigned(n: nat): int {
    if n < Two63 then n else n - Two64
  }

  /** A signed number and the unsigned one sent for it differ by a multiple of 2^64. */
  lemma TwosComplement(x: int)
    requires Int64(x)
    ensures ToUnsigned(x) < Two64 && (ToUnsigned(x) - x) % Two64 == 0 && ToSigned(ToUnsigned(x)) == x
  {
  }

  // ---- Messages ----

  predicate Sendable(m: Message) {
    && m.magic == MagicVersion
    && m.seqNo < 0x1_0000_0000 && m.kind < 0x1_0000_0000
    && Int64(m.offset) && Int64(m.size)
  }

  function Header(m: Message): (r: Bytes)
    ensures |r| == 30
  {
    Little(m.magic, 2) + Little(m.seqNo, 4) + Little(m.kind, 4)
    + Little(ToUnsigned(m.offset), 8) + Little(ToUnsigned(m.size), 8) + Little(|m.data|, 4)
  }

  function Encode(m: Message): Bytes {
    Header(m) + m.data
  }

  function Decode(b: Bytes): (r: Result<(Message, Bytes)>)
    ensures r.Ok? ==> |r.value.1| < |b|
  {
    if |b| < 2 then EndOfStream
    else if FromLittle(b[..2]) != MagicVersion then WrongVersion
    else if |b| < 30 then EndOfStream
    else
      var length := FromLittle(b[26..30]);
      if |b| < 30 + length then EndOfStream
      else Ok((Message(FromLittle(b[..2]), FromLittle(b[2..6]), FromLittle(b[6..10]),
                       ToSigned(FromLittle(b[10..18])), ToSigned(FromLittle(b[18..26])), b[30..30 + length]),
               b[30 + length..]))
  }

  function Word(b: Bytes, p: nat): nat
    requires p + 4 <= |b|
  {
    b[p] as nat + 0x100 * b[p + 1] as nat + 0x1_0000 * b[p + 2] as nat + 0x100_0000 * b[p + 3] as nat
  }

  lemma WordIs(b: Bytes, p: nat)
    requires p + 4 <= |b|
    ensures FromLittle(b[p..p + 4]) == Word(b, p)
  {
    var w := b[p..p + 4];
    var w1, w2, w3 := w[1..], w[2..], w[3..];
    assert w1[1..] == w2 && w2[1..] == w3 && w3[1..] == [];
    assert FromLittle(w3) == w3[0] as nat + 256 * FromLittle(w3[1..]) == b[p + 3] as nat;
    assert FromLittle(w2) == w2[0] as nat + 256 * FromLittle(w3);
    assert FromLittle(w1) == w1[0] as nat + 256 * FromLittle(w2);
  }

  /**
    When reading fails: on a wrong version if and only if the first two bytes are not
    03 1b, and otherwise if and only if the header of 30 bytes, or the data whose length
    its last four bytes give, is not there in full.
  */
  lemma DecodeFailsIff(b: Bytes)
    ensures Decode(b) == WrongVersion <==> |b| >= 2 && !(b[0] == 0x03 && b[1] == 0x1b)
    ensures Decode(b) == EndOfStream <==>
              |b| < 2 || (b[0] == 0x03 && b[1] == 0x1b && (|b| < 30 || |b| < 30 + Word(b, 26)))
  {
    if |b| >= 2 {
      var w := b[..2];
      assert w[1..][1..] == [];
      assert FromLittle(w[1..]) == w[1] as nat + 256 * FromLittle(w[1..][1..]) == b[1] as nat;
      assert FromLittle(w) == b[0] as nat + 256 * b[1] as nat;
      if |b| >= 30 {
        WordIs(b, 26);
      }
    }
  }

  lemma Powers()
    ensures Pow256(2) == 0x1_0000 && Pow256(4) == 0x1_0000_0000 && Pow256(8) == Two64
  {
    assert Pow256(3) == 0x100_0000;
    assert Pow256(5) == 0x100_0000_0000;
    assert Pow256(6) == 0x1_0000_0000_0000;
    assert Pow256(7) == 0x100_0000_0000_0000;
  }

  lemma HeaderParts(m: Message, rest: Bytes)
    ensures var b := Header(m) + rest;
            && b[..2] == Little(m.magic, 2) && b[2..6] == Little(m.seqNo, 4) && b[6..10] == Little(m.kind, 4)
            && b[10..18] == Little(ToUnsigned(m.offset), 8) && b[18..26] == Little(ToUnsigned(m.size), 8)
            && b[26..30] == Little(|m.data|, 4) && b[30..] == rest
  {
    var magic, seqNo, kind := Little(m.magic, 2), Little(m.seqNo, 4), Little(m.kind, 4);
    var offset, size, length := Little(ToUnsigned(m.offset), 8), Little(ToUnsigned(m.size), 8), Little(|m.data|, 4);
    var b := Header(m) + rest;
    var b5 := length + rest;
    var b4 := size + b5;
    var b3 := offset + b4;
    var b2 := kind + b3;
    var b1 := seqNo + b2;
    assert b == magic + b1;
    Peel(b, magic, b1, 0);
    Peel(b, seqNo, b2, 2);
    Peel(b, kind, b3, 6);
    Peel(b, offset, b4, 10);
    Peel(b, size, b5, 18);
    Peel(b, length, rest, 26);
  }

  /** The field at position p, and what is behind it. */
  lemma Peel(b: Bytes, field: Bytes, rest: Bytes, p: nat)
    requires p <= |b| && b[p..] == field + rest
    ensures p + |field| <= |b| && b[p..p + |field|] == field && b[p + |field|..] == rest
  {
    assert forall k :: p <= k < |b| ==> b[k] == (field + rest)[k - p];
  }

  /** Every field of the header reads back as itself; the length, modulo 2^32. */
  lemma FieldsReadBack(m: Message)
    requires Sendable(m)
    ensures FromLittle(Little(m.magic, 2)) == m.magic
    ensures FromLittle(Little(m.seqNo, 4)) == m.seqNo && FromLittle(Little(m.kind, 4)) == m.kind
    ensures ToSigned(FromLittle(Little(ToUnsigned(m.offset), 8))) == m.offset
    ensures ToSigned(FromLittle(Little(ToUnsigned(m.size), 8))) == m.size
    ensures FromLittle(Little(|m.data|, 4)) == |m.data| % 0x1_0000_0000
  {
    Powers();
    SmallRoundTrip(m.magic, 2);
    SmallRoundTrip(m.seqNo, 4);
    SmallRoundTrip(m.kind, 4);
    SmallRoundTrip(ToUnsigned(m.offset), 8);
    SmallRoundTrip(ToUnsigned(m.size), 8);
    LittleRoundTrip(|m.data|, 4);
  }

  lemma CutOff(m: Message, rest: Bytes, n: nat)
    requires n <= |m.data|
    ensures var b := Encode(m) + rest;
            b[30..30 + n] == m.data[..n] && b[30 + n..] == m.data[n..] + rest
  {
    var b := Encode(m) + rest;
    assert b == Header(m) + (m.data + rest);
    assert forall k :: 30 <= k < |b| ==> b[k] == (m.data + rest)[k - 30];
  }

  /** What reading gives back: the data is cut off at its length modulo 2^32. */
  lemma DecodeEncode(m: Message, rest: Bytes)
    requires Sendable(m)
    ensures var n := |m.data| % 0x1_0000_0000;
            Decode(Encode(m) + rest) == Ok((m.(data := m.data[..n]), m.data[n..] + rest))
  {
    var n := |m.data| % 0x1_0000_0000;
    Associative(Header(m), m.data, rest);
    HeaderParts(m, m.data + rest);
    FieldsReadBack(m);
    DecodeFields(Encode(m) + rest, m, n);
    CutOff(m, rest, n);
  }

  lemma DecodeFields(b: Bytes, m: Message, n: nat)
    requires m.magic == MagicVersion && |b| >= 30 + n
    requires FromLittle(b[..2]) == m.magic && FromLittle(b[2..6]) == m.seqNo && FromLittle(b[6..10]) == m.kind
    requires ToSigned(FromLittle(b[10..18])) == m.offset && ToSigned(FromLittle(b[18..26])) == m.size
    requires FromLittle(b[26..30]) == n
    ensures Decode(b) == Ok((m.(data := b[30..30 + n]), b[30 + n..]))
  {
  }

  /** A message survives the wire, and what follows it is untouched, if and only if its data is below 2^32 bytes. */
  lemma RoundTripIff(m: Message, rest: Bytes)
    requires Sendable(m)
    ensures Decode(Encode(m) + rest) == Ok((m, rest)) <==> |m.data| < 0x1_0000_0000
  {
    DecodeEncode(m, rest);
    var n := |m.data| % 0x1_0000_0000;
    if |m.data| < 0x1_0000_0000 {
      assert m.data[..n] == m.data && m.data[n..] + rest == rest;
    }
  }

  function EncodeAll(ms: seq<Message>): Bytes {
    if ms == [] then [] else Encode(ms[0]) + EncodeAll(ms[1..])
  }

  /** The messages read one after the other, count of them. */
  function DecodeAll(b: Bytes, count: nat): Result<(seq<Message>, Bytes)> {
    if count == 0 then Ok(([], b))
    else match Decode(b)
      case EndOfStream => EndOfStream
      case WrongVersion => WrongVersion
      case Ok((m, rest)) =>
        match DecodeAll(rest, count - 1)
        case EndOfStream => EndOfStream
        case WrongVersion => WrongVersion
        case Ok((ms, end)) => Ok(([m] + ms, end))
  }

  /** A stream of messages is read back as sent, and the bytes behind it are left. */
  lemma {:induction false} StreamRoundTrip(ms: seq<Message>, rest: Bytes)
    requires forall k :: 0 <= k < |ms| ==> Sendable(ms[k]) && |ms[k].data| < 0x1_0000_0000
    ensures DecodeAll(EncodeAll(ms) + rest, |ms|) == Ok((ms, rest))
    decreases |ms|
  {
    if ms == [] {
      assert EncodeAll(ms) + rest == rest;
    } else {
      var m, more := ms[0], ms[1..];
      var tail := EncodeAll(more) + rest;
      StreamRoundTrip(more, rest);
      RoundTripIff(m, tail);
      Associative(Encode(m), EncodeAll(more), rest);
      DecodeOneMore(Encode(m) + tail, m, tail, more, rest);
      assert [m] + more == ms;
    }
  }

  lemma Associative(a: Bytes, b: Bytes, c: Bytes)
    ensures (a + b) + c == a + (b + c)
  {
  }

  lemma DecodeOneMore(b: Bytes, m: Message, tail: Bytes, ms: seq<Message>, rest: Bytes)
    requires Decode(b) == Ok((m, tail)) && DecodeAll(tail, |ms|) == Ok((ms, rest))
    ensures DecodeAll(b, |ms| + 1) == Ok(([m] + ms, rest))
  {
  }

  /** One end of a connection: what has been written and what is there to be read. */
  class Wire {
    var outgoing: Bytes
    var incoming: Bytes

    method WriteHeader(m: Message)
      modifies this`outgoing
      ensures outgoing == old(outgoing) + Header(m)
    {
      outgoing := outgoing + Little(m.magic, 2);
      outgoing := outgoing + Little(m.seqNo, 4);
      outgoing := outgoing + Little(m.kind, 4);
      outgoing := outgoing + Little(ToUnsigned(m.offset), 8);
      outgoing := outgoing + Little(ToUnsigned(m.size), 8);
      outgoing := outgoing + Little(|m.data|, 4);
    }

    /** Fields go out one by one, the data last. */
    method Write(m: Message)
      modifies this`outgoing
      ensures outgoing == old(outgoing) + Encode(m)
    {
      WriteHeader(m);
      if |m.data| > 0 {
        outgoing := outgoing + m.data;
      }
      Associative(old(outgoing), Header(m), m.data);
    }

    /** Takes the next k bytes off the stream, if there are that many. */
    method Take(k: nat) returns (b: Bytes, ok: bool)
      modifies this`incoming
      ensures ok <==> |old(incoming)| >= k
      ensures ok ==> b == old(incoming)[..k] && incoming == old(incoming)[k..]
    {
      if |incoming| < k {
        return [], false;
      }
      b := incoming[..k];
      incoming := incoming[k..];
      ok := true;
    }

    /** The fields of a header behind its version. */
    method TakeFields() returns (seqNo: Bytes, kind: Bytes, offset: Bytes, size: Bytes, length: Bytes, ok: bool)
      modifies this`incoming
      ensures ok <==> |old(incoming)| >= 28
      ensures ok ==> var b := old(incoming);
                     && seqNo == b[..4] && kind == b[4..8] && offset == b[8..16] && size == b[16..24] && length == b[24..28]
                     && incoming == b[28..]
    {
      kind, offset, size, length := [], [], [], [];
      seqNo, ok := Take(4);
      if ok {
        kind, ok := Take(4);
      }
      if ok {
        offset, ok := Take(8);
      }
      if ok {
        size, ok := Take(8);
      }
      if ok {
        length, ok := Take(4);
      }
    }

    /** Reads the fields one by one; a short stream or a wrong version is an error. */
    method Read() returns (r: Result<Message>)
      modifies this`incoming
      ensures match Decode(old(incoming))
              case EndOfStream => r == EndOfStream
              case WrongVersion => r == WrongVersion
              case Ok((m, rest)) => r == Ok(m) && incoming == rest
    {
      ghost var b := incoming;
      var magic, ok := Take(2);
      if !ok {
        return EndOfStream;
      }
      if FromLittle(magic) != MagicVersion {
        return WrongVersion;
      }
      var seqNo, kind, offset, size, length, data;
      seqNo, kind, offset, size, length, ok := TakeFields();
      if !ok {
        return EndOfStream;
      }
      assert seqNo == b[2..6] && kind == b[6..10] && offset == b[10..18] && size == b[18..26] && length == b[26..30];
      assert incoming == b[30..];
      data := [];
      if FromLittle(length) > 0 {
        data, ok := Take(FromLittle(length));
        if !ok { return EndOfStream; }
      }
      assert data == b[30..30 + FromLittle(length)];
      return Ok(Message(FromLittle(magic), FromLittle(seqNo), FromLittle(kind),
                        ToSigned(FromLittle(offset)), ToSigned(FromLittle(size)), data));
    }
  }
}
