/** Byte strings and big-endian numbers, as both hash functions use them. */
module HashBytes {
  type Bytes = seq<bv8>

  const WRAP := 0x1_0000_0000
  const WRAP64 := 0x1_0000_0000_0000_0000

  function Zeros(n: nat): (z: Bytes)
    ensures |z| == n
  {
    seq(n, _ => 0)
  }

  function AsByte(n: nat): bv8
    requires n < 256
  {
    n as bv8
  }

  function BigEndian32(n: nat): (b: Bytes)
    ensures |b| == 4
  {
    [AsByte(n / 0x100_0000 % 256), AsByte(n / 0x1_0000 % 256), AsByte(n / 0x100 % 256), AsByte(n % 256)]
  }

  /** The 64-bit length field. */
  function BigEndian64(n: nat): (b: Bytes)
    ensures |b| == 8
  {
    BigEndian32(n / 0x1_0000_0000) + BigEndian32(n)
  }

  lemma ByteZero(n: nat)
    requires n < 256
    ensures AsByte(n) == 0 <==> n == 0
  {
  }

  lemma LowBytes(n: nat)
    ensures BigEndian32(n % WRAP) == BigEndian32(n)
  {
    Low24(n);
    Low16(n);
    Low8(n);
    Low0(n);
    hide AsByte;
  }

  lemma Low0(n: nat)
    ensures n % WRAP % 256 == n % 256
  {
  }

  lemma Low24(n: nat)
    ensures n % WRAP / 0x100_0000 % 256 == n / 0x100_0000 % 256
  {
    var q, r := n / WRAP, n % WRAP;
    assert n / 0x100_0000 == r / 0x100_0000 + 0x100 * q;
  }

  lemma Low16(n: nat)
    ensures n % WRAP / 0x1_0000 % 256 == n / 0x1_0000 % 256
  {
    var q, r := n / WRAP, n % WRAP;
    assert n / 0x1_0000 == r / 0x1_0000 + 0x1_0000 * q;
  }

  lemma Low8(n: nat)
    ensures n % WRAP / 0x100 % 256 == n / 0x100 % 256
  {
    var q, r := n / WRAP, n % WRAP;
    assert n / 0x100 == r / 0x100 + 0x100_0000 * q;
  }

  lemma BytesOfZero(n: nat)
    requires n < WRAP
    ensures n / 0x100_0000 % 256 == 0 && n / 0x1_0000 % 256 == 0 && n / 0x100 % 256 == 0 && n % 256 == 0 <==> n == 0
  {
  }

  lemma HighBytes(n: nat)
    requires n < WRAP
    ensures BigEndian32(n) == Zeros(4) <==> n == 0
  {
    BytesOfZero(n);
    ByteZero(n / 0x100_0000 % 256);
    ByteZero(n / 0x1_0000 % 256);
    ByteZero(n / 0x100 % 256);
    ByteZero(n % 256);
    hide AsByte;
    var b := BigEndian32(n);
    assert b == Zeros(4) <==> b[0] == 0 && b[1] == 0 && b[2] == 0 && b[3] == 0;
  }

  lemma WrapSum(a: nat, b: nat)
    ensures (a % WRAP + b) % WRAP == (a + b) % WRAP
  {
  }

  lemma LengthBits(cut: nat, len: nat)
    ensures (cut % WRAP + len) * 8 % WRAP == 8 * (cut + len) % WRAP
  {
  }

  /** The number a byte string writes to the base 256, most significant byte first. */
  function Value(b: Bytes): nat {
    if b == [] then 0 else 256 * Value(b[..|b| - 1]) + (b[|b| - 1] as nat)
  }

  lemma NextByte(x: bv8)
    requires x as nat < 255
    ensures (x + 1) as nat == x as nat + 1
  {
    assert x < 255;
  }

  lemma ByteBack(x: bv8)
    ensures x as nat < 256 && AsByte(x as nat) == x
  {
  }

  lemma {:induction false} ByteOf(n: nat) returns (x: bv8)
    requires n < 256
    ensures x as nat == n
  {
    x := 0;
    if n > 0 {
      var y := ByteOf(n - 1);
      NextByte(y);
      x := y + 1;
    }
  }

  lemma AsByteValue(n: nat)
    requires n < 256
    ensures AsByte(n) as nat == n
  {
    hide AsByte;
    var x := ByteOf(n);
    ByteBack(x);
  }

  lemma {:induction false} ValueParts(a: Bytes, b: Bytes)
    requires |b| == 4
    ensures Value(a + b) == WRAP * Value(a) + Value(b)
  {
    ValueOfFour(a, b[0], b[1], b[2], b[3]);
    ValueOfFour([], b[0], b[1], b[2], b[3]);
    assert b == [b[0], b[1], b[2], b[3]] && [] + b == b;
    hide Value;
  }

  lemma ValueSnoc(a: Bytes, x: bv8)
    ensures Value(a + [x]) == 256 * Value(a) + (x as nat)
  {
    assert (a + [x])[..|a|] == a;
  }

  lemma ValueOfFour(a: Bytes, w: bv8, x: bv8, y: bv8, z: bv8)
    ensures Value(a + [w, x, y, z])
         == WRAP * Value(a) + 0x100_0000 * (w as nat) + 0x1_0000 * (x as nat) + 0x100 * (y as nat) + (z as nat)
  {
    hide Value;
    ValueSnoc(a, w);
    ValueSnoc(a + [w], x);
    ValueSnoc(a + [w] + [x], y);
    ValueSnoc(a + [w] + [x] + [y], z);
    assert a + [w] + [x] + [y] + [z] == a + [w, x, y, z];
  }

  lemma ValueNone()
    ensures Value([]) == 0
  {
  }

  /** The length fields write their number modulo 2^32 and 2^64. */
  lemma BigEndianValue(n: nat)
    ensures Value(BigEndian32(n)) == n % WRAP
  {
    hide Value, AsByte;
    var w, x, y, z := n / 0x100_0000 % 256, n / 0x1_0000 % 256, n / 0x100 % 256, n % 256;
    ValueOfFour([], AsByte(w), AsByte(x), AsByte(y), AsByte(z));
    ValueNone();
    AsByteValue(w);
    AsByteValue(x);
    AsByteValue(y);
    AsByteValue(z);
    assert [] + [AsByte(w), AsByte(x), AsByte(y), AsByte(z)] == BigEndian32(n);
    FourDigits(n);
  }

  lemma FourDigits(n: nat)
    ensures n % WRAP
         == 0x100_0000 * (n / 0x100_0000 % 256) + 0x1_0000 * (n / 0x1_0000 % 256) + 0x100 * (n / 0x100 % 256) + n % 256
  {
    var a := n / 256;
    var b := a / 256;
    var c := b / 256;
    assert n / 0x1_0000 == b && n / 0x100_0000 == c && n / WRAP == c / 256;
  }

  lemma BigEndian64Value(n: nat)
    ensures Value(BigEndian64(n)) == n % WRAP64
  {
    hide Value, BigEndian32;
    BigEndianValue(n / WRAP);
    BigEndianValue(n);
    ValueParts(BigEndian32(n / WRAP), BigEndian32(n));
    var a := n / WRAP;
    assert n == WRAP * a + n % WRAP && a == WRAP * (a / WRAP) + a % WRAP;
  }

  // ---------------------------------------------------------------- messages in pieces

  function Joined(pieces: seq<Bytes>, n: nat): Bytes
    requires n <= |pieces|
  {
    if n == 0 then [] else Joined(pieces, n - 1) + pieces[n - 1]
  }

  lemma JoinedNone(pieces: seq<Bytes>)
    ensures Joined(pieces, 0) == []
  {
  }

  lemma JoinedNext(pieces: seq<Bytes>, i: nat)
    requires i < |pieces|
    ensures Joined(pieces, i + 1) == Joined(pieces, i) + pieces[i]
    ensures |pieces[i]| <= |Joined(pieces, i + 1)|
  {
  }

  lemma {:induction false} JoinedGrows(pieces: seq<Bytes>, n: nat)
    requires n <= |pieces|
    ensures |Joined(pieces, n)| <= |Joined(pieces, |pieces|)|
    decreases |pieces| - n
  {
    if n < |pieces| { JoinedGrows(pieces, n + 1); }
  }
}
