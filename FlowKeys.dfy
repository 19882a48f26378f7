/** FlowKey, the example key of the map: four Java ints (two addresses, two ports) that
    `write` lays into the first 16 bytes of a key region and `equals` compares against them.

    Agrona's `getInt`/`putInt` use the platform's native byte order; the model fixes it to
    little-endian. The serialiser order is sourceAddress, sourcePort, destinationAddress,
    destinationPort at byte offsets 0, 4, 8 and 12, which is not the declaration order of the
    fields. */
module FlowKeys {

  import opened JavaInt

  /** The value a FlowKey object holds. */
  datatype Flow = Flow(sourceAddress: Int32, destinationAddress: Int32, sourcePort: Int32, destinationPort: Int32)

  /** keySize(): the number of key bytes a FlowKey occupies. */
  const KEY_SIZE: nat := 16

  // ---------------------------------------------------------------------------------------
  // One int as four bytes

  /** The four bytes `putInt` stores for `x`, least significant first. */
  function IntBytes(x: Int32): (r: seq<Byte>)
    ensures |r| == 4
  {
    var u := if x < 0 then x + 0x1_0000_0000 else x;
    [u % 0x100, (u / 0x100) % 0x100, (u / 0x1_0000) % 0x100, u / 0x100_0000]
  }

  /** The int `getInt` reads from the four bytes at `at`. */
  function GetInt(b: seq<Byte>, at: nat): Int32
    requires at + 4 <= |b|
  {
    var u := b[at] as int + 0x100 * (b[at + 1] as int) + 0x1_0000 * (b[at + 2] as int) + 0x100_0000 * (b[at + 3] as int);
    if u <= MAX_VALUE then u else u - 0x1_0000_0000
  }

  /** Reading back an int that was written gives that int. */
  lemma {:induction false} GetIntOfIntBytes(x: Int32, b: seq<Byte>, at: nat)
    requires at + 4 <= |b| && b[at..at + 4] == IntBytes(x)
    ensures GetInt(b, at) == x
  {
    var u := if x < 0 then x + 0x1_0000_0000 else x;
    assert b[at] == u % 0x100 && b[at + 1] == (u / 0x100) % 0x100;
    assert b[at + 2] == (u / 0x1_0000) % 0x100 && b[at + 3] == u / 0x100_0000;
    Digits(u);
  }

  /** Writing back the int that was read gives the same four bytes. */
  lemma {:induction false} IntBytesOfGetInt(b: seq<Byte>, at: nat)
    requires at + 4 <= |b|
    ensures IntBytes(GetInt(b, at)) == b[at..at + 4]
  {
    var u := b[at] as int + 0x100 * (b[at + 1] as int) + 0x1_0000 * (b[at + 2] as int) + 0x100_0000 * (b[at + 3] as int);
    Undigits(b[at], b[at + 1], b[at + 2], b[at + 3]);
    assert (if GetInt(b, at) < 0 then GetInt(b, at) + 0x1_0000_0000 else GetInt(b, at) as int) == u;
  }

  lemma Digits(u: int)
    requires 0 <= u < 0x1_0000_0000
    ensures u % 0x100 + 0x100 * ((u / 0x100) % 0x100) + 0x1_0000 * ((u / 0x1_0000) % 0x100)
            + 0x100_0000 * (u / 0x100_0000) == u
  {
    var a := u / 0x100;
    var c := a / 0x100;
    assert u == 0x100 * a + u % 0x100;
    assert a == 0x100 * c + a % 0x100;
    assert c == 0x100 * (c / 0x100) + c % 0x100;
    assert u / 0x1_0000 == c by { DivDiv(u, 0x100, 0x100); }
    assert u / 0x100_0000 == c / 0x100 by { DivDiv(u, 0x1_0000, 0x100); DivDiv(u, 0x100, 0x100); }
  }

  lemma Undigits(b0: Byte, b1: Byte, b2: Byte, b3: Byte)
    ensures var u := b0 + 0x100 * b1 + 0x1_0000 * b2 + 0x100_0000 * b3;
      u % 0x100 == b0 && (u / 0x100) % 0x100 == b1 && (u / 0x1_0000) % 0x100 == b2 && u / 0x100_0000 == b3
  {
    var u := b0 + 0x100 * b1 + 0x1_0000 * b2 + 0x100_0000 * b3;
    var a := b1 + 0x100 * b2 + 0x1_0000 * b3;
    var c := b2 + 0x100 * b3;
    assert u == b0 + 0x100 * a;
    assert a == b1 + 0x100 * c;
    assert u / 0x100 == a && u % 0x100 == b0;
    assert a / 0x100 == c && a % 0x100 == b1;
    assert c / 0x100 == b3 && c % 0x100 == b2;
    DivDiv(u, 0x100, 0x100);
    DivDiv(u, 0x1_0000, 0x100);
  }

  lemma DivDiv(u: int, p: int, q: int)
    requires 0 <= u && (p, q) in {(0x100, 0x100), (0x1_0000, 0x100)}
    ensures u / p / q == u / (p * q)
  {
    var a := u / p;
    var c := a / q;
    var r := p * (a % q) + u % p;
    assert u == p * a + u % p;
    assert a == q * c + a % q;
    assert u == (p * q) * c + r;
    assert 0 <= r < p * q;
  }

  // ---------------------------------------------------------------------------------------
  // The 16-byte key

  /** The bytes `write` stores, in the order it stores them. */
  function Encode(f: Flow): (r: seq<Byte>)
    ensures |r| == KEY_SIZE
  {
    IntBytes(f.sourceAddress) + IntBytes(f.sourcePort)
      + IntBytes(f.destinationAddress) + IntBytes(f.destinationPort)
  }

  /** The flow whose key bytes are the first 16 of `b`. */
  function Decode(b: seq<Byte>): Flow
    requires |b| >= KEY_SIZE
  {
    Flow(GetInt(b, 0), GetInt(b, 8), GetInt(b, 4), GetInt(b, 12))
  }

  /** Each field sits at its own offset of the encoding. */
  lemma EncodeFields(f: Flow)
    ensures Encode(f)[0..4] == IntBytes(f.sourceAddress)
    ensures Encode(f)[4..8] == IntBytes(f.sourcePort)
    ensures Encode(f)[8..12] == IntBytes(f.destinationAddress)
    ensures Encode(f)[12..16] == IntBytes(f.destinationPort)
  {
    var a, b, c, d := IntBytes(f.sourceAddress), IntBytes(f.sourcePort),
      IntBytes(f.destinationAddress), IntBytes(f.destinationPort);
    assert Encode(f) == a + b + c + d;
    assert (a + b + c + d)[4..8] == b;
    assert (a + b + c + d)[8..12] == c;
  }

  /** Decoding the written key bytes gives the flow back. */
  lemma {:induction false} DecodeEncode(f: Flow, region: seq<Byte>)
    requires |region| >= KEY_SIZE && region[..KEY_SIZE] == Encode(f)
    ensures Decode(region) == f
  {
    EncodeFields(f);
    assert region[0..4] == Encode(f)[0..4];
    assert region[4..8] == Encode(f)[4..8];
    assert region[8..12] == Encode(f)[8..12];
    assert region[12..16] == Encode(f)[12..16];
    GetIntOfIntBytes(f.sourceAddress, region, 0);
    GetIntOfIntBytes(f.sourcePort, region, 4);
    GetIntOfIntBytes(f.destinationAddress, region, 8);
    GetIntOfIntBytes(f.destinationPort, region, 12);
  }

  /** Every 16 bytes are the key bytes of the flow they decode to. */
  lemma {:induction false} EncodeDecode(region: seq<Byte>)
    requires |region| >= KEY_SIZE
    ensures Encode(Decode(region)) == region[..KEY_SIZE]
  {
    IntBytesOfGetInt(region, 0);
    IntBytesOfGetInt(region, 4);
    IntBytesOfGetInt(region, 8);
    IntBytesOfGetInt(region, 12);
    assert region[..KEY_SIZE] == region[0..4] + region[4..8] + region[8..12] + region[12..16];
  }

  /** Distinct flows have distinct key bytes. */
  lemma EncodeInjective(f: Flow, g: Flow)
    requires Encode(f) == Encode(g)
    ensures f == g
  {
    DecodeEncode(f, Encode(f));
    DecodeEncode(g, Encode(g));
  }

  // ---------------------------------------------------------------------------------------
  // equals(DirectBuffer) and write(MutableDirectBuffer) on values

  /** equals(DirectBuffer): compare the four fields with the ints at offsets 0, 4, 8, 12 in
      turn and stop at the first that differs. A read past the end of the buffer throws, so
      a buffer shorter than 16 bytes yields false or an error depending on where the first
      difference lies. */
  function EqualsBuffer(f: Flow, buffer: seq<Byte>): (r: Result<bool>)
    ensures |buffer| >= KEY_SIZE ==> r.Ok?
    ensures r.Ok? && r.value ==> |buffer| >= KEY_SIZE
  {
    if |buffer| < 4 then Err(OutOfBounds)
    else if f.sourceAddress != GetInt(buffer, 0) then Ok(false)
    else if |buffer| < 8 then Err(OutOfBounds)
    else if f.sourcePort != GetInt(buffer, 4) then Ok(false)
    else if |buffer| < 12 then Err(OutOfBounds)
    else if f.destinationAddress != GetInt(buffer, 8) then Ok(false)
    else if |buffer| < 16 then Err(OutOfBounds)
    else Ok(f.destinationPort == GetInt(buffer, 12))
  }

  /** On a full key region, equals holds exactly when the first 16 bytes are the flow's
      key bytes, i.e. exactly when all four ints match; bytes past 16 play no part. */
  lemma EqualsBufferMeansEncoded(f: Flow, buffer: seq<Byte>)
    requires |buffer| >= KEY_SIZE
    ensures EqualsBuffer(f, buffer) == Ok(buffer[..KEY_SIZE] == Encode(f))
    ensures EqualsBuffer(f, buffer) == Ok(Decode(buffer) == f)
  {
    EncodeDecode(buffer);
    if buffer[..KEY_SIZE] == Encode(f) {
      DecodeEncode(f, buffer);
    }
  }

  /** The key region after write: 16 key bytes, the rest of the region as it was. A region
      shorter than 16 bytes makes putInt throw part-way. */
  function WriteTo(f: Flow, region: seq<Byte>): (r: seq<Byte>)
    requires |region| >= KEY_SIZE
    ensures |r| == |region|
    ensures r[..KEY_SIZE] == Encode(f) && r[KEY_SIZE..] == region[KEY_SIZE..]
  {
    Encode(f) + region[KEY_SIZE..]
  }

  /** write then equals: the key finds itself in the bytes it wrote, and only itself. */
  lemma WriteThenEquals(f: Flow, g: Flow, region: seq<Byte>)
    requires |region| >= KEY_SIZE
    ensures EqualsBuffer(g, WriteTo(f, region)) == Ok(g == f)
  {
    var r := WriteTo(f, region);
    EqualsBufferMeansEncoded(g, r);
    if Encode(g) == Encode(f) {
      EncodeInjective(f, g);
    }
  }

  // ---------------------------------------------------------------------------------------
  // hashCode

  /** A wrapped multiple of 64 is still a multiple of 64, since 64 divides 2^32. */
  lemma WrapMultipleOf64(x: int)
    requires x % 64 == 0
    ensures Wrap(x) % 64 == 0
  {
    var r := Wrap(x);
    var k := (x - r) / 0x1_0000_0000;
    assert x - r == 0x1_0000_0000 * k;
    assert r == 64 * (x / 64 - 0x400_0000 * k);
  }

  /** The sum of two multiples of 64 is one. */
  lemma SumMultipleOf64(a: int, b: int)
    requires a % 64 == 0 && b % 64 == 0
    ensures (a + b) % 64 == 0
  {
    assert a + b == 64 * (a / 64 + b / 64);
  }

  /** `(x + y) << 6` on Java ints: both the addition and the shift wrap, and the six low
      bits of the result are zero. */
  function KeyPart(x: Int32, y: Int32): (r: Int32)
    ensures r % 64 == 0
  {
    WrapMultipleOf64(Wrap(x + y) * 64);
    Wrap(Wrap(x + y) * 64)
  }

  /** The int hashCode hands to Agrona's `Hashing.hash`. That mixing function is not part of
      this model: the map takes it as a parameter. */
  function HashInput(f: Flow): (r: Int32)
    ensures r % 64 == 0
  {
    var source := KeyPart(f.sourceAddress, f.sourcePort);
    var destination := KeyPart(f.destinationAddress, f.destinationPort);
    SumMultipleOf64(source, destination);
    WrapMultipleOf64(source + destination);
    Wrap(source + destination)
  }

  function HashCode(f: Flow, mix: Int32 -> Int32): Int32
  {
    mix(HashInput(f))
  }

  /** The reverse flow (source and destination swapped) hashes to the same value, so both
      directions of a connection land in the same bucket. */
  lemma HashCodeSymmetric(f: Flow, mix: Int32 -> Int32)
    ensures HashCode(Flow(f.destinationAddress, f.sourceAddress, f.destinationPort, f.sourcePort), mix)
         == HashCode(f, mix)
  {
  }

  // ---------------------------------------------------------------------------------------
  // The FlowKey object

  /** A mutable FlowKey. The getters are the fields themselves. */
  class FlowKey {
    var sourceAddress: Int32
    var destinationAddress: Int32
    var sourcePort: Int32
    var destinationPort: Int32

    /** The four-argument constructor. */
    constructor (sourceAddress: Int32, destinationAddress: Int32, sourcePort: Int32, destinationPort: Int32)
      ensures Value() == Flow(sourceAddress, destinationAddress, sourcePort, destinationPort)
    {
      this.sourceAddress := sourceAddress;
      this.destinationAddress := destinationAddress;
      this.sourcePort := sourcePort;
      this.destinationPort := destinationPort;
    }

    /** The no-argument constructor: Java zero-initialises the fields. */
    constructor Empty()
      ensures Value() == Flow(0, 0, 0, 0)
    {
      sourceAddress, destinationAddress, sourcePort, destinationPort := 0, 0, 0, 0;
    }

    function Value(): Flow
      reads this
    {
      Flow(sourceAddress, destinationAddress, sourcePort, destinationPort)
    }

    method SetSourceAddress(x: Int32)
      modifies this
      ensures Value() == old(Value()).(sourceAddress := x)
    {
      sourceAddress := x;
    }

    method SetDestinationAddress(x: Int32)
      modifies this
      ensures Value() == old(Value()).(destinationAddress := x)
    {
      destinationAddress := x;
    }

    method SetSourcePort(x: Int32)
      modifies this
      ensures Value() == old(Value()).(sourcePort := x)
    {
      sourcePort := x;
    }

    method SetDestinationPort(x: Int32)
      modifies this
      ensures Value() == old(Value()).(destinationPort := x)
    {
      destinationPort := x;
    }

    /** keySize(). */
    function KeySize(): (r: nat)
      ensures r == |Encode(Value())|
    {
      KEY_SIZE
    }

    /** equals(DirectBuffer). */
    function Equals(buffer: seq<Byte>): (r: Result<bool>)
      reads this
      ensures |buffer| >= KEY_SIZE ==> r == Ok(buffer[..KEY_SIZE] == Encode(Value()))
    {
      if |buffer| >= KEY_SIZE then
        EqualsBufferMeansEncoded(Value(), buffer);
        EqualsBuffer(Value(), buffer)
      else
        EqualsBuffer(Value(), buffer)
    }

    /** write(MutableDirectBuffer): four putInt calls at offsets 0, 4, 8, 12. */
    method Write(buffer: array<Byte>)
      requires buffer.Length >= KEY_SIZE
      modifies buffer
      ensures buffer[..] == WriteTo(Value(), old(buffer[..]))
    {
      PutInt(buffer, 0, sourceAddress);
      PutInt(buffer, 4, sourcePort);
      PutInt(buffer, 8, destinationAddress);
      PutInt(buffer, 12, destinationPort);
      assert buffer[..KEY_SIZE] == buffer[0..4] + buffer[4..8] + buffer[8..12] + buffer[12..16];
    }
  }

  /** putInt: the four bytes of `x` at `at`, everything else unchanged. */
  method PutInt(buffer: array<Byte>, at: nat, x: Int32)
    requires at + 4 <= buffer.Length
    modifies buffer
    ensures buffer[at..at + 4] == IntBytes(x)
    ensures forall i :: 0 <= i < buffer.Length && !(at <= i < at + 4) ==> buffer[i] == old(buffer[i])
  {
    var bytes := IntBytes(x);
    buffer[at] := bytes[0];
    buffer[at + 1] := bytes[1];
    buffer[at + 2] := bytes[2];
    buffer[at + 3] := bytes[3];
  }
}
