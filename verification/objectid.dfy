/**
 The MongoDB-style ObjectID: twelve bytes holding a big-endian timestamp in
 seconds, the five-byte machine/process discriminator and the low 24 bits of
 the counter, with its 24-digit hex text form.

 The package-level counter and discriminator are threaded through as an
 explicit Generator value: NewEpochs takes the state and returns the next one.
 */
module ObjectId {

  import opened Binary
  import opened Errors
  import opened Seeds
  import Hex

  const TIMESTAMP_SIZE: nat := 4
  const COUNTER_SIZE: nat := 3
  const ID_SIZE: nat := TIMESTAMP_SIZE + PROCESS_SIZE + COUNTER_SIZE
  /** Length of the text form: two hex digits per byte. */
  const STRING_SIZE: nat := 2 * ID_SIZE

  /** ID: [timestampSize + processSize + counterSize]byte. */
  type ID = s: seq<byte> | |s| == ID_SIZE witness [0, 0, 0, 0, 0, 0, 0, 0, 0, 0, 0, 0]

  /** Nil: the zero value of ID. */
  const Nil: ID := [0, 0, 0, 0, 0, 0, 0, 0, 0, 0, 0, 0]

  /** The package-level variables counter and machineProcessID. */
  datatype Generator = Generator(counter: Counter, machineProcessId: MachineProcessID)

  /** SetCounter: replaces the counter outright and nothing else. */
  function SetCounter(g: Generator, c: Counter): (g': Generator)
    ensures g'.counter == c
    ensures g'.machineProcessId == g.machineProcessId
  {
    g.(counter := c)
  }

  /** SetMachineAndProcessID: replaces the discriminator and nothing else. */
  function SetMachineAndProcessId(g: Generator, pid: MachineProcessID): (g': Generator)
    ensures g'.machineProcessId == pid
    ensures g'.counter == g.counter
  {
    g.(machineProcessId := pid)
  }

  /** Timestamp: the first four bytes read as big-endian seconds since the
      Unix epoch, that is the value whose encoding they are. */
  function Timestamp(id: ID): (r: uint32)
    ensures PutUint32(r) == id[..TIMESTAMP_SIZE]
  {
    PutUint32OfUint32(id[..TIMESTAMP_SIZE]);
    Uint32(id[..TIMESTAMP_SIZE])
  }

  /** Count: the last three bytes zero-extended to a uint32, that is the
      value below 2^24 that putBigEndianUint24 would write as them. */
  function Count(id: ID): (r: uint32)
    ensures r as int < TWO_TO_24
    ensures PutBigEndianUint24(r) == id[TIMESTAMP_SIZE + PROCESS_SIZE..]
  {
    var counterBits := [0 as byte] + id[TIMESTAMP_SIZE + PROCESS_SIZE..];
    var r := Uint32(counterBits);
    BigEndianDigits(counterBits);
    CountBytes(id[TIMESTAMP_SIZE + PROCESS_SIZE..], r);
    r
  }

  /** Three bytes whose big-endian value is v are what putBigEndianUint24
      writes for v. */
  lemma CountBytes(b: seq<byte>, v: uint32)
    requires |b| == 3
    requires v as int == b[0] as int * 0x1_0000 + b[1] as int * 0x100 + b[2] as int
    ensures PutBigEndianUint24(v) == b
  {
    var w := v as int;
    assert w / 0x1_0000 == b[0] as int;
    assert w / 0x100 == b[0] as int * 0x100 + b[1] as int;
    assert w / 0x100 % 0x100 == b[1] as int;
  }

  /** IsZero: the identifier is the nil one, i.e. all of its bytes are zero. */
  function IsZero(id: ID): (r: bool)
    ensures r <==> forall i :: 0 <= i < ID_SIZE ==> id[i] == 0
  {
    id == Nil
  }

  /** NewEpochs: the truncated epoch seconds, the current discriminator and
      the low 24 bits of the counter's next value; the counter advances. */
  function NewEpochs(g: Generator, epochs: int64): (r: (ID, Generator))
    ensures Timestamp(r.0) == TruncateToUint32(epochs)
    ensures r.0[TIMESTAMP_SIZE..TIMESTAMP_SIZE + PROCESS_SIZE] == g.machineProcessId
    ensures Count(r.0) as int == Next(g.counter).1 as int % TWO_TO_24
    ensures r.1 == g.(counter := Next(g.counter).0)
  {
    var (counter', next) := Next(g.counter);
    var id: ID := PutUint32(TruncateToUint32(epochs)) + g.machineProcessId + PutBigEndianUint24(next);
    assert id[..TIMESTAMP_SIZE] == PutUint32(TruncateToUint32(epochs));
    PutUint32Injective(Timestamp(id), TruncateToUint32(epochs));
    assert id[TIMESTAMP_SIZE + PROCESS_SIZE..] == PutBigEndianUint24(next);
    CountOfPut(next, Count(id));
    (id, g.(counter := counter'))
  }

  /** Count inverts putBigEndianUint24 up to the bits it drops. */
  lemma CountOfPut(v: uint32, c: uint32)
    requires c as int < TWO_TO_24
    requires PutBigEndianUint24(c) == PutBigEndianUint24(v)
    ensures c as int == v as int % TWO_TO_24
  {
    assert BigEndian(PutBigEndianUint24(c)) == c as int % TWO_TO_24;
  }

  /** String: the 24 lower-case hex digits of the identifier's bytes. */
  function String(id: ID): (r: seq<byte>)
    ensures |r| == STRING_SIZE
    ensures forall i :: 0 <= i < |r| ==> Hex.IsLowerHexDigit(r[i])
  {
    Hex.EncodeToString(id)
  }

  /** Decode: a string of any length other than 24 and a string that is not
      hex both fail and give back Nil; otherwise the bytes the digits spell,
      in either case. */
  function Decode(s: seq<byte>): (r: GoResult<ID, Error>)
    ensures r.Ok() <==> |s| == STRING_SIZE && Hex.AllHexDigits(s)
    ensures !r.Ok() ==> r.value == Nil
    ensures |s| != STRING_SIZE ==> r.error == Some(LengthNot24)
    ensures |s| == STRING_SIZE && Hex.FirstNonHexDigit(s) < |s| ==>
              r.error == Some(DecodeHex(InvalidByte(s[Hex.FirstNonHexDigit(s)])))
  {
    if |s| != STRING_SIZE then
      GoResult(Nil, Some(LengthNot24))
    else
      var b := Hex.DecodeString(s);
      if b.error.Some? then
        GoResult(Nil, Some(DecodeHex(b.error.value)))
      else
        GoResult(b.value, None)
  }

  /** Decoding the text form of any identifier, Nil included, gives it back. */
  lemma DecodeOfString(id: ID)
    ensures Decode(String(id)) == GoResult(id, None)
  {
    Hex.DecodeEncode(id);
  }

  /** The text form of a decoded identifier is the decoded string in lower
      case, so Decode accepts exactly one identifier per case-folded string. */
  lemma StringOfDecode(s: seq<byte>)
    requires Decode(s).Ok()
    ensures String(Decode(s).value) == Hex.ToLower(s)
  {
    Hex.EncodeDecode(s);
  }

  /** Different identifiers have different text forms. */
  lemma StringInjective(a: ID, b: ID)
    requires String(a) == String(b)
    ensures a == b
  {
    DecodeOfString(a);
    DecodeOfString(b);
  }
}
