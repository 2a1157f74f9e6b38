/**
 The two process-wide values every identifier embeds: the counter and the
 machine/process discriminator, and how they are seeded from a source of
 random bytes.  The source is modelled as the finite byte string it is able
 to deliver; reading it is io.ReadFull.
 */
module Seeds {

  import opened Binary
  import opened Errors

  const COUNTER_SEED_SIZE: nat := 4
  const PROCESS_SIZE: nat := 5

  /** Counter (objectid.go): a uint32 that only Next advances. */
  type Counter = uint32

  /** MachineProcessID (objectid.go): five bytes. */
  type MachineProcessID = s: seq<byte> | |s| == PROCESS_SIZE witness [0, 0, 0, 0, 0]

  /** n zero bytes: a freshly declared Go byte array. */
  function Zeros(n: nat): (r: seq<byte>)
    ensures |r| == n
    ensures forall i :: 0 <= i < n ==> r[i] == 0
  {
    seq(n, _ => 0)
  }

  /** io.ReadFull into a zeroed n-byte buffer from a source that can deliver
      exactly the bytes of src.  The buffer is filled as far as the source
      goes; a short read is io.EOF when nothing was read and
      io.ErrUnexpectedEOF otherwise. */
  function ReadFull(src: seq<byte>, n: nat): (r: GoResult<seq<byte>, ReadError>)
    ensures |r.value| == n
    ensures r.Ok() <==> n <= |src|
    ensures r.Ok() ==> r.value == src[..n]
    ensures !r.Ok() ==> r.value[..|src|] == src && r.value[|src|..] == Zeros(n - |src|)
    ensures r.error == Some(EndOfFile) <==> n > 0 && |src| == 0
  {
    if n <= |src| then GoResult(src[..n], None)
    else GoResult(src + Zeros(n - |src|), Some(if |src| == 0 then EndOfFile else UnexpectedEndOfFile))
  }

  /** NewSecureCounter: the first four bytes of the source read as a
      big-endian uint32; a zero counter and a wrapped read error when the
      source has fewer than four bytes. */
  function NewSecureCounter(src: seq<byte>): (r: GoResult<Counter, Error>)
    ensures r.Ok() <==> |src| >= COUNTER_SEED_SIZE
    ensures r.Ok() ==> PutUint32(r.value) == src[..COUNTER_SEED_SIZE]
    ensures !r.Ok() ==> r.value == 0
    ensures !r.Ok() ==> r.error == Some(GenerateCounter(if |src| == 0 then EndOfFile else UnexpectedEndOfFile))
  {
    var read := ReadFull(src, COUNTER_SEED_SIZE);
    if !read.Ok() then
      GoResult(0, Some(GenerateCounter(read.error.value)))
    else
      var n := Uint32(read.value);
      PutUint32OfUint32(read.value);
      GoResult(n, None)
  }

  /** Every counter value can be seeded: the source that starts with its
      big-endian bytes yields it. */
  lemma SeedEveryCounter(c: Counter, rest: seq<byte>)
    ensures NewSecureCounter(PutUint32(c) + rest) == GoResult(c, None)
  {
    var src := PutUint32(c) + rest;
    assert src[..COUNTER_SEED_SIZE] == PutUint32(c);
    PutUint32Injective(NewSecureCounter(src).value, c);
  }

  /** Counter.Next: atomic.AddUint32(c, 1), increment-then-return with
      wrap-around.  The result pairs the counter's new state with the value
      returned, which are the same number. */
  function Next(c: Counter): (r: (Counter, uint32))
    ensures r.0 == r.1
    ensures c as int < TWO_TO_32 - 1 ==> r.1 as int == c as int + 1
    ensures c as int == TWO_TO_32 - 1 ==> r.1 == 0
  {
    var n := ((c as int + 1) % TWO_TO_32) as uint32;
    (n, n)
  }

  /** Next never returns the same value for two different states. */
  lemma NextInjective(c: Counter, d: Counter)
    requires Next(c).1 == Next(d).1
    ensures c == d
  {
  }

  /** NewMachineProcessID: the first five bytes of the source; on a short
      source, the partly filled array (the bytes there were, then zeros)
      together with a wrapped read error. */
  function NewMachineProcessID(src: seq<byte>): (r: GoResult<MachineProcessID, Error>)
    ensures r.Ok() <==> |src| >= PROCESS_SIZE
    ensures r.Ok() ==> r.value == src[..PROCESS_SIZE]
    ensures !r.Ok() ==> r.value[..|src|] == src
    ensures !r.Ok() ==> forall i :: |src| <= i < PROCESS_SIZE ==> r.value[i] == 0
    ensures !r.Ok() ==> r.error == Some(GenerateProcessId(if |src| == 0 then EndOfFile else UnexpectedEndOfFile))
  {
    var read := ReadFull(src, PROCESS_SIZE);
    if !read.Ok() then
      assert forall i :: |src| <= i < PROCESS_SIZE ==> read.value[i] == read.value[|src|..][i - |src|];
      GoResult(read.value, Some(GenerateProcessId(read.error.value)))
    else
      GoResult(read.value, None)
  }
}
