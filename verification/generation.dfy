/**
 What a run of NewEpochs calls in one process produces: the counter field
 advances by one per identifier modulo 2^24, so identifiers made in sequence
 differ until the 24-bit field wraps.
 */
module Generation {

  import opened Binary
  import opened Seeds
  import opened ObjectId

  /** The state after the counter has been advanced n times. */
  function Advance(g: Generator, n: nat): (g': Generator)
    ensures g'.machineProcessId == g.machineProcessId
  {
    g.(counter := ((g.counter as int + n) % TWO_TO_32) as uint32)
  }

  /** id carries the timestamp taken from epochs, the discriminator pid and
      the counter value count reduced to its low 24 bits. */
  predicate Carries(id: ID, epochs: int64, pid: MachineProcessID, count: int) {
    && Timestamp(id) == TruncateToUint32(epochs)
    && id[TIMESTAMP_SIZE..TIMESTAMP_SIZE + PROCESS_SIZE] == pid
    && Count(id) as int == count % TWO_TO_24
  }

  /** The identifiers made by calling NewEpochs once per element of epochs,
      in order, and the state left behind.  The i-th identifier carries the
      i-th epochs truncated, the run's discriminator and the counter value
      seed + 1 + i; the counter ends |epochs| steps on. */
  function Generate(g: Generator, epochs: seq<int64>): (r: (seq<ID>, Generator))
    ensures |r.0| == |epochs|
    ensures r.1 == Advance(g, |epochs|)
    ensures forall i :: 0 <= i < |epochs| ==>
              Carries(r.0[i], epochs[i], g.machineProcessId, g.counter as int + 1 + i)
    decreases |epochs|
  {
    if |epochs| == 0 then
      assert Advance(g, 0) == g;
      ([], g)
    else
      var (id, g1) := NewEpochs(g, epochs[0]);
      var (ids, g2) := Generate(g1, epochs[1..]);
      AdvanceNext(g, |epochs| - 1);
      FirstCarries(g, epochs[0]);
      RestCarries(g, g1, epochs, id, ids);
      ([id] + ids, g2)
  }

  /** The first identifier of a run carries the seed plus one. */
  lemma FirstCarries(g: Generator, epochs: int64)
    ensures Carries(NewEpochs(g, epochs).0, epochs, g.machineProcessId, g.counter as int + 1)
  {
    Low24OfLow32(g.counter as int + 1);
  }

  /** Prefixing the first identifier to the rest of a run started one step
      later shifts every index by one. */
  lemma RestCarries(g: Generator, g1: Generator, epochs: seq<int64>, id: ID, ids: seq<ID>)
    requires g1 == g.(counter := Next(g.counter).0)
    requires |epochs| == |ids| + 1
    requires Carries(id, epochs[0], g.machineProcessId, g.counter as int + 1)
    requires forall i :: 0 <= i < |ids| ==>
               Carries(ids[i], epochs[1..][i], g1.machineProcessId, g1.counter as int + 1 + i)
    ensures forall i :: 0 <= i < |epochs| ==>
              Carries(([id] + ids)[i], epochs[i], g.machineProcessId, g.counter as int + 1 + i)
  {
    var c := g.counter as int;
    var n := g1.counter as int;
    assert n == (c + 1) % TWO_TO_32;
    forall i | 1 <= i < |epochs|
      ensures Carries(([id] + ids)[i], epochs[i], g.machineProcessId, c + 1 + i)
    {
      assert ([id] + ids)[i] == ids[i - 1];
      assert epochs[1..][i - 1] == epochs[i];
      CarriesShift(ids[i - 1], epochs[i], g.machineProcessId, c, n, i);
    }
  }

  /** A counter value reduced modulo 2^32 before counting on leaves the
      counter field unchanged. */
  lemma CarriesShift(id: ID, e: int64, pid: MachineProcessID, c: int, n: int, i: int)
    requires n == (c + 1) % TWO_TO_32
    requires Carries(id, e, pid, n + 1 + (i - 1))
    ensures Carries(id, e, pid, c + 1 + i)
  {
    Low24AfterLow32(c + 1, i);
  }

  /** Advancing k times after one Next is advancing k + 1 times. */
  lemma AdvanceNext(g: Generator, k: nat)
    ensures Advance(g.(counter := Next(g.counter).0), k) == Advance(g, k + 1)
  {
    ModAddMod(g.counter as int + 1, k, TWO_TO_32);
  }

  /** An identifier is determined by its three fields. */
  lemma FieldsDetermineId(a: ID, b: ID)
    requires Timestamp(a) == Timestamp(b)
    requires a[TIMESTAMP_SIZE..TIMESTAMP_SIZE + PROCESS_SIZE] == b[TIMESTAMP_SIZE..TIMESTAMP_SIZE + PROCESS_SIZE]
    requires Count(a) == Count(b)
    ensures a == b
  {
    assert a == a[..TIMESTAMP_SIZE] + a[TIMESTAMP_SIZE..TIMESTAMP_SIZE + PROCESS_SIZE] + a[TIMESTAMP_SIZE + PROCESS_SIZE..];
    assert b == b[..TIMESTAMP_SIZE] + b[TIMESTAMP_SIZE..TIMESTAMP_SIZE + PROCESS_SIZE] + b[TIMESTAMP_SIZE + PROCESS_SIZE..];
  }

  /** Two identifiers made one after the other carry the same timestamp when
      given the same epochs, counter fields one apart modulo 2^24, and so
      always differ. */
  lemma SuccessiveIds(g: Generator, epochs: int64)
    ensures var (id1, g1) := NewEpochs(g, epochs);
            var (id2, _) := NewEpochs(g1, epochs);
            && Timestamp(id1) == Timestamp(id2)
            && Count(id2) as int == (Count(id1) as int + 1) % TWO_TO_24
            && id1 != id2
  {
    var (id1, g1) := NewEpochs(g, epochs);
    var (id2, _) := NewEpochs(g1, epochs);
    var x := Next(g.counter).1 as int;
    var y := Next(g1.counter).1 as int;
    assert y == (x + 1) % TWO_TO_32;
    Low24OfLow32(x + 1);
    ModAddMod(x, 1, TWO_TO_24);
    assert Count(id2) as int == (Count(id1) as int + 1) % TWO_TO_24;
    CountsDiffer(Count(id1) as int);
  }

  /** The counter check of TestID_Count as written: the first count equals
      the second minus one, computed in uint32 arithmetic. */
  predicate CountCheckAsWritten(id1: ID, id2: ID) {
    Count(id1) as int == (Count(id2) as int - 1) % TWO_TO_32
  }

  /** The check as written fails for the pair made when the 24-bit counter
      field wraps: the first count is 0xffffff, the second is 0, and 0 - 1
      in uint32 is 0xffffffff. */
  lemma CountCheckFailsAtWrap(g: Generator, epochs: int64)
    requires g.counter as int % TWO_TO_24 == TWO_TO_24 - 2
    ensures var (id1, g1) := NewEpochs(g, epochs);
            var (id2, _) := NewEpochs(g1, epochs);
            && Count(id1) as int == TWO_TO_24 - 1
            && Count(id2) == 0
            && !CountCheckAsWritten(id1, id2)
  {
    var (id1, g1) := NewEpochs(g, epochs);
    var (id2, _) := NewEpochs(g1, epochs);
    var c := g.counter as int;
    WrapResidues(c);
    assert Next(g.counter).1 as int == c + 1;
    assert Count(id1) as int == (c + 1) % TWO_TO_24;
    SuccessiveIds(g, epochs);
    assert Count(id2) == 0;
  }

  /** A counter whose low 24 bits are 0xfffffe is not the largest uint32,
      and its successor's low 24 bits are 0xffffff. */
  lemma WrapResidues(c: int)
    requires c % TWO_TO_24 == TWO_TO_24 - 2
    ensures c != TWO_TO_32 - 1
    ensures (c + 1) % TWO_TO_24 == TWO_TO_24 - 1
  {
    assert (TWO_TO_32 - 1) % TWO_TO_24 == TWO_TO_24 - 1;
    ModAddMod(c, 1, TWO_TO_24);
  }

  /** A counter field and its successor modulo 2^24 differ. */
  lemma CountsDiffer(x: int)
    requires 0 <= x < TWO_TO_24
    ensures (x + 1) % TWO_TO_24 != x
  {
  }

  /** Up to 2^24 identifiers made in sequence are pairwise distinct, whatever
      epochs they are given. */
  lemma GeneratedDistinct(g: Generator, epochs: seq<int64>, i: nat, j: nat)
    requires |epochs| <= TWO_TO_24
    requires i < j < |epochs|
    ensures Generate(g, epochs).0[i] != Generate(g, epochs).0[j]
  {
    var c := g.counter as int;
    assert c + 1 + i < c + 1 + j < c + 1 + i + TWO_TO_24;
    GeneratedCarries(g, epochs, i);
    GeneratedCarries(g, epochs, j);
    var ids := Generate(g, epochs).0;
    CountsApart(ids[i], ids[j], epochs[i], epochs[j], g.machineProcessId, c + 1 + i, c + 1 + j);
  }

  /** The i-th identifier of a run, on its own. */
  lemma GeneratedCarries(g: Generator, epochs: seq<int64>, i: nat)
    requires i < |epochs|
    ensures Carries(Generate(g, epochs).0[i], epochs[i], g.machineProcessId, g.counter as int + 1 + i)
  {
  }

  /** Identifiers whose counter fields come from values less than 2^24 apart
      differ. */
  lemma CountsApart(a: ID, b: ID, ea: int64, eb: int64, pid: MachineProcessID, x: int, y: int)
    requires Carries(a, ea, pid, x) && Carries(b, eb, pid, y)
    requires x < y < x + TWO_TO_24
    ensures a != b
  {
    DistinctResidues(x, y, TWO_TO_24);
  }

  /** The bound is tight: the identifier made 2^24 calls later at the same
      second repeats, because only 24 bits of the counter are kept. */
  lemma GeneratedWrapCollision(g: Generator, epochs: seq<int64>, i: nat)
    requires i + TWO_TO_24 < |epochs|
    requires epochs[i] == epochs[i + TWO_TO_24]
    ensures Generate(g, epochs).0[i] == Generate(g, epochs).0[i + TWO_TO_24]
  {
    var c := g.counter as int;
    GeneratedCarries(g, epochs, i);
    GeneratedCarries(g, epochs, i + TWO_TO_24);
    var ids := Generate(g, epochs).0;
    CountsWrap(ids[i], ids[i + TWO_TO_24], epochs[i], g.machineProcessId, c + 1 + i);
  }

  /** Identifiers with the same timestamp and discriminator whose counter
      values are 2^24 apart are equal. */
  lemma CountsWrap(a: ID, b: ID, e: int64, pid: MachineProcessID, x: int)
    requires Carries(a, e, pid, x) && Carries(b, e, pid, x + TWO_TO_24)
    ensures a == b
  {
    ModAddMultiple(x, TWO_TO_24, 1);
    FieldsDetermineId(a, b);
  }
}
