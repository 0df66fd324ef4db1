/** The packet-length histogram of the XDP observer, one CPU's array. */
module LatencyHistogram {
  import opened Bits

  const BUCKETS: nat := 16
  const U32: nat := 0x1_0000_0000
  const U64: nat := 0x1_0000_0000_0000_0000

  type u32 = x: int | 0 <= x < U32
  type u64 = x: int | 0 <= x < U64

  /** `__builtin_clz`: zero bits above the topmost one bit. */
  function LeadingZeros(x: u32): nat
    requires x > 0
    decreases U32 - x
  {
    if x >= 0x8000_0000 then 0 else 1 + LeadingZeros(2 * x)
  }

  /** `found` is whether the map lookup returned a slot. */
  datatype Packet = Packet(data: u32, dataEnd: u32, found: bool)

  /** The subtraction wraps. */
  function LengthOf(p: Packet): u32 { (p.dataEnd - p.data) % U32 }

  lemma {:induction false} TopBit(x: u32)
    requires x > 0
    ensures LeadingZeros(x) <= 31
    ensures Pow(2, 31 - LeadingZeros(x)) <= x < Pow(2, 32 - LeadingZeros(x))
    decreases U32 - x
  {
    assert Pow(2, 8) == 0x100 && Pow(2, 16) == 0x1_0000 && Pow(2, 24) == 0x100_0000;
    assert Pow(2, 31) == 0x8000_0000 && Pow(2, 32) == U32;
    if x < 0x8000_0000 {
      TopBit(2 * x);
    }
  }

  function BucketOf(length: u32): (b: nat)
    ensures b < BUCKETS
  {
    if length == 0 then 0
    else
      TopBit(length);
      var b := 31 - LeadingZeros(length);
      if b > BUCKETS - 1 then BUCKETS - 1 else b
  }

  /** The lengths each bucket stands for. */
  predicate InBucket(length: u32, b: nat) {
    if b == 0 then length <= 1
    else if b < BUCKETS - 1 then Pow(2, b) <= length < Pow(2, b + 1)
    else b == BUCKETS - 1 && Pow(2, b) <= length
  }

  /** A length is counted in a bucket exactly when it is one of that bucket's lengths. */
  lemma BucketExact(length: u32, b: nat)
    requires b < BUCKETS
    ensures BucketOf(length) == b <==> InBucket(length, b)
  {
    assert Pow(2, 0) == 1 && Pow(2, 1) == 2;
    PowMonotone(1, BUCKETS - 1);
    if length > 0 {
      TopBit(length);
      var top := 31 - LeadingZeros(length);
      if top < b { PowMonotone(top + 1, b); }
      if b < top { PowMonotone(b + 1, top); }
    } else if b > 0 {
      PowMonotone(0, b);
    }
  }

  /** The length is the distance of the two pointers, or that plus 2^32 if they come the other way round. */
  lemma LengthExactly(p: Packet)
    ensures LengthOf(p) == if p.data <= p.dataEnd then p.dataEnd - p.data else p.dataEnd - p.data + 0x1_0000_0000
  {
  }

  /** The bucket of a packet, by its pointers: powers of two, the first and the last one taking the rest. */
  lemma PacketBucket(p: Packet, b: nat)
    requires b < 16 && p.data <= p.dataEnd
    ensures BucketOf(LengthOf(p)) == b
       <==> (b == 0 || Pow(2, b) <= p.dataEnd - p.data) && (b == 15 || p.dataEnd - p.data < Pow(2, b + 1))
  {
    LengthExactly(p);
    BucketExact(LengthOf(p), b);
    assert Pow(2, 1) == 2;
  }

  /** Packets of a run that were counted in bucket `b`. */
  function Counted(run: seq<Packet>, b: nat): nat {
    if run == [] then 0
    else Counted(run[..|run| - 1], b)
         + (if run[|run| - 1].found && BucketOf(LengthOf(run[|run| - 1])) == b then 1 else 0)
  }

  function Found(run: seq<Packet>): nat {
    if run == [] then 0 else Found(run[..|run| - 1]) + (if run[|run| - 1].found then 1 else 0)
  }

  function CountedUpTo(run: seq<Packet>, n: nat): nat {
    if n == 0 then 0 else CountedUpTo(run, n - 1) + Counted(run, n - 1)
  }

  lemma {:induction false} CountedStep(run: seq<Packet>, n: nat)
    requires run != []
    ensures var last := run[|run| - 1];
      CountedUpTo(run, n) == CountedUpTo(run[..|run| - 1], n)
        + (if last.found && BucketOf(LengthOf(last)) < n then 1 else 0)
    decreases n
  {
    if n > 0 { CountedStep(run, n - 1); }
  }

  lemma {:induction false} CountedEmpty(n: nat)
    ensures CountedUpTo([], n) == 0
  {
    if n > 0 { CountedEmpty(n - 1); }
  }

  /** Every counted packet is in exactly one bucket. */
  lemma {:induction false} BucketsConserve(run: seq<Packet>)
    ensures CountedUpTo(run, BUCKETS) == Found(run)
    decreases |run|
  {
    if run == [] {
      CountedEmpty(BUCKETS);
    } else {
      CountedStep(run, BUCKETS);
      BucketsConserve(run[..|run| - 1]);
    }
  }

  function Total(counts: seq<int>, n: nat): int
    requires n <= |counts|
  {
    if n == 0 then 0 else Total(counts, n - 1) + counts[n - 1]
  }

  lemma {:induction false} TotalModulo(counts: seq<int>, run: seq<Packet>, n: nat)
    requires n <= |counts| && forall b :: 0 <= b < n ==> counts[b] == Counted(run, b) % U64
    ensures Total(counts, n) % U64 == CountedUpTo(run, n) % U64
  {
    if n > 0 {
      TotalModulo(counts, run, n - 1);
      AddModulo(Total(counts, n - 1), CountedUpTo(run, n - 1), counts[n - 1], Counted(run, n - 1));
    }
  }

  lemma AddModulo(a: int, b: int, c: int, d: int)
    requires a % U64 == b % U64 && c == d % U64
    ensures (a + c) % U64 == (b + d) % U64
  {
    var x, y, z := a / U64, b / U64, d / U64;
    assert a + c == b + d + U64 * (x - y - z);
  }

  /** Over every run the bucket totals add up to the number of counted packets, modulo 2^64. */
  lemma TotalsAreThePackets(counts: seq<int>, run: seq<Packet>)
    requires |counts| == BUCKETS && forall b :: 0 <= b < BUCKETS ==> counts[b] == Counted(run, b) % U64
    ensures Total(counts, BUCKETS) % U64 == Found(run) % U64
  {
    TotalModulo(counts, run, BUCKETS);
    BucketsConserve(run);
  }

  lemma {:induction false} FoundCounts(run: seq<Packet>)
    ensures (forall i :: 0 <= i < |run| ==> run[i].found) ==> Found(run) == |run|
    ensures (forall i :: 0 <= i < |run| ==> !run[i].found) ==> Found(run) == 0
    decreases |run|
  {
    if run != [] { FoundCounts(run[..|run| - 1]); }
  }

  /** With every lookup successful the totals are the number of packets; with none, nothing is counted. */
  lemma EveryPacketCounts(counts: seq<int>, run: seq<Packet>)
    requires |counts| == 16 && forall b :: 0 <= b < 16 ==> counts[b] == Counted(run, b) % U64
    ensures (forall i :: 0 <= i < |run| ==> run[i].found) ==>
      Total(counts, 16) % 0x1_0000_0000_0000_0000 == |run| % 0x1_0000_0000_0000_0000
    ensures (forall i :: 0 <= i < |run| ==> !run[i].found) ==> Total(counts, 16) % 0x1_0000_0000_0000_0000 == 0
  {
    TotalsAreThePackets(counts, run);
    FoundCounts(run);
  }

  class Histogram {
    const counts: array<u64>
    /** The packets seen so far. */
    ghost var seen: seq<Packet>

    ghost predicate Valid()
      reads this, counts
    {
      counts.Length == BUCKETS && forall b :: 0 <= b < BUCKETS ==> counts[b] == Counted(seen, b) % U64
    }

    constructor ()
      ensures Valid() && seen == [] && fresh(counts)
    {
      counts := new u64[BUCKETS](_ => 0);
      seen := [];
    }

    /** `uwz_latency_observe`; the counter wraps at 2^64. */
    method Observe(p: Packet)
      requires Valid()
      modifies this, counts
      ensures Valid() && seen == old(seen) + [p]
    {
      var length := LengthOf(p);
      var bucket := 0;
      if length != 0 {
        TopBit(length);
        bucket := 31 - LeadingZeros(length);
      }
      if bucket > BUCKETS - 1 {
        bucket := BUCKETS - 1;
      }
      assert bucket == BucketOf(length);
      seen := seen + [p];
      assert seen[..|seen| - 1] == old(seen);
      if p.found {
        Wraps(Counted(old(seen), bucket));
        counts[bucket] := (counts[bucket] + 1) % U64;
      }
    }
  }

  lemma Wraps(n: nat)
    ensures (n % U64 + 1) % U64 == (n + 1) % U64
  {
  }
}
