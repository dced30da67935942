/** The range planner of `download`: a file of `length` bytes is split among
    `threads` workers into inclusive byte ranges.  Every range but the last
    spans `length / threads` bytes (rounded down); the last one starts where
    the previous one stopped and its end is `length`, one past the last byte
    index, which a server reads as "up to the end of the file". */
module Planner {

  /** An inclusive byte span [start, end] as it is put into a Range header.
      `end` is `start - 1` for an empty span and may lie past the file. */
  datatype ByteRange = ByteRange(start: nat, end: int)

  /** Number of bytes the span covers (0 when end < start). */
  function SpanLength(r: ByteRange): nat
  {
    if r.end < r.start then 0 else r.end - r.start + 1
  }

  /** Whether byte offset b lies inside r. */
  predicate Covers(r: ByteRange, b: int)
  {
    r.start <= b <= r.end
  }

  /** The span that a server actually returns for r on a file of `length`
      bytes: an end at or beyond the file is cut back to its last byte. */
  function Clamp(r: ByteRange, length: nat): ByteRange
  {
    if r.end < length then r else ByteRange(r.start, length - 1)
  }

  /** Range i as the planning loop computes it. */
  function RangeAt(length: nat, threads: nat, i: nat): ByteRange
    requires i < threads
  {
    var parts := length / threads;
    var start := parts * i;
    if i == threads - 1 then ByteRange(start, length) else ByteRange(start, start + parts - 1)
  }

  /** The ranges handed to the workers, in worker order. */
  function Plan(length: nat, threads: nat): seq<ByteRange>
    requires threads >= 1
  {
    seq(threads, i requires 0 <= i < threads => RangeAt(length, threads, i))
  }

  /** The plan after each end is clamped to the last byte of the file. */
  function ClampedPlan(length: nat, threads: nat): seq<ByteRange>
    requires threads >= 1
  {
    seq(threads, i requires 0 <= i < threads => Clamp(RangeAt(length, threads, i), length))
  }

  /** Sum of the span lengths of rs. */
  function TotalSpan(rs: seq<ByteRange>): nat
  {
    if rs == [] then 0 else TotalSpan(rs[..|rs| - 1]) + SpanLength(rs[|rs| - 1])
  }

  /** The worker whose clamped range holds byte b. */
  function Owner(length: nat, threads: nat, b: nat): (i: nat)
    requires threads >= 1
    ensures i < threads
  {
    var parts := length / threads;
    if parts == 0 || b / parts >= threads - 1 then threads - 1 else b / parts
  }

  lemma MulMonotone(a: int, b: int, p: nat)
    ensures a <= b ==> a * p <= b * p
  {
    assert b * p - a * p == (b - a) * p;
  }

  lemma MulSucc(p: int, i: int)
    ensures p * i + p == p * (i + 1)
  {
  }

  /** The quotient b / p is the one i with p * i <= b < p * i + p. */
  lemma DivBounds(b: nat, p: nat, i: nat)
    requires p > 0
    ensures p * i <= b < p * i + p <==> b / p == i
  {
    var q, r := b / p, b % p;
    assert b == p * q + r && 0 <= r < p;
    MulMonotone(q + 1, i, p);
    MulMonotone(i + 1, q, p);
    MulSucc(p, q);
    MulSucc(p, i);
  }

  /** p * m <= b exactly when m <= b / p. */
  lemma DivLowerBound(b: nat, p: nat, m: nat)
    requires p > 0
    ensures p * m <= b <==> m <= b / p
  {
    var q, r := b / p, b % p;
    assert b == p * q + r && 0 <= r < p;
    MulMonotone(m, q, p);
    MulMonotone(q + 1, m, p);
    MulSucc(p, q);
  }

  /** The first k equal shares fit in the file, and what the last share leaves
      over is the remainder of the division. */
  lemma SharesFit(length: nat, threads: nat, k: nat)
    requires threads >= 1 && k <= threads
    ensures (length / threads) * k <= length
    ensures length - (length / threads) * (threads - 1) == length / threads + length % threads
  {
    var p := length / threads;
    assert length == p * threads + length % threads;
    MulMonotone(k, threads, p);
    MulSucc(p, threads - 1);
  }

  /** Range i starts at i * (length / threads); every range but the last spans
      exactly length / threads bytes (none when length < threads), ending just
      before the next one starts; the last one ends at length. */
  lemma PlanAt(length: nat, threads: nat, i: nat)
    requires threads >= 1 && i < threads
    ensures |Plan(length, threads)| == threads
    ensures Plan(length, threads)[i].start == (length / threads) * i
    ensures i < threads - 1 ==> Plan(length, threads)[i].end == (length / threads) * (i + 1) - 1
    ensures i < threads - 1 ==> SpanLength(Plan(length, threads)[i]) == length / threads
    ensures i == threads - 1 ==> Plan(length, threads)[i].end == length
  {
    MulSucc(length / threads, i);
  }

  /** The first range starts at offset 0 and the last one runs from
      (threads - 1) * (length / threads) to length. */
  lemma PlanEnds(length: nat, threads: nat)
    requires threads >= 1
    ensures Plan(length, threads)[0].start == 0
    ensures Plan(length, threads)[threads - 1].start == (length / threads) * (threads - 1)
    ensures Plan(length, threads)[threads - 1].end == length
  {
    PlanAt(length, threads, 0);
    PlanAt(length, threads, threads - 1);
  }

  /** Neighbouring ranges leave neither a gap nor an overlap. */
  lemma PlanContiguous(length: nat, threads: nat, i: nat)
    requires threads >= 1 && i + 1 < threads
    ensures Plan(length, threads)[i].end + 1 == Plan(length, threads)[i + 1].start
  {
    PlanAt(length, threads, i);
    PlanAt(length, threads, i + 1);
  }

  /** Clamping leaves every range but the last as it is. */
  lemma ClampedInner(length: nat, threads: nat, i: nat)
    requires threads >= 1 && i < threads - 1
    ensures ClampedPlan(length, threads)[i] == Plan(length, threads)[i]
    ensures SpanLength(ClampedPlan(length, threads)[i]) == length / threads
  {
    PlanAt(length, threads, i);
    SharesFit(length, threads, i + 1);
  }

  /** The clamped last range ends at the last byte and spans the equal share
      plus the remainder. */
  lemma ClampedLast(length: nat, threads: nat)
    requires threads >= 1
    ensures ClampedPlan(length, threads)[threads - 1].start == (length / threads) * (threads - 1)
    ensures ClampedPlan(length, threads)[threads - 1].end == length - 1
    ensures SpanLength(ClampedPlan(length, threads)[threads - 1]) == length / threads + length % threads
  {
    PlanAt(length, threads, threads - 1);
    SharesFit(length, threads, threads - 1);
  }

  /** Clamping changes only the last range, whose end becomes length - 1. */
  lemma ClampedPlanAt(length: nat, threads: nat, i: nat)
    requires threads >= 1 && i < threads
    ensures ClampedPlan(length, threads)[i].start == (length / threads) * i
    ensures SpanLength(ClampedPlan(length, threads)[i])
            == if i < threads - 1 then length / threads else length / threads + length % threads
  {
    if i < threads - 1 {
      ClampedInner(length, threads, i);
      PlanAt(length, threads, i);
    } else {
      ClampedLast(length, threads);
    }
  }

  lemma TotalSpanStep(rs: seq<ByteRange>, k: nat)
    requires k < |rs|
    ensures TotalSpan(rs[..k + 1]) == TotalSpan(rs[..k]) + SpanLength(rs[k])
  {
    assert rs[..k + 1][..k] == rs[..k];
  }

  /** The first k clamped ranges, k < threads, span k equal shares. */
  lemma {:induction false} PrefixSpan(length: nat, threads: nat, k: nat)
    requires threads >= 1 && k < threads
    ensures TotalSpan(ClampedPlan(length, threads)[..k]) == (length / threads) * k
  {
    if k > 0 {
      PrefixSpan(length, threads, k - 1);
      TotalSpanStep(ClampedPlan(length, threads), k - 1);
      ClampedInner(length, threads, k - 1);
      MulSucc(length / threads, k - 1);
    }
  }

  /** After clamping, the span lengths add up to the file length, and the last
      range takes the remainder of fewer than `threads` bytes on top of its
      equal share. */
  lemma PlanSpansSumToLength(length: nat, threads: nat)
    requires threads >= 1
    ensures TotalSpan(ClampedPlan(length, threads)) == length
    ensures SpanLength(ClampedPlan(length, threads)[threads - 1])
            == length / threads + length % threads
    ensures length % threads < threads
  {
    var cp := ClampedPlan(length, threads);
    PrefixSpan(length, threads, threads - 1);
    TotalSpanStep(cp, threads - 1);
    assert cp[..threads] == cp;
    ClampedLast(length, threads);
  }

  /** Every byte of the file lies in exactly one clamped range, that of its Owner. */
  lemma PlanCoversExactly(length: nat, threads: nat, b: nat, i: nat)
    requires threads >= 1 && b < length && i < threads
    ensures Covers(ClampedPlan(length, threads)[i], b) <==> i == Owner(length, threads, b)
  {
    var p := length / threads;
    if i < threads - 1 {
      ClampedInner(length, threads, i);
      PlanAt(length, threads, i);
      if p > 0 {
        DivBounds(b, p, i);
      }
    } else {
      ClampedLast(length, threads);
      if p > 0 {
        DivLowerBound(b, p, threads - 1);
      }
    }
  }

  /** No byte offset lies in two different clamped ranges. */
  lemma PlanDisjoint(length: nat, threads: nat, i: nat, j: nat, b: int)
    requires threads >= 1 && i < threads && j < threads && i != j
    ensures !(Covers(ClampedPlan(length, threads)[i], b) && Covers(ClampedPlan(length, threads)[j], b))
  {
    if 0 <= b < length {
      PlanCoversExactly(length, threads, b, i);
      PlanCoversExactly(length, threads, b, j);
    } else if b >= length {
      var k := if i < j then i else j;
      ClampedInner(length, threads, k);
      PlanAt(length, threads, k);
      SharesFit(length, threads, k + 1);
    }
  }
}
