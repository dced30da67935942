/** The download coordinator: probe the length, preallocate the file, run one
    worker per planned range, tally the workers that failed, and keep the file
    only when none did.  The workers run one after another here, in index
    order.  When every response fits its span, the writes touch disjoint spans
    (Planner.PlanDisjoint, Storage.OverwriteCommutes), so their order does not
    matter; a response longer than its span can overlap a later range, and
    then it does (OversizedWritesDependOnOrder). */
module Downloader {
  import opened Options
  import opened Planner
  import opened RangeHeader
  import opened FileName
  import opened Storage

  /** What `requests.get` gave a worker: a response body, or an exception
      (connection error, timeout).  An HTTP error status raises nothing, so its
      body is a Fetched response like any other. */
  datatype Response = Fetched(content: seq<Byte>) | Failed

  /** A request sent to the server: the length probe, or a ranged GET with the
      value of its Range header. */
  datatype Request = Head(url: string) | Get(url: string, range: string)

  /** The output file after the download: gone, or there with these bytes. */
  datatype FileState = Absent | Present(contents: seq<Byte>)

  datatype Outcome =
    | InvalidThreadCount(threads: int)
    | ProbeFailed
    | Succeeded(name: string)
    | DownloadFailed(name: string, threadsFailed: nat)

  /** Number of failed responses. */
  function CountFailed(rs: seq<Response>): nat
  {
    if rs == [] then 0
    else CountFailed(rs[..|rs| - 1]) + (if rs[|rs| - 1].Failed? then 1 else 0)
  }

  /** The tally is the number of times Failed occurs among the responses, so it
      does not depend on the order the workers report in. */
  lemma {:induction false} CountFailedIsMultiplicity(rs: seq<Response>)
    ensures CountFailed(rs) == multiset(rs)[Failed]
  {
    if rs != [] {
      var init := rs[..|rs| - 1];
      CountFailedIsMultiplicity(init);
      assert rs == init + [rs[|rs| - 1]];
    }
  }

  /** The tally is zero exactly when every worker got a response. */
  lemma {:induction false} CountFailedZeroIff(rs: seq<Response>)
    ensures CountFailed(rs) == 0 <==> forall i :: 0 <= i < |rs| ==> rs[i].Fetched?
  {
    if rs != [] {
      var init := rs[..|rs| - 1];
      CountFailedZeroIff(init);
      assert forall i :: 0 <= i < |init| ==> init[i] == rs[i];
    }
  }

  /** The file after each response has been written at the start of its range,
      in range order; a failed response writes nothing. */
  function ApplyWrites(file: seq<Byte>, plan: seq<ByteRange>, rs: seq<Response>): seq<Byte>
    requires |plan| == |rs|
  {
    if rs == [] then file
    else
      var k := |rs| - 1;
      var before := ApplyWrites(file, plan[..k], rs[..k]);
      match rs[k]
      case Failed => before
      case Fetched(c) => Overwrite(before, plan[k].start, c)
  }

  /** The bytes of the fetched responses, in range order. */
  function Payload(rs: seq<Response>): seq<Byte>
  {
    if rs == [] then []
    else
      var k := |rs| - 1;
      Payload(rs[..k]) + (match rs[k] case Fetched(c) => c case Failed => [])
  }

  /** Every worker got a response of exactly the length of its clamped range. */
  predicate ExactResponses(length: nat, threads: nat, rs: seq<Response>)
    requires threads >= 1
  {
    |rs| == threads &&
    forall i :: 0 <= i < threads ==>
      rs[i].Fetched? && |rs[i].content| == SpanLength(ClampedPlan(length, threads)[i])
  }

  /** One more response on top of a prefix: its write lands at its range's
      start, or nothing is written when it failed. */
  lemma ApplyWritesStep(file: seq<Byte>, plan: seq<ByteRange>, rs: seq<Response>, k: nat)
    requires |plan| == |rs| && k < |rs|
    ensures ApplyWrites(file, plan[..k + 1], rs[..k + 1])
            == match rs[k]
               case Failed => ApplyWrites(file, plan[..k], rs[..k])
               case Fetched(c) => Overwrite(ApplyWrites(file, plan[..k], rs[..k]), plan[k].start, c)
  {
    assert plan[..k + 1][..k] == plan[..k];
    assert rs[..k + 1][..k] == rs[..k];
  }

  lemma CountFailedStep(rs: seq<Response>, k: nat)
    requires k < |rs|
    ensures CountFailed(rs[..k + 1]) == CountFailed(rs[..k]) + (if rs[k].Failed? then 1 else 0)
  {
    assert rs[..k + 1][..k] == rs[..k];
  }

  lemma PayloadStep(rs: seq<Response>, k: nat)
    requires k < |rs| && rs[k].Fetched?
    ensures Payload(rs[..k + 1]) == Payload(rs[..k]) + rs[k].content
  {
    assert rs[..k + 1][..k] == rs[..k];
  }

  /** Every response was fetched, and each range starts where the bytes of
      the responses before it stop. */
  predicate Consecutive(plan: seq<ByteRange>, rs: seq<Response>)
    requires |plan| == |rs|
  {
    rs == [] ||
    var k := |rs| - 1;
    Consecutive(plan[..k], rs[..k]) && rs[k].Fetched? && plan[k].start == |Payload(rs[..k])|
  }

  /** Consecutive responses written into a file long enough for all of them
      leave their concatenation at the front of the file and the rest of it
      as it was. */
  lemma {:induction false} WritesInSequence(file: seq<Byte>, plan: seq<ByteRange>, rs: seq<Response>)
    requires |plan| == |rs| && |Payload(rs)| <= |file| && Consecutive(plan, rs)
    ensures ApplyWrites(file, plan, rs) == Payload(rs) + file[|Payload(rs)|..]
  {
    if rs != [] {
      var k := |rs| - 1;
      var done := Payload(rs[..k]);
      var c := rs[k].content;
      assert Payload(rs) == done + c;
      WritesInSequence(file, plan[..k], rs[..k]);
      var before := ApplyWrites(file, plan[..k], rs[..k]);
      assert ApplyWrites(file, plan, rs) == Overwrite(before, |done|, c);
      OverwriteAfterPrefix(done, c, file[|done|..]);
      assert file[|done|..][|c|..] == file[|done| + |c|..];
    }
  }

  /** With exact responses, the first k of them carry as many bytes as the
      first k clamped ranges span. */
  lemma {:induction false} PayloadLength(length: nat, threads: nat, rs: seq<Response>, k: nat)
    requires threads >= 1 && ExactResponses(length, threads, rs) && k <= threads
    ensures |Payload(rs[..k])| == TotalSpan(ClampedPlan(length, threads)[..k])
  {
    if k > 0 {
      var cp := ClampedPlan(length, threads);
      PayloadLength(length, threads, rs, k - 1);
      PayloadStep(rs, k - 1);
      assert cp[..k][..k - 1] == cp[..k - 1];
    }
  }

  /** Exact responses form a consecutive run over the plan. */
  lemma {:induction false} ExactIsConsecutive(length: nat, threads: nat, rs: seq<Response>, k: nat)
    requires threads >= 1 && ExactResponses(length, threads, rs) && k <= threads
    ensures Consecutive(Plan(length, threads)[..k], rs[..k])
  {
    if k > 0 {
      var plan := Plan(length, threads);
      ExactIsConsecutive(length, threads, rs, k - 1);
      assert plan[..k][..k - 1] == plan[..k - 1];
      assert rs[..k][..k - 1] == rs[..k - 1];
      PayloadLength(length, threads, rs, k - 1);
      PrefixSpan(length, threads, k - 1);
      PlanAt(length, threads, k - 1);
    }
  }

  /** When every range arrives with exactly its clamped span, the assembled
      file is the responses concatenated in range order and has the probed
      length. */
  lemma AssembledFile(length: nat, threads: nat, rs: seq<Response>)
    requires threads >= 1 && ExactResponses(length, threads, rs)
    ensures |Payload(rs)| == length
    ensures ApplyWrites(Zeros(length), Plan(length, threads), rs) == Payload(rs)
  {
    var plan := Plan(length, threads);
    PayloadLength(length, threads, rs, threads);
    PlanSpansSumToLength(length, threads);
    ExactIsConsecutive(length, threads, rs, threads);
    assert rs[..threads] == rs;
    assert plan[..threads] == plan;
    assert ClampedPlan(length, threads)[..threads] == ClampedPlan(length, threads);
    WritesInSequence(Zeros(length), plan, rs);
  }

  /** With exact responses, the writes of two different workers touch disjoint
      spans inside the file, so they give the same file in either order. */
  lemma PlanWritesCommute(length: nat, threads: nat, rs: seq<Response>, i: nat, j: nat, file: seq<Byte>)
    requires threads >= 1 && ExactResponses(length, threads, rs)
    requires i < j < threads && |file| == length
    ensures var plan := Plan(length, threads);
            Overwrite(Overwrite(file, plan[i].start, rs[i].content), plan[j].start, rs[j].content)
            == Overwrite(Overwrite(file, plan[j].start, rs[j].content), plan[i].start, rs[i].content)
  {
    var p := length / threads;
    ClampedInner(length, threads, i);
    PlanAt(length, threads, i);
    PlanAt(length, threads, j);
    ClampedPlanAt(length, threads, j);
    SharesFit(length, threads, j + 1);
    MulSucc(p, i);
    MulSucc(p, j);
    MulMonotone(i + 1, j, p);
    OverwriteCommutes(file, p * i, rs[i].content, p * j, rs[j].content);
  }

  /** A server that ignores the Range header sends the whole body to every
      worker.  With L = 4 and two workers the two writes then overlap, and the
      file depends on which worker writes last. */
  lemma OversizedWritesDependOnOrder()
    ensures var c: seq<Byte> := [1, 2, 3, 4];
            var plan := Plan(4, 2);
            Overwrite(Overwrite(Zeros(4), plan[0].start, c), plan[1].start, c)
            != Overwrite(Overwrite(Zeros(4), plan[1].start, c), plan[0].start, c)
  {
    var c: seq<Byte> := [1, 2, 3, 4];
    var plan := Plan(4, 2);
    PlanAt(4, 2, 0);
    PlanAt(4, 2, 1);
    var inOrder := Overwrite(Overwrite(Zeros(4), 0, c), 2, c);
    var reversed := Overwrite(Overwrite(Zeros(4), 2, c), 0, c);
    assert inOrder[2 + 0] == c[0] == 1;
    assert reversed[0 + 2] == c[2] == 3;
  }

  /** The header of range i is a valid byte-range-spec exactly when i is the
      last range or the file has at least one byte per worker; otherwise it is
      `bytes=<start>-<start - 1>`. */
  lemma PlanHeaderValid(length: nat, threads: nat, i: nat)
    requires threads >= 1 && i < threads
    ensures IsByteRangeSpec(RangeSpec(Plan(length, threads)[i].start, Plan(length, threads)[i].end))
            <==> i == threads - 1 || length >= threads
  {
    var r := Plan(length, threads)[i];
    var p := length / threads;
    ByteRangeSpecIff(r.start, r.end);
    PlanAt(length, threads, i);
    if i < threads - 1 {
      MulSucc(p, i);
      DivLowerBound(length, threads, 1);
      assert r.end >= r.start <==> p >= 1;
    } else {
      SharesFit(length, threads, threads - 1);
    }
  }

  /** A file of 1000 bytes over three workers. */
  lemma ThreeWorkerPlan()
    ensures Plan(1000, 3) == [ByteRange(0, 332), ByteRange(333, 665), ByteRange(666, 1000)]
    ensures RangeSpec(666, 1000) == "bytes=666-1000"
  {
  }

  /** The global failure counter the workers increment. */
  class FailureTally {
    var threadsFailed: nat

    constructor ()
      ensures threadsFailed == 0
    {
      threadsFailed := 0;
    }

    method Increment()
      modifies this
      ensures threadsFailed == old(threadsFailed) + 1
    {
      threadsFailed := threadsFailed + 1;
    }
  }

  /** One worker: request [start, end] and either count a failure (writing
      nothing) or write the body at offset start. */
  method ThreadHandler(url: string, start: nat, end: int, out: OutFile, tally: FailureTally, response: Response)
    returns (request: Request)
    requires out.present
    modifies out, out.data, tally
    ensures request == Get(url, RangeSpec(start, end))
    ensures out.present && (out.data == old(out.data) || fresh(out.data))
    ensures response.Failed? ==>
              tally.threadsFailed == old(tally.threadsFailed) + 1 && out.Contents() == old(out.Contents())
    ensures response.Fetched? ==>
              tally.threadsFailed == old(tally.threadsFailed)
              && out.Contents() == Overwrite(old(out.Contents()), start, response.content)
  {
    request := Get(url, RangeSpec(start, end));
    match response {
      case Failed =>
        tally.Increment();
      case Fetched(content) =>
        out.WriteAt(start, content);
    }
  }

  /** The GET requests for a plan, one per range, in range order. */
  function RangeRequests(url: string, plan: seq<ByteRange>): seq<Request>
  {
    seq(|plan|, i requires 0 <= i < |plan| => Get(url, RangeSpec(plan[i].start, plan[i].end)))
  }

  lemma RangeRequestsStep(url: string, plan: seq<ByteRange>, k: nat)
    requires k < |plan|
    ensures RangeRequests(url, plan[..k + 1])
            == RangeRequests(url, plan[..k]) + [Get(url, RangeSpec(plan[k].start, plan[k].end))]
  {
  }

  /** The planning loop of `download`: for each worker compute its range,
      and run the worker on it.  Joining the workers adds nothing here, as
      each one has finished when the next starts. */
  method StartWorkers(url: string, contentLength: nat, threads: nat, out: OutFile, tally: FailureTally,
                      responses: seq<Response>)
    returns (gets: seq<Request>)
    requires threads >= 1 && |responses| == threads && out.present
    modifies out, out.data, tally
    ensures gets == RangeRequests(url, Plan(contentLength, threads))
    ensures out.present && (out.data == old(out.data) || fresh(out.data))
    ensures tally.threadsFailed == old(tally.threadsFailed) + CountFailed(responses)
    ensures out.Contents() == ApplyWrites(old(out.Contents()), Plan(contentLength, threads), responses)
  {
    ghost var plan := Plan(contentLength, threads);
    var parts := contentLength / threads;
    gets := [];
    var i := 0;
    while i < threads
      invariant 0 <= i <= threads
      invariant out.present && (out.data == old(out.data) || fresh(out.data))
      invariant gets == RangeRequests(url, plan[..i])
      invariant tally.threadsFailed == old(tally.threadsFailed) + CountFailed(responses[..i])
      invariant out.Contents() == ApplyWrites(old(out.Contents()), plan[..i], responses[..i])
    {
      var start := parts * i;
      var end;
      if i == threads - 1 {
        end := contentLength;
      } else {
        end := start + parts - 1;
      }
      assert plan[i] == RangeAt(contentLength, threads, i);
      var request := ThreadHandler(url, start, end, out, tally, responses[i]);
      gets := gets + [request];
      RangeRequestsStep(url, plan, i);
      ApplyWritesStep(old(out.Contents()), plan, responses, i);
      CountFailedStep(responses, i);
      i := i + 1;
    }
    assert plan[..threads] == plan;
    assert responses[..threads] == responses;
  }

  /** `download(url, threads)`.  `probe` is the content length the HEAD
      request reported (None when it raised or had no usable length) and
      responses[i] is what worker i's GET gave. */
  method Download(url: string, threads: nat, probe: Option<nat>, responses: seq<Response>)
    returns (outcome: Outcome, requests: seq<Request>, file: FileState)
    requires threads >= 1 && |responses| == threads
    ensures |requests| >= 1 && requests[0] == Head(url)
    ensures probe.None? ==> outcome == ProbeFailed && requests == [Head(url)] && file == Absent
    ensures probe.Some? ==> requests[1..] == RangeRequests(url, Plan(probe.value, threads))
    ensures probe.Some? && CountFailed(responses) == 0 ==>
              outcome == Succeeded(OutputName(url))
              && file == Present(ApplyWrites(Zeros(probe.value), Plan(probe.value, threads), responses))
    ensures probe.Some? && CountFailed(responses) > 0 ==>
              outcome == DownloadFailed(OutputName(url), CountFailed(responses)) && file == Absent
    ensures probe.Some? && ExactResponses(probe.value, threads, responses) ==>
              outcome == Succeeded(OutputName(url)) && file == Present(Payload(responses))
              && |Payload(responses)| == probe.value
  {
    if probe.None? {
      return ProbeFailed, [Head(url)], Absent;
    }
    var contentLength := probe.value;
    var name := OutputName(url);
    var out := new OutFile.Preallocate(contentLength);
    var tally := new FailureTally();
    var gets := StartWorkers(url, contentLength, threads, out, tally, responses);
    requests := [Head(url)] + gets;
    CountFailedZeroIff(responses);
    if ExactResponses(contentLength, threads, responses) {
      AssembledFile(contentLength, threads, responses);
    }
    if tally.threadsFailed == 0 {
      outcome := Succeeded(name);
    } else {
      out.Remove();
      outcome := DownloadFailed(name, tally.threadsFailed);
    }
    file := if out.present then Present(out.Contents()) else Absent;
  }

  /** The script's entry: a thread count of zero or less is refused before any
      request is sent; otherwise the download runs. */
  method Run(url: string, threads: int, probe: Option<nat>, responses: seq<Response>)
    returns (outcome: Outcome, requests: seq<Request>, file: FileState)
    requires threads >= 1 ==> |responses| == threads
    ensures threads <= 0 <==> outcome == InvalidThreadCount(threads)
    ensures threads <= 0 ==> requests == [] && file == Absent
    ensures threads >= 1 ==> |requests| >= 1 && requests[0] == Head(url)
    ensures threads >= 1 && probe.None? ==> outcome == ProbeFailed && requests == [Head(url)] && file == Absent
    ensures threads >= 1 && probe.Some? ==> requests[1..] == RangeRequests(url, Plan(probe.value, threads))
    ensures threads >= 1 && probe.Some? && CountFailed(responses) == 0 ==>
              outcome == Succeeded(OutputName(url))
              && file == Present(ApplyWrites(Zeros(probe.value), Plan(probe.value, threads), responses))
    ensures threads >= 1 && probe.Some? && CountFailed(responses) > 0 ==>
              outcome == DownloadFailed(OutputName(url), CountFailed(responses)) && file == Absent
  {
    if threads <= 0 {
      return InvalidThreadCount(threads), [], Absent;
    }
    outcome, requests, file := Download(url, threads, probe, responses);
  }
}
