/** The `MandelbrotViewer` process object: the coordinator's render gate on
    rank 0, the render it runs, the shutdown broadcast, and the worker loop of
    every other rank.

    The background render thread is modelled as a separate method,
    `RenderThread`, that runs after `StartRendering` has launched it; the
    `rendering` flag is a plain sequential field. Each MPI call either
    completes or throws `MPIException`; which one happens is a parameter. */
module Viewer {
  import opened Pixels
  import opened Gather
  import opened Protocol

  datatype Option<T> = None | Some(value: T)

  /** A rendered picture: `BufferedImage` of `TYPE_INT_RGB`, row-major. */
  datatype Image = Image(width: nat, height: nat, pixels: seq<int>)

  /** Colour of pixel `(x, y)` of a job: `computePoint` applied to the complex
      point the pixel maps to. Every rank runs the same code, so every rank
      has the same colouring. */
  type Colouring = (Job, int, int) -> int

  function ShadeOf(colouring: Colouring, job: Job): Shade
  {
    (x, y) => colouring(job, x, y)
  }

  /** How the collective calls of one coordinator render end. */
  datatype RenderComm = Completes | BcastThrows | GatherThrows

  /** What one iteration of the worker loop receives: either `Bcast` throws,
      or a record arrives and, for a render, the `Gatherv` that follows
      completes or throws. */
  datatype Event = BcastFails | Received(params: Params, gatherThrows: bool)

  /** Why the worker loop stopped, or that it is still waiting. */
  datatype WorkerExit = ShutdownReceived | CommFailed | AwaitingBroadcast | NotAWorker

  /** The `computeAndGather` calls a worker makes, how its loop ends, and how
      many broadcasts it took in. */
  datatype WorkerRun = WorkerRun(jobs: seq<Job>, exit: WorkerExit, received: nat)

  /** One iteration of the worker loop on event `e`, followed by `rest`, the
      run the loop would make on the broadcasts after it. */
  function Step(e: Event, rest: WorkerRun): (r: WorkerRun)
    ensures !IsRender(e) ==> r.received == 1 && |r.jobs| <= 1 && (r.exit == CommFailed || r.exit == ShutdownReceived)
    ensures IsRender(e) ==> r.received == 1 + rest.received && r.exit == rest.exit && |r.jobs| == 1 + |rest.jobs|
  {
    match e
    case BcastFails => WorkerRun([], CommFailed, 1)
    case Received(p, gatherThrows) =>
      if IsShutdown(p) then WorkerRun([], ShutdownReceived, 1)
      else if gatherThrows then WorkerRun([Decode(p)], CommFailed, 1)
      else WorkerRun([Decode(p)] + rest.jobs, rest.exit, 1 + rest.received)
  }

  /** The worker loop over a finite supply of broadcasts. */
  function RunWorkerSpec(events: seq<Event>): (r: WorkerRun)
    ensures r.received <= |events|
    decreases |events|
  {
    if events == [] then WorkerRun([], AwaitingBroadcast, 0)
    else Step(events[0], RunWorkerSpec(events[1..]))
  }

  /** The run from broadcast `k` on is one step followed by the run from
      `k + 1` on. */
  lemma RunFrom(events: seq<Event>, k: nat)
    requires k < |events|
    ensures RunWorkerSpec(events[k..]) == Step(events[k], RunWorkerSpec(events[k + 1..]))
  {
    assert events[k..][0] == events[k] && events[k..][1..] == events[k + 1..];
  }

  /** Taking in broadcast `k` after `jobs`: the run either stops there or
      carries on from `k + 1` with one more job. */
  lemma Advance(events: seq<Event>, jobs: seq<Job>, k: nat)
    requires k < |events|
    ensures events[k] == BcastFails ==>
      Continue(jobs, k, RunWorkerSpec(events[k..])) == WorkerRun(jobs, CommFailed, k + 1)
    ensures events[k].Received? && IsShutdown(events[k].params) ==>
      Continue(jobs, k, RunWorkerSpec(events[k..])) == WorkerRun(jobs, ShutdownReceived, k + 1)
    ensures events[k].Received? && !IsShutdown(events[k].params) && events[k].gatherThrows ==>
      Continue(jobs, k, RunWorkerSpec(events[k..])) == WorkerRun(jobs + [Decode(events[k].params)], CommFailed, k + 1)
    ensures IsRender(events[k]) ==>
      Continue(jobs, k, RunWorkerSpec(events[k..])) == Continue(jobs + [Decode(events[k].params)], k + 1, RunWorkerSpec(events[k + 1..]))
  {
    RunFrom(events, k);
    if IsRender(events[k]) {
      var rest := RunWorkerSpec(events[k + 1..]);
      assert jobs + ([Decode(events[k].params)] + rest.jobs) == jobs + [Decode(events[k].params)] + rest.jobs;
    }
  }

  /** A broadcast that starts a render whose gather completes. */
  predicate IsRender(e: Event)
  {
    e.Received? && !IsShutdown(e.params) && !e.gatherThrows
  }

  /** One `computeAndGather` per non-sentinel broadcast taken in, in order,
      on the frame decoded from it. */
  lemma {:induction false} WorkerJobs(events: seq<Event>)
    ensures var r := RunWorkerSpec(events);
      && |r.jobs| <= r.received
      && forall i :: 0 <= i < |r.jobs| ==>
           events[i].Received? && !IsShutdown(events[i].params) && r.jobs[i] == Decode(events[i].params)
    decreases |events|
  {
    if events != [] && IsRender(events[0]) {
      WorkerJobs(events[1..]);
      var r := RunWorkerSpec(events);
      assert r.jobs == [Decode(events[0].params)] + RunWorkerSpec(events[1..]).jobs;
      forall i | 0 < i < |r.jobs|
        ensures events[i].Received? && !IsShutdown(events[i].params) && r.jobs[i] == Decode(events[i].params)
      {
        assert events[i] == events[1..][i - 1];
      }
    }
  }

  /** Every broadcast before the last one taken in was an ordinary render
      whose gather completed. */
  lemma {:induction false} WorkerTakesRenders(events: seq<Event>)
    ensures forall i :: 0 <= i < RunWorkerSpec(events).received - 1 ==> IsRender(events[i])
    decreases |events|
  {
    if events != [] && IsRender(events[0]) {
      WorkerTakesRenders(events[1..]);
      forall i | 0 < i < RunWorkerSpec(events).received - 1
        ensures IsRender(events[i])
      {
        assert events[i] == events[1..][i - 1];
      }
    }
  }

  /** The loop stopped for the reason it reports: a sentinel, which starts no
      render; an exception, after which nothing is retried; or the supply
      running out. */
  lemma {:induction false} WorkerExitReason(events: seq<Event>)
    ensures var r := RunWorkerSpec(events);
      && r.exit != NotAWorker
      && (r.exit == AwaitingBroadcast ==> r.received == |events| == |r.jobs|)
      && (r.exit == ShutdownReceived ==>
            r.received == |r.jobs| + 1 && events[|r.jobs|].Received? && IsShutdown(events[|r.jobs|].params))
      && (r.exit == CommFailed ==>
            || (r.received == |r.jobs| + 1 && events[|r.jobs|] == BcastFails)
            || (r.received == |r.jobs| > 0 && events[|r.jobs| - 1].Received? && events[|r.jobs| - 1].gatherThrows))
    decreases |events|
  {
    if events != [] && IsRender(events[0]) {
      WorkerExitReason(events[1..]);
      var rest := RunWorkerSpec(events[1..]);
      var r := RunWorkerSpec(events);
      assert |r.jobs| == 1 + |rest.jobs|;
      if r.exit == ShutdownReceived {
        assert events[|r.jobs|] == events[1..][|rest.jobs|];
      }
      if r.exit == CommFailed {
        if rest.received == |rest.jobs| + 1 {
          assert events[|r.jobs|] == events[1..][|rest.jobs|];
        } else {
          assert events[|r.jobs| - 1] == events[1..][|rest.jobs| - 1];
        }
      }
    }
  }

  /** A worker that sees only ordinary renders and then the sentinel renders
      exactly those frames, takes in nothing after the sentinel, and stops. */
  lemma {:induction false} SentinelStopsWorker(events: seq<Event>, k: nat)
    requires k < |events|
    requires forall i :: 0 <= i < k ==> IsRender(events[i])
    requires events[k].Received? && IsShutdown(events[k].params)
    ensures RunWorkerSpec(events).exit == ShutdownReceived
    ensures RunWorkerSpec(events).received == k + 1
    ensures |RunWorkerSpec(events).jobs| == k
    ensures forall i :: 0 <= i < k ==> events[i].Received? && RunWorkerSpec(events).jobs[i] == Decode(events[i].params)
    decreases k
  {
    if k > 0 {
      var tail := events[1..];
      forall i | 0 <= i < k - 1
        ensures IsRender(tail[i])
      {
        assert tail[i] == events[i + 1];
      }
      SentinelStopsWorker(tail, k - 1);
      var rest := RunWorkerSpec(tail);
      assert RunWorkerSpec(events).jobs == [Decode(events[0].params)] + rest.jobs;
      forall i | 0 <= i < k
        ensures events[i].Received? && RunWorkerSpec(events).jobs[i] == Decode(events[i].params)
      {
        if i > 0 {
          assert tail[i - 1] == events[i];
        }
      }
    }
  }

  /** The record rank 0 broadcasts on shutdown, if it broadcasts at all. */
  function ShutdownBroadcast(rank: nat): (sent: Option<Params>)
    ensures sent.Some? <==> rank == 0
    ensures sent.Some? ==> IsShutdown(sent.value)
  {
    if rank == 0 then Some(ShutdownSignal) else None
  }

  /** Whatever a worker would have received after it, the shutdown record
      ends its loop at once, without a render. */
  lemma ShutdownStopsEveryWorker(gatherThrows: bool, later: seq<Event>)
    ensures RunWorkerSpec([Received(ShutdownBroadcast(0).value, gatherThrows)] + later) == WorkerRun([], ShutdownReceived, 1)
  {
  }

  class MandelbrotViewer {
    const rank: nat
    const size: nat
    const colouring: Colouring

    var width: nat
    var height: nat
    var viewport: Viewport
    var image: Image
    var rendering: bool

    /** Background renders launched and finished so far. */
    ghost var started: nat
    ghost var finished: nat
    /** A launched render died of an unchecked exception before it could
        clear `rendering`. */
    ghost var crashed: bool

    /** `rendering` is set exactly while one launched render has not
        finished; there is never more than one. A render that crashed never
        finishes, so `rendering` then stays set. */
    ghost predicate Valid()
      reads this
    {
      && rank < size
      && started == finished + (if rendering then 1 else 0)
      && (rank != 0 ==> started == 0)
      && (crashed ==> rendering)
    }

    /** A process of rank `rank` among `size`; rank 0 requests the first
        render at once. */
    constructor (rank: nat, size: nat, colouring: Colouring)
      requires rank < size
      ensures Valid()
      ensures this.rank == rank && this.size == size && this.colouring == colouring
      ensures width == 800 && height == 600 && viewport == DefaultViewport
      ensures image == Image(800, 600, Zeros(800 * 600))
      ensures rendering <==> rank == 0
      ensures started == (if rank == 0 then 1 else 0) && finished == 0 && !crashed
    {
      this.rank := rank;
      this.size := size;
      this.colouring := colouring;
      width, height := 800, 600;
      viewport := DefaultViewport;
      image := Image(800, 600, Zeros(800 * 600));
      rendering := false;
      started, finished, crashed := 0, 0, false;
      new;
      if rank == 0 {
        StartRendering();
      }
    }

    /** A render request. On a worker, or while a render is in flight, it
        does nothing; otherwise it sets `rendering` and launches one
        background render. */
    method StartRendering()
      requires Valid()
      modifies this`rendering, this`started
      ensures Valid()
      ensures old(rendering) || rank != 0 ==> rendering == old(rendering) && started == old(started)
      ensures !old(rendering) && rank == 0 ==> rendering && started == old(started) + 1
      ensures finished == old(finished)
      ensures crashed ==> rendering && started == old(started)
    {
      if rendering || rank != 0 {
        return;
      }
      rendering := true;
      started := started + 1;
    }

    /** The launched background thread: one render of the current size,
        after which `rendering` is cleared, whether or not an MPI call threw.
        When the frame has no pixels, building the image throws an unchecked
        exception that ends the thread first: `rendering` then stays set and
        no later request starts a render. */
    method RenderThread(comm: RenderComm)
      requires Valid() && rendering && !crashed
      modifies this`image, this`rendering, this`finished, this`crashed
      ensures Valid()
      ensures crashed <==> comm == Completes && (width == 0 || height == 0)
      ensures crashed ==> rendering && finished == old(finished)
      ensures !crashed ==> !rendering && finished == old(finished) + 1
      ensures image == if comm == Completes && !crashed
        then Image(width, height, FullRender(width, height, ShadeOf(colouring, Job(width, height, viewport))))
        else old(image)
    {
      var _, aborted := RenderMandelbrot(width, height, comm);
      if aborted {
        crashed := true;
        return;
      }
      rendering := false;
      finished := finished + 1;
    }

    /** The coordinator's render: broadcast the frame, take part in
        `computeAndGather` with every worker, and, if no call threw, publish
        the assembled buffer as the new image. Returns the record it
        broadcast, and `aborted` when the image of an empty frame could not
        be built, an exception that the `MPIException` handler does not
        catch. */
    method RenderMandelbrot(renderWidth: nat, renderHeight: nat, comm: RenderComm) returns (sent: Params, aborted: bool)
      requires rank == 0 && size > 0
      modifies this`image
      ensures sent == Encode(renderWidth, renderHeight, viewport) && !IsShutdown(sent)
      ensures aborted <==> comm == Completes && (renderWidth == 0 || renderHeight == 0)
      ensures image == if comm == Completes && !aborted
        then Image(renderWidth, renderHeight, FullRender(renderWidth, renderHeight, ShadeOf(colouring, Job(renderWidth, renderHeight, viewport))))
        else old(image)
    {
      sent := Encode(renderWidth, renderHeight, viewport);
      aborted := false;
      if comm == BcastThrows {
        return;
      }
      // Every rank renders the frame it decodes from the broadcast record.
      DecodeEncode(renderWidth, renderHeight, viewport);
      var job := Decode(sent);
      var allPixels := ComputeAndGather(job.width, job.height, size, ShadeOf(colouring, job));
      if comm == GatherThrows {
        return;
      }
      // Rank 0 wraps the gathered pixels in a `BufferedImage`, which refuses
      // a zero width or height.
      if renderWidth == 0 || renderHeight == 0 {
        aborted := true;
        return;
      }
      image := Image(renderWidth, renderHeight, allPixels);
    }

    /** `shutdown`: rank 0 broadcasts the sentinel; other ranks send nothing. */
    method Shutdown() returns (sent: Option<Params>)
      ensures sent == ShutdownBroadcast(rank)
    {
      sent := ShutdownBroadcast(rank);
    }

    /** The worker loop: one `computeAndGather` per non-sentinel broadcast,
        each overwriting the viewport fields with the received ones; the loop
        ends on the sentinel or on the first exception. Rank 0 returns at
        once. */
    method RunWorker(events: seq<Event>) returns (run: WorkerRun)
      modifies this`viewport
      ensures rank == 0 ==> run == WorkerRun([], NotAWorker, 0) && viewport == old(viewport)
      ensures rank != 0 ==> run == RunWorkerSpec(events)
      ensures rank != 0 ==> viewport == LastViewport(run.jobs, old(viewport))
    {
      if rank == 0 {
        return WorkerRun([], NotAWorker, 0);
      }
      ghost var initial := viewport;
      var jobs: seq<Job> := [];
      var exit := AwaitingBroadcast;
      var k := 0;
      var running := true;
      while running && k < |events|
        invariant 0 <= k <= |events|
        invariant running ==> RunWorkerSpec(events) == Continue(jobs, k, RunWorkerSpec(events[k..]))
        invariant !running ==> RunWorkerSpec(events) == WorkerRun(jobs, exit, k)
        invariant running ==> exit == AwaitingBroadcast
        invariant viewport == LastViewport(jobs, initial)
        decreases |events| - k
      {
        Advance(events, jobs, k);
        var e := events[k];
        if e.BcastFails? {
          exit := CommFailed;
          running := false;
        } else if IsShutdown(e.params) {
          exit := ShutdownReceived;
          running := false;
        } else {
          var job := Decode(e.params);
          assert LastViewport(jobs + [job], initial) == job.vp;
          viewport := job.vp;
          jobs := jobs + [job];
          if e.gatherThrows {
            exit := CommFailed;
            running := false;
          }
        }
        k := k + 1;
      }
      if running {
        assert events[k..] == [];
      }
      run := WorkerRun(jobs, exit, k);
    }
  }

  /** The viewport fields after the worker has received `jobs`, starting from
      `initial`. */
  function LastViewport(jobs: seq<Job>, initial: Viewport): Viewport
  {
    if jobs == [] then initial else jobs[|jobs| - 1].vp
  }

  /** `jobs` done and `k` broadcasts taken in, followed by the run `rest`. */
  function Continue(jobs: seq<Job>, k: nat, rest: WorkerRun): WorkerRun
  {
    WorkerRun(jobs + rest.jobs, rest.exit, k + rest.received)
  }
}
