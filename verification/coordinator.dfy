/**
 * MrClient: the client that registers every chunk file as a pending map
 * job, sends one map request per job over a gRPC stream, marks the jobs
 * completed when the map server answers with status 2, and asks for the
 * reduce only when every job is completed.
 *
 * The gRPC channels, the latch and its timeout are not modelled: what the
 * map server streams back is a parameter (the sequence of observer events),
 * and so is the status the reduce server answers with.
 */
module Coordinator {
  import opened Wrappers
  import opened JavaText
  import opened Files

  /** Job status 1: registered, not yet reported done. */
  const PENDING: int := 1
  /** Job status 2: reported done by the map server (and the reduce server's success code). */
  const COMPLETED: int := 2

  /** A MapInput message. */
  datatype MapRequest = MapRequest(inputFilePath: string, outputFilePath: string)

  /** What the map response stream delivers to the client's observer. */
  datatype MapEvent = OnNext(jobstatus: int) | OnError | OnCompleted

  /** How the client run ends. */
  datatype Outcome = ListingFailed | MapFailed | ReduceFailed(status: int) | ReduceSucceeded

  /** `f.isFile() && f.getName().startsWith("chunk")`. */
  predicate IsChunkFile(e: DirEntry) {
    e.entry.File? && StartsWith(e.name, "chunk")
  }

  /** The jobs registered for the chunk directory `dir`: each chunk file's path, pending. */
  function ChunkJobs(dir: string, listing: seq<DirEntry>): map<string, int> {
    if listing == [] then map[]
    else
      var jobs := ChunkJobs(dir, listing[..|listing| - 1]);
      var last := listing[|listing| - 1];
      if IsChunkFile(last) then jobs[ChildPath(dir, last.name) := PENDING] else jobs
  }

  /**
   * Registration puts every chunk file, and nothing else, into the job table,
   * each as pending.
   */
  lemma {:induction false} ChunkJobsSpec(dir: string, listing: seq<DirEntry>)
    ensures forall p :: p in ChunkJobs(dir, listing) ==> ChunkJobs(dir, listing)[p] == PENDING
    ensures forall k :: 0 <= k < |listing| && IsChunkFile(listing[k]) ==>
              ChildPath(dir, listing[k].name) in ChunkJobs(dir, listing)
    ensures forall p :: p in ChunkJobs(dir, listing) ==>
              exists k :: 0 <= k < |listing| && IsChunkFile(listing[k]) && p == ChildPath(dir, listing[k].name)
    decreases |listing|
  {
    if listing != [] {
      var init := listing[..|listing| - 1];
      ChunkJobsSpec(dir, init);
      assert forall k :: 0 <= k < |init| ==> init[k] == listing[k];
    }
  }

  /** `jobStatus.replaceAll((k, v) -> 2)`. */
  function AllCompleted(m: map<string, int>): map<string, int> {
    map k | k in m :: COMPLETED
  }

  /** The job table after the observer sees one event. */
  function Observed(m: map<string, int>, ev: MapEvent): map<string, int> {
    if ev == OnNext(COMPLETED) then AllCompleted(m) else m
  }

  /** The job table after the observer sees the events in order. */
  function Replay(m: map<string, int>, events: seq<MapEvent>): map<string, int> {
    if events == [] then m else Observed(Replay(m, events[..|events| - 1]), events[|events| - 1])
  }

  /**
   * The responses never add or drop a job; one status-2 response marks every
   * job completed, and without one the table is unchanged.
   */
  lemma {:induction false} ReplaySpec(m: map<string, int>, events: seq<MapEvent>)
    ensures Replay(m, events).Keys == m.Keys
    ensures (exists k :: 0 <= k < |events| && events[k] == OnNext(COMPLETED)) ==>
              forall p :: p in Replay(m, events) ==> Replay(m, events)[p] == COMPLETED
    ensures (forall k :: 0 <= k < |events| ==> events[k] != OnNext(COMPLETED)) ==> Replay(m, events) == m
    decreases |events|
  {
    if events != [] {
      var init := events[..|events| - 1];
      ReplaySpec(m, init);
      assert forall k :: 0 <= k < |init| ==> init[k] == events[k];
      if exists k :: 0 <= k < |events| && events[k] == OnNext(COMPLETED) {
        if events[|events| - 1] != OnNext(COMPLETED) {
          var k :| 0 <= k < |events| && events[k] == OnNext(COMPLETED);
          assert init[k] == OnNext(COMPLETED);
        }
      }
    }
  }

  /**
   * The reduce gate of main: the set of job statuses is exactly one value,
   * and the table contains the value 2.
   */
  function ReduceGate(jobStatus: map<string, int>): (r: bool)
    ensures r <==> jobStatus != map[] && forall p :: p in jobStatus ==> jobStatus[p] == COMPLETED
  {
    var values := jobStatus.Values;
    if |values| == 1 && COMPLETED in values then
      assert values == {COMPLETED} by {
        assert |values - {COMPLETED}| == 0;
      }
      assert forall p :: p in jobStatus ==> jobStatus[p] in values;
      true
    else
      AllCompletedValues(jobStatus);
      false
  }

  /** A non-empty table whose statuses are all 2 has exactly the status set {2}. */
  lemma AllCompletedValues(jobStatus: map<string, int>)
    ensures jobStatus != map[] && (forall p :: p in jobStatus ==> jobStatus[p] == COMPLETED) ==>
              jobStatus.Values == {COMPLETED}
  {
    if jobStatus != map[] && forall p :: p in jobStatus ==> jobStatus[p] == COMPLETED {
      var p :| p in jobStatus;
      assert jobStatus[p] in jobStatus.Values;
      assert jobStatus.Values <= {COMPLETED};
    }
  }

  /** The chunk paths the requests name. */
  function Paths(requests: seq<MapRequest>): set<string> {
    set r | r in requests :: r.inputFilePath
  }

  class MrClient {
    /** Chunk path to job status. */
    var jobStatus: map<string, int>

    constructor()
      ensures jobStatus == map[]
    {
      jobStatus := map[];
    }

    /** main's loop over the chunk directory: every chunk file becomes a pending job. */
    method Register(dir: string, listing: seq<DirEntry>)
      modifies this
      ensures jobStatus == old(jobStatus) + ChunkJobs(dir, listing)
    {
      var i := 0;
      while i < |listing|
        invariant 0 <= i <= |listing|
        invariant jobStatus == old(jobStatus) + ChunkJobs(dir, listing[..i])
      {
        var f := listing[i];
        assert listing[..i + 1][..i] == listing[..i];
        if f.entry.File? && StartsWith(f.name, "chunk") {
          jobStatus := jobStatus[ChildPath(dir, f.name) := PENDING];
        }
        i := i + 1;
      }
      assert listing[..i] == listing;
    }

    /**
     * The response observer: onNext with status 2 marks every job completed;
     * any other status, onError and onCompleted leave the table alone.
     */
    method Observe(ev: MapEvent)
      modifies this
      ensures ev == OnNext(COMPLETED) ==>
                jobStatus.Keys == old(jobStatus).Keys && forall p :: p in jobStatus ==> jobStatus[p] == COMPLETED
      ensures ev != OnNext(COMPLETED) ==> jobStatus == old(jobStatus)
      ensures jobStatus == Observed(old(jobStatus), ev)
    {
      match ev {
        case OnNext(status) =>
          if status == COMPLETED {
            jobStatus := map k | k in jobStatus :: COMPLETED;
          }
        case OnError =>
        case OnCompleted =>
      }
    }

    /**
     * requestMap: one map request per job, naming the job's chunk path and
     * the output path, in the job table's iteration order (left open); then
     * the server's responses, in order.
     */
    method RequestMap(outputFilePath: string, responses: seq<MapEvent>) returns (requests: seq<MapRequest>)
      modifies this
      ensures |requests| == |old(jobStatus)|
      ensures Paths(requests) == old(jobStatus).Keys
      ensures forall r :: r in requests ==> r.outputFilePath == outputFilePath
      ensures jobStatus == Replay(old(jobStatus), responses)
    {
      requests := SendRequests(jobStatus.Keys, outputFilePath);
      var i := 0;
      while i < |responses|
        invariant 0 <= i <= |responses|
        invariant jobStatus == Replay(old(jobStatus), responses[..i])
      {
        assert responses[..i + 1][..i] == responses[..i];
        Observe(responses[i]);
        i := i + 1;
      }
      assert responses[..i] == responses;
    }

    /**
     * The client run after the chunks were made: register the chunk files of
     * the listing (or stop when the directory cannot be listed), request the
     * maps, and request the reduce only when the gate holds.
     */
    method Run(dir: string, listing: Option<seq<DirEntry>>, outputFilePath: string,
               mapResponses: seq<MapEvent>, reduceStatus: int)
      returns (outcome: Outcome, requests: seq<MapRequest>)
      modifies this
      ensures listing.None? ==> outcome == ListingFailed && requests == [] && jobStatus == old(jobStatus)
      ensures listing.Some? ==> jobStatus == Replay(old(jobStatus) + ChunkJobs(dir, listing.value), mapResponses)
      ensures listing.Some? ==> Paths(requests) == (old(jobStatus) + ChunkJobs(dir, listing.value)).Keys
      ensures listing.Some? ==> |requests| == |old(jobStatus) + ChunkJobs(dir, listing.value)|
      ensures forall r :: r in requests ==> r.outputFilePath == outputFilePath
      ensures outcome.ReduceFailed? ==> outcome == ReduceFailed(reduceStatus)
      ensures outcome == MapFailed <==> listing.Some? && !ReduceGate(jobStatus)
      ensures outcome == ReduceSucceeded <==> listing.Some? && ReduceGate(jobStatus) && reduceStatus == COMPLETED
      ensures outcome.ReduceFailed? <==> listing.Some? && ReduceGate(jobStatus) && reduceStatus != COMPLETED
    {
      if listing.None? {
        return ListingFailed, [];
      }
      Register(dir, listing.value);
      requests := RequestMap(outputFilePath, mapResponses);
      var values := jobStatus.Values;
      if |values| == 1 && COMPLETED in values {
        if reduceStatus == COMPLETED {
          outcome := ReduceSucceeded;
        } else {
          outcome := ReduceFailed(reduceStatus);
        }
      } else {
        outcome := MapFailed;
      }
    }
  }

  /**
   * The loop of requestMap over the job table's keys: every path exactly
   * once, whichever order the table yields them in.
   */
  method SendRequests(paths: set<string>, outputFilePath: string) returns (requests: seq<MapRequest>)
    ensures |requests| == |paths|
    ensures Paths(requests) == paths
    ensures forall r :: r in requests ==> r.outputFilePath == outputFilePath
  {
    requests := [];
    var rest := paths;
    while rest != {}
      invariant rest <= paths
      invariant Paths(requests) == paths - rest
      invariant |requests| == |paths - rest|
      invariant forall r :: r in requests ==> r.outputFilePath == outputFilePath
      decreases |rest|
    {
      var p :| p in rest;
      assert paths - (rest - {p}) == (paths - rest) + {p};
      assert p !in paths - rest;
      requests := requests + [MapRequest(p, outputFilePath)];
      rest := rest - {p};
    }
  }

  /**
   * For a fresh client, the reduce is requested iff the chunk directory held
   * a chunk file and the map server answered with status 2 at least once.
   */
  lemma FreshRunGate(dir: string, listing: seq<DirEntry>, events: seq<MapEvent>)
    ensures ReduceGate(Replay(ChunkJobs(dir, listing), events)) <==>
              (exists k :: 0 <= k < |listing| && IsChunkFile(listing[k])) &&
              (exists k :: 0 <= k < |events| && events[k] == OnNext(COMPLETED))
  {
    var jobs := ChunkJobs(dir, listing);
    ChunkJobsSpec(dir, listing);
    ReplaySpec(jobs, events);
    if exists k :: 0 <= k < |listing| && IsChunkFile(listing[k]) {
      var k :| 0 <= k < |listing| && IsChunkFile(listing[k]);
      assert ChildPath(dir, listing[k].name) in jobs;
      if forall k :: 0 <= k < |events| ==> events[k] != OnNext(COMPLETED) {
        assert jobs[ChildPath(dir, listing[k].name)] == PENDING;
      }
    } else {
      assert jobs == map[] by {
        assert jobs.Keys == {};
      }
    }
  }
}
