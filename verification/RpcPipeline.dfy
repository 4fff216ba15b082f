/** `validate_rpcs`: requests for a range of heights, kept in flight by a pipeline of bounded depth. */
module RpcPipeline {
  import opened Bytes
  import ChainValidator

  datatype Endpoint = SpendsWithConditions | BlockSpends | AdditionsAndRemovals

  datatype Request = Request(height: int, endpoint: Endpoint)

  datatype LookupError = AssertionError | ValueError

  /** `get_block_hash_for_height`, with Python's reading of negative slice bounds. */
  function Lookup(height: int, heightToHash: Blob): Result<Bytes32, LookupError> {
    var idx := height * 32;
    if idx + 32 > |heightToHash| then Err(AssertionError)
    else
      var lo, hi := SliceBound(idx, |heightToHash|), SliceBound(idx + 32, |heightToHash|);
      if hi - lo != 32 then Err(ValueError) else Ok(heightToHash[lo..hi])
  }

  /** In a file of n hashes, heights 0..n-1 are looked up from the front; a negative height below -1 is
      accepted too and counts from the back; everything else raises. */
  lemma LookupMeaning(height: int, heightToHash: Blob, n: nat)
    requires |heightToHash| == 32 * n
    ensures Lookup(height, heightToHash) ==
            if height >= n then Err(AssertionError)
            else if height >= 0 then Ok(HashAt(heightToHash, height))
            else if height < -1 && n + height >= 0 then Ok(HashAt(heightToHash, n + height))
            else Err(ValueError)
  {
  }

  /** Reading the buffer of an accepted table back: at the height of a main-chain row it holds the hash of that
      row, at a height without rows zeros, and above the peak the lookup raises. */
  lemma AcceptedLookup(p: ChainValidator.Params, peak: Bytes32, genesis: Bytes32, table: set<ChainValidator.BlockRow>,
                       rows: seq<ChainValidator.BlockRow>, height: int)
    requires ChainValidator.IsCursor(rows, table)
    requires ChainValidator.Verdict(p, peak, genesis, rows).Ok?
    ensures var found := Lookup(height, ChainValidator.Verdict(p, peak, genesis, rows).value.heightToHash);
            && (forall r :: ChainValidator.Main(p, table, r) && r.height == height ==> found == Ok(r.headerHash))
            && (0 <= height <= p.peakHeight && (forall r :: r in table ==> r.height != height) ==>
                  found == Ok(seq(32, _ => 0)))
            && (height > p.peakHeight ==> found == Err(AssertionError))
  {
    hide ChainValidator.Verdict, ChainValidator.RowDecodes, ChainValidator.PrevDecodes;
    hide ChainValidator.IsCursor, HashAt, Lookup;
    var chain := ChainValidator.AcceptedChain(p, peak, genesis, table, rows);
    LookupMeaning(height, ChainValidator.Verdict(p, peak, genesis, rows).value.heightToHash, p.peakHeight + 1);
  }

  // ------------------------------------------------------------ the run

  datatype Plan = Plan(start: int, end: int, depth: int, endpoints: set<Endpoint>, heightToHash: Blob)

  datatype Outcome = Finished | LookupRaised(error: LookupError) | NothingToWaitFor | RequestRaised | ZeroDivision

  /** Which requests of a pipeline are complete when a wait returns. Requests never come back, so no two
      waits see the same pipeline and this covers every order of completion. */
  type Scheduler = set<Request> -> set<Request>

  ghost predicate Valid(schedule: Scheduler) {
    forall p :: p != {} ==> schedule(p) != {} && schedule(p) <= p
  }

  /** The requests of one height. */
  function Batch(plan: Plan, height: int): set<Request> {
    set e | e in plan.endpoints :: Request(height, e)
  }

  /** The requests of the first n heights. */
  function Issued(plan: Plan, n: nat): set<Request> {
    if n == 0 then {} else Issued(plan, n - 1) + Batch(plan, plan.start + n - 1)
  }

  /** What is left in flight once there is room again; None is a wait for nothing. */
  ghost function Drain(plan: Plan, schedule: Scheduler, pipeline: set<Request>): (r: Option<set<Request>>)
    requires Valid(schedule)
    ensures plan.depth >= 1 ==> r.Some? && |r.value| < plan.depth
    ensures r.Some? ==> r.value <= pipeline
    ensures |pipeline| < plan.depth ==> r == Some(pipeline)
    ensures plan.depth < 1 ==> r.None?
    decreases |pipeline|
  {
    if |pipeline| < plan.depth then Some(pipeline)
    else if pipeline == {} then None
    else
      Smaller(pipeline, schedule(pipeline));
      Drain(plan, schedule, pipeline - schedule(pipeline))
  }

  lemma Smaller<T>(a: set<T>, b: set<T>)
    requires b != {} && b <= a
    ensures |a - b| < |a|
  {
    assert a == (a - b) + b;
  }

  /** What is in flight after n heights. */
  ghost function InFlight(plan: Plan, schedule: Scheduler, n: nat): Option<set<Request>>
    requires Valid(schedule)
  {
    if n == 0 then Some({})
    else
      var before := InFlight(plan, schedule, n - 1);
      if before.None? then None else Drain(plan, schedule, before.value + Batch(plan, plan.start + n - 1))
  }

  function Heights(plan: Plan): nat {
    if plan.end < plan.start then 0 else plan.end + 1 - plan.start
  }

  /** How the run ends, from height number i on. */
  ghost function Ending(plan: Plan, schedule: Scheduler, fails: set<Request>, i: nat): Outcome
    requires Valid(schedule) && i <= Heights(plan) && InFlight(plan, schedule, i).Some?
    decreases Heights(plan) - i
  {
    if i < Heights(plan) then
      var hash := Lookup(plan.start + i, plan.heightToHash);
      if hash.Err? then LookupRaised(hash.error)
      else if InFlight(plan, schedule, i + 1).None? then NothingToWaitFor
      else Ending(plan, schedule, fails, i + 1)
    else if InFlight(plan, schedule, i).value * fails != {} then RequestRaised
    else if plan.start == plan.end then ZeroDivision
    else Finished
  }

  /** The waits after the requests of a height were added. */
  method MakeRoom(plan: Plan, schedule: Scheduler, full: set<Request>) returns (left: Option<set<Request>>)
    requires Valid(schedule)
    ensures left == Drain(plan, schedule, full)
  {
    var pipeline := full;
    while |pipeline| >= plan.depth
      invariant Drain(plan, schedule, full) == Drain(plan, schedule, pipeline)
      decreases |pipeline|
    {
      if pipeline == {} {
        return None;
      }
      Smaller(pipeline, schedule(pipeline));
      pipeline := pipeline - schedule(pipeline);
    }
    return Some(pipeline);
  }

  /** The command, given the order of completion and the requests that fail. `most` is the largest number of
      requests ever in flight. */
  method CliAsync(plan: Plan, schedule: Scheduler, fails: set<Request>) returns (outcome: Outcome, most: nat)
    requires Valid(schedule)
    ensures outcome == Ending(plan, schedule, fails, 0)
    ensures plan.depth >= 1 ==> most <= plan.depth - 1 + |plan.endpoints|
  {
    hide Lookup, Drain, Batch, Ending, Valid;
    var pipeline: set<Request> := {};
    most := 0;
    for i := 0 to Heights(plan)
      invariant InFlight(plan, schedule, i) == Some(pipeline)
      invariant Ending(plan, schedule, fails, 0) == Ending(plan, schedule, fails, i)
      invariant plan.depth >= 1 ==> |pipeline| < plan.depth && most <= plan.depth - 1 + |plan.endpoints|
    {
      EndingStep(plan, schedule, fails, i);
      var hash := Lookup(plan.start + i, plan.heightToHash);
      if hash.Err? {
        return LookupRaised(hash.error), most;
      }
      BatchSize(plan, plan.start + i);
      UnionSize(pipeline, Batch(plan, plan.start + i));
      pipeline := pipeline + Batch(plan, plan.start + i);
      most := if |pipeline| > most then |pipeline| else most;
      var left := MakeRoom(plan, schedule, pipeline);
      if left.None? {
        return NothingToWaitFor, most;
      }
      pipeline := left.value;
    }
    EndingEnd(plan, schedule, fails);
    if pipeline * fails != {} {
      return RequestRaised, most;
    }
    outcome := if plan.start == plan.end then ZeroDivision else Finished;
  }

  lemma EndingStep(plan: Plan, schedule: Scheduler, fails: set<Request>, i: nat)
    requires Valid(schedule) && i < Heights(plan) && InFlight(plan, schedule, i).Some?
    ensures Ending(plan, schedule, fails, i) ==
            var hash := Lookup(plan.start + i, plan.heightToHash);
            if hash.Err? then LookupRaised(hash.error)
            else if InFlight(plan, schedule, i + 1).None? then NothingToWaitFor
            else Ending(plan, schedule, fails, i + 1)
  {
    hide Lookup, InFlight, Valid;
  }

  lemma EndingEnd(plan: Plan, schedule: Scheduler, fails: set<Request>)
    requires Valid(schedule) && InFlight(plan, schedule, Heights(plan)).Some?
    ensures Ending(plan, schedule, fails, Heights(plan)) ==
            if InFlight(plan, schedule, Heights(plan)).value * fails != {} then RequestRaised
            else if plan.start == plan.end then ZeroDivision
            else Finished
  {
    hide InFlight, Valid;
  }

  lemma UnionSize<T>(a: set<T>, b: set<T>)
    ensures |a + b| <= |a| + |b|
  {
    assert a + b == a + (b - a);
    assert |b - a| <= |b| by { SubsetSize(b - a, b); }
  }

  lemma SubsetSize<T>(a: set<T>, b: set<T>)
    requires a <= b
    ensures |a| <= |b|
  {
    assert b == a + (b - a);
  }

  lemma BatchSize(plan: Plan, height: int)
    ensures |Batch(plan, height)| == |plan.endpoints|
  {
    ImageSize(plan.endpoints, height);
  }

  lemma {:induction false} ImageSize(endpoints: set<Endpoint>, height: int)
    ensures |set e | e in endpoints :: Request(height, e)| == |endpoints|
    decreases endpoints
  {
    var image := set e | e in endpoints :: Request(height, e);
    if endpoints != {} {
      var x :| x in endpoints;
      ImageSize(endpoints - {x}, height);
      assert image == (set e | e in endpoints - {x} :: Request(height, e)) + {Request(height, x)};
    } else {
      assert image == {};
    }
  }

  // ------------------------------------------------------------ what a finished run tells

  lemma {:induction false} IssuedBelow(plan: Plan, n: nat, q: Request)
    ensures q in Issued(plan, n) <==> plan.start <= q.height < plan.start + n && q.endpoint in plan.endpoints
  {
    if n > 0 {
      IssuedBelow(plan, n - 1, q);
      assert q in Batch(plan, plan.start + n - 1) <==>
             q.height == plan.start + n - 1 && q.endpoint in plan.endpoints by {
        assert q == Request(q.height, q.endpoint);
      }
    }
  }

  /** All requests of a run: every endpoint for every height from start to end. */
  lemma IssuedAll(plan: Plan, q: Request)
    ensures q in Issued(plan, Heights(plan)) <==>
            plan.start <= q.height <= plan.end && q.endpoint in plan.endpoints
  {
    IssuedBelow(plan, Heights(plan), q);
  }

  lemma IssuedGrows(plan: Plan, n: nat)
    requires n > 0
    ensures |Issued(plan, n)| == |Issued(plan, n - 1)| + |plan.endpoints|
  {
    hide Batch;
    var before, batch := Issued(plan, n - 1), Batch(plan, plan.start + n - 1);
    BatchSize(plan, plan.start + n - 1);
    forall q | q in batch
      ensures q !in before
    {
      BatchHeight(plan, plan.start + n - 1, q);
      IssuedBelow(plan, n - 1, q);
    }
    assert |before + batch| == |before| + |batch|;
  }

  lemma BatchHeight(plan: Plan, height: int, q: Request)
    requires q in Batch(plan, height)
    ensures q.height == height
  {
  }

  /** Every endpoint is asked once for every height. */
  lemma {:induction false} IssuedSize(plan: Plan, n: nat)
    ensures |Issued(plan, n)| == n * |plan.endpoints|
  {
    if n > 0 {
      IssuedSize(plan, n - 1);
      IssuedGrows(plan, n);
      Times(n, |plan.endpoints|);
    }
  }

  lemma Times(n: int, r: int)
    ensures n * r == (n - 1) * r + r
  {
  }

  /** For every order of completion: with room for at least one request the pipeline never waits for nothing,
      holds fewer requests than its depth between heights, and only requests issued so far. */
  lemma {:induction false} PipelineBounded(plan: Plan, schedule: Scheduler, n: nat)
    requires Valid(schedule) && plan.depth >= 1
    ensures InFlight(plan, schedule, n).Some? && |InFlight(plan, schedule, n).value| < plan.depth
    ensures InFlight(plan, schedule, n).value <= Issued(plan, n)
    ensures |Issued(plan, n)| < plan.depth ==> InFlight(plan, schedule, n).value == Issued(plan, n)
  {
    hide Batch, Drain;
    if n > 0 {
      PipelineBounded(plan, schedule, n - 1);
      SubsetSize(Issued(plan, n - 1), Issued(plan, n));
      var before := InFlight(plan, schedule, n - 1).value;
      assert before + Batch(plan, plan.start + n - 1) <= Issued(plan, n);
    }
  }

  /** The run got through all heights and reported no failed request. */
  ghost predicate Clean(plan: Plan, schedule: Scheduler, fails: set<Request>)
    requires Valid(schedule)
  {
    Ending(plan, schedule, fails, 0) == Finished || Ending(plan, schedule, fails, 0) == ZeroDivision
  }

  ghost predicate LookupsWork(plan: Plan) {
    forall h :: plan.start <= h <= plan.end ==> Lookup(h, plan.heightToHash).Ok?
  }

  lemma {:induction false} EndingIs(plan: Plan, schedule: Scheduler, fails: set<Request>, i: nat)
    requires Valid(schedule) && plan.depth >= 1 && LookupsWork(plan) && i <= Heights(plan)
             && InFlight(plan, schedule, i).Some?
    ensures InFlight(plan, schedule, Heights(plan)).Some?
    ensures Ending(plan, schedule, fails, i) ==
            if InFlight(plan, schedule, Heights(plan)).value * fails != {} then RequestRaised
            else if plan.start == plan.end then ZeroDivision else Finished
    decreases Heights(plan) - i
  {
    hide Lookup, InFlight;
    PipelineBounded(plan, schedule, Heights(plan));
    if i < Heights(plan) {
      PipelineBounded(plan, schedule, i + 1);
      EndingIs(plan, schedule, fails, i + 1);
    }
  }

  /** The first height that cannot be looked up. */
  ghost predicate FirstUnknown(plan: Plan, i: nat, h: int) {
    && plan.start + i <= h <= plan.end && Lookup(h, plan.heightToHash).Err?
    && forall g :: plan.start + i <= g < h ==> Lookup(g, plan.heightToHash).Ok?
  }

  lemma {:induction false} EndingRaises(plan: Plan, schedule: Scheduler, fails: set<Request>, i: nat, h: int)
    requires Valid(schedule) && plan.depth >= 1 && FirstUnknown(plan, i, h)
    requires i <= Heights(plan) && InFlight(plan, schedule, i).Some?
    ensures Ending(plan, schedule, fails, i) == LookupRaised(Lookup(h, plan.heightToHash).error)
    decreases Heights(plan) - i
  {
    hide Lookup, InFlight, Valid;
    if plan.start + i < h {
      PipelineBounded(plan, schedule, i + 1);
      EndingRaises(plan, schedule, fails, i + 1, h);
    }
  }

  /** How a run ends, for every order of completion: at the first height without a hash, or with a failure among
      the requests still in flight after the last height, or with the division by zero for a single height. */
  lemma RunMeaning(plan: Plan, schedule: Scheduler, fails: set<Request>)
    requires Valid(schedule) && plan.depth >= 1
    ensures forall h :: FirstUnknown(plan, 0, h) ==>
              Ending(plan, schedule, fails, 0) == LookupRaised(Lookup(h, plan.heightToHash).error)
    ensures InFlight(plan, schedule, Heights(plan)).Some?
    ensures LookupsWork(plan) ==>
              Ending(plan, schedule, fails, 0) ==
              if InFlight(plan, schedule, Heights(plan)).value * fails != {} then RequestRaised
              else if plan.start == plan.end then ZeroDivision else Finished
  {
    hide Lookup, Ending;
    PipelineBounded(plan, schedule, Heights(plan));
    forall h | FirstUnknown(plan, 0, h)
      ensures Ending(plan, schedule, fails, 0) == LookupRaised(Lookup(h, plan.heightToHash).error)
    {
      EndingRaises(plan, schedule, fails, 0, h);
    }
    if LookupsWork(plan) {
      EndingIs(plan, schedule, fails, 0);
    }
  }

  /** A clean run means that every request succeeded, exactly when all requests fit into the pipeline at
      once: whatever the order of completion, otherwise some failure would go unnoticed. */
  lemma FailuresNoticed(plan: Plan, schedule: Scheduler)
    requires Valid(schedule) && plan.depth >= 1 && LookupsWork(plan)
    ensures (forall fails :: Clean(plan, schedule, fails) ==> fails * Issued(plan, Heights(plan)) == {}) <==>
            Heights(plan) * |plan.endpoints| < plan.depth
  {
    var n := Heights(plan);
    var all := Issued(plan, n);
    IssuedSize(plan, n);
    PipelineBounded(plan, schedule, n);
    var left := InFlight(plan, schedule, n).value;
    forall fails
      ensures Clean(plan, schedule, fails) <==> left * fails == {}
    {
      EndingIs(plan, schedule, fails, 0);
    }
    if |all| >= plan.depth {
      if all <= left {
        SubsetSize(all, left);
        assert false;
      }
      var missed := all - left;
      assert left * missed == {};
      assert Clean(plan, schedule, missed);
      assert missed * all == missed != {};
    }
  }

  /** A depth below one fails at the first height that can be looked up. */
  lemma NoDepth(plan: Plan, schedule: Scheduler, fails: set<Request>)
    requires Valid(schedule) && plan.depth < 1 && Heights(plan) > 0 && Lookup(plan.start, plan.heightToHash).Ok?
    ensures Ending(plan, schedule, fails, 0) == NothingToWaitFor
  {
    assert InFlight(plan, schedule, 1).None?;
  }
}
