/** `analyze_slot` as it runs: a dictionary of frame objects that the loops update in place. */
module MemoryProfileRun {
  import opened Bytes
  import opened MemoryProfile

  class CallInfo {
    var size: nat
    var calls: nat

    constructor (size: nat)
      ensures this.size == size && calls == 1
    {
      this.size, calls := size, 1;
    }

    method Add(size: nat)
      modifies this
      ensures this.size == old(this.size) + size && calls == old(calls) + 1
    {
      this.size := this.size + size;
      calls := calls + 1;
    }
  }

  class Frame {
    var size: nat
    const funId: nat
    var count: nat
    var callers: map<string, CallInfo>

    /** No two callers share a counter. */
    ghost predicate Valid()
      reads this
    {
      forall c, d :: c in callers && d in callers && callers[c] == callers[d] ==> c == d
    }

    /** What the frame and its caller counters hold. */
    function Value(): FrameTotal
      reads this, callers.Values
    {
      FrameTotal(size, funId, count, map c | c in callers :: CallTotal(callers[c].size, callers[c].calls))
    }

    constructor (size: nat, funId: nat)
      ensures Valid() && callers == map[] && Value() == FrameTotal(size, funId, 1, map[])
    {
      this.size, this.funId, count, callers := size, funId, 1, map[];
    }

    method Add(size: nat)
      requires Valid()
      modifies `size, `count
      ensures Valid() && Value() == old(Value()).(size := old(Value()).size + size, count := old(Value()).count + 1)
    {
      ghost var before := Value();
      this.size := this.size + size;
      count := count + 1;
      assert Value().callers == before.callers;
    }

    /** Count one more call from a caller, known or new. */
    method AddCall(caller: string, size: nat)
      requires Valid()
      modifies `callers, callers.Values
      ensures Valid() && fresh(callers.Values - old(callers.Values))
      ensures Value() == old(Value()).(callers := CountCall(old(Value()).callers, caller, size))
    {
      ghost var before := Value();
      if caller in callers {
        callers[caller].Add(size);
      } else {
        var call := new CallInfo(size);
        callers := callers[caller := call];
      }
      assert Value().callers == CountCall(before.callers, caller, size);
    }
  }

  type Frames = map<string, Frame>

  // ------------------------------------------------------------ the dictionary and what it holds

  ghost function Objects(frames: Frames): set<object>
    reads frames.Values
  {
    (set f | f in frames :: frames[f] as object)
    + (set f, o | f in frames && o in frames[f].callers.Values :: o as object)
  }

  /** No object belongs to two names. */
  ghost predicate Separate(frames: Frames)
    reads frames.Values
  {
    && (forall f :: f in frames ==> frames[f].Valid())
    && (forall f, g :: f in frames && g in frames && f != g ==>
          frames[f] != frames[g] && frames[f].callers.Values !! frames[g].callers.Values)
  }

  /** What the objects of the dictionary hold. */
  function Contents(frames: Frames): Table
    reads Objects(frames), frames.Values
  {
    map f | f in frames :: frames[f].Value()
  }

  /** A table that differs from another at one name. */
  lemma OneChanged(before: Table, after: Table, fun: string, total: FrameTotal)
    requires after.Keys == before.Keys + {fun} && after[fun] == total
    requires forall f :: f in before && f != fun ==> after[f] == before[f]
    ensures after == before[fun := total]
  {
  }

  /** The two parts of counting a visit: the frame, then the caller. */
  ghost function CountVisit(table: Table, fun: string, size: nat): (after: Table)
    ensures fun in after
  {
    if fun in table then table[fun := table[fun].(size := table[fun].size + size, count := table[fun].count + 1)]
    else table[fun := FrameTotal(size, |table|, 1, map[])]
  }

  ghost function CountCaller(table: Table, fun: string, caller: string, size: nat): Table
    requires fun in table
  {
    table[fun := table[fun].(callers := CountCall(table[fun].callers, caller, size))]
  }

  lemma VisitInParts(table: Table, fun: string, pred: Option<string>, size: nat)
    ensures AddVisit(table, Visit(fun, pred, size)) ==
            if pred.None? then CountVisit(table, fun, size)
            else CountCaller(CountVisit(table, fun, size), fun, pred.value, size)
  {
  }

  method OldFrame(frames: Frames, fun: string, size: nat)
    requires Separate(frames) && fun in frames
    modifies frames[fun]
    ensures Separate(frames) && Objects(frames) == old(Objects(frames))
    ensures Contents(frames) == CountVisit(old(Contents(frames)), fun, size)
  {
    ghost var before := Contents(frames);
    frames[fun].Add(size);
    assert forall f :: f in frames ==> frames[f].callers == old(frames[f].callers);
    OneChanged(before, Contents(frames), fun, frames[fun].Value());
  }

  method NewFrame(allFrames: Frames, fun: string, size: nat) returns (frames: Frames)
    requires Separate(allFrames) && fun !in allFrames
    ensures Separate(frames) && fun in frames &&
            forall o :: o in Objects(frames) ==> o in old(Objects(allFrames)) || fresh(o)
    ensures Contents(frames) == CountVisit(old(Contents(allFrames)), fun, size)
  {
    hide Separate, Contents;
    ContentsKeys(allFrames);
    ghost var objects := Objects(allFrames);
    var frame := new Frame(size, |allFrames|);
    assert frame !in objects && frame !in allFrames.Values;
    frames := allFrames[fun := frame];
    NotYetThere(allFrames, frame);
    Extended(allFrames, fun, frame);
  }

  twostate lemma NotYetThere(frames: Frames, new frame: Frame)
    requires fresh(frame)
    ensures forall f :: f in frames ==> frames[f] != frame
  {
  }

  /** Adding a frame without callers under a new name. */
  lemma Extended(allFrames: Frames, fun: string, frame: Frame)
    requires Separate(allFrames) && fun !in allFrames && frame.Valid() && frame.callers == map[]
    requires forall f :: f in allFrames ==> allFrames[f] != frame
    ensures Separate(allFrames[fun := frame])
    ensures Objects(allFrames[fun := frame]) <= Objects(allFrames) + {frame}
    ensures Contents(allFrames[fun := frame]) == Contents(allFrames)[fun := frame.Value()]
  {
    var frames := allFrames[fun := frame];
    assert frame.callers.Values == {};
    assert forall f :: f in frames <==> f in allFrames || f == fun;
    OneChanged(Contents(allFrames), Contents(frames), fun, frame.Value());
  }

  method CallFrom(frames: Frames, fun: string, caller: string, size: nat)
    requires Separate(frames) && fun in frames
    modifies frames[fun], frames[fun].callers.Values
    ensures Separate(frames) && forall o :: o in Objects(frames) ==> o in old(Objects(frames)) || fresh(o)
    ensures Contents(frames) == CountCaller(old(Contents(frames)), fun, caller, size)
  {
    ghost var before := Contents(frames);
    frames[fun].AddCall(caller, size);
    assert forall f :: f in frames && f != fun ==> frames[f].callers == old(frames[f].callers);
    OneChanged(before, Contents(frames), fun, frames[fun].Value());
  }

  lemma ContentsKeys(frames: Frames)
    ensures Contents(frames).Keys == frames.Keys && |Contents(frames)| == |frames|
  {
    var table := Contents(frames);
    assert table.Keys == frames.Keys;
    assert |table| == |table.Keys|;
  }

  lemma Belongs(frames: Frames, fun: string)
    requires fun in frames
    ensures frames[fun] in Objects(frames)
    ensures forall o :: o in frames[fun].callers.Values ==> o in Objects(frames)
  {
  }

  /** The body of the inner loop for a function not yet met in this trace. */
  method RecordVisit(allFrames: Frames, fun: string, prevFun: Option<string>, size: nat) returns (frames: Frames)
    requires Separate(allFrames)
    modifies Objects(allFrames)
    ensures Separate(frames) && forall o :: o in Objects(frames) ==> o in old(Objects(allFrames)) || fresh(o)
    ensures Contents(frames) == AddVisit(old(Contents(allFrames)),
                                         Visit(fun, if prevFun == Some("") then None else prevFun, size))
  {
    hide Separate, Objects, Contents, AddVisit, CountVisit, CountCaller;
    frames := allFrames;
    ContentsKeys(frames);
    VisitInParts(Contents(frames), fun, if prevFun == Some("") then None else prevFun, size);
    if fun in frames {
      Belongs(frames, fun);
      OldFrame(frames, fun, size);
    } else {
      frames := NewFrame(frames, fun, size);
    }
    if prevFun.Some? && prevFun.value != "" {
      Belongs(frames, fun);
      CallFrom(frames, fun, prevFun.value, size);
    }
  }

  /** The loop over the frames of one trace, each function counted once. */
  method AddTrace(start: Frames, trace: Trace, ghost before: seq<Visit>) returns (allFrames: Frames)
    requires Separate(start) && Contents(start) == Aggregate(before)
    modifies Objects(start)
    ensures Separate(allFrames) && forall o :: o in Objects(allFrames) ==> o in old(Objects(start)) || fresh(o)
    ensures Contents(allFrames) == Aggregate(before + TraceVisits(trace, |trace.funs|))
  {
    hide AddVisit, Aggregate, Separate, Objects, Contents;
    allFrames := start;
    var prevFun: Option<string> := None;
    var visited: set<string> := {};
    assert before + [] == before;
    for i := 0 to |trace.funs|
      invariant Separate(allFrames) && forall o :: o in Objects(allFrames) ==> o in old(Objects(start)) || fresh(o)
      invariant visited == set f | f in trace.funs[..i]
      invariant prevFun == if i == 0 then None else Some(trace.funs[i - 1])
      invariant Contents(allFrames) == Aggregate(before + TraceVisits(trace, i))
    {
      var fun := trace.funs[i];
      assert trace.funs[..i + 1] == trace.funs[..i] + [fun];
      if fun in visited {
        assert TraceVisits(trace, i + 1) == TraceVisits(trace, i);
        prevFun := Some(fun);
        continue;
      }
      visited := visited + {fun};
      ghost var visit := Visit(fun, Pred(trace.funs, i), trace.size);
      assert TraceVisits(trace, i + 1) == TraceVisits(trace, i) + [visit];
      AggregateNext(before, TraceVisits(trace, i), visit);
      allFrames := RecordVisit(allFrames, fun, prevFun, trace.size);
      prevFun := Some(fun);
    }
  }

  /** The two nested loops over traces and their frames. */
  method CollectFrames(traces: seq<Trace>) returns (allFrames: Frames, totalSize: nat)
    ensures Separate(allFrames) && Contents(allFrames) == Aggregate(Visits(traces))
    ensures totalSize == Total(traces)
  {
    hide AddVisit, Aggregate;
    allFrames, totalSize := map[], 0;
    NoVisits();
    for k := 0 to |traces|
      invariant Separate(allFrames) && forall o :: o in Objects(allFrames) ==> fresh(o)
      invariant Contents(allFrames) == Aggregate(Visits(traces[..k]))
      invariant totalSize == Total(traces[..k])
    {
      hide Separate, Objects, Contents;
      var trace := traces[k];
      ghost var before := Visits(traces[..k]);
      assert traces[..k + 1][..k] == traces[..k];
      totalSize := totalSize + trace.size;
      allFrames := AddTrace(allFrames, trace, before);
    }
    assert traces[..|traces|] == traces;
  }

  // ------------------------------------------------------------ writing the graph

  /** The pass over all frames that writes the nodes and notes the filtered ones. */
  method EmitNodes(frames: Table, total: nat) returns (nodes: set<Node>, filtered: set<string>)
    requires total > 0
    ensures nodes == set f | f in frames && !Filtered(frames, total, f) :: NodeOf(frames, total, f)
    ensures filtered == set f | f in frames && Filtered(frames, total, f)
  {
    hide Color, Percent;
    nodes, filtered := {}, {};
    var todo := frames.Keys;
    while todo != {}
      invariant todo <= frames.Keys
      invariant nodes == set f | f in frames && f !in todo && !Filtered(frames, total, f) :: NodeOf(frames, total, f)
      invariant filtered == set f | f in frames && f !in todo && Filtered(frames, total, f)
      decreases |todo|
    {
      var name :| name in todo;
      todo := todo - {name};
      var fr := frames[name];
      if fr.size as real / total as real < 0.001 {
        filtered := filtered + {name};
        continue;
      }
      nodes := nodes + {Node(fr.funId, name, fr.size, fr.count, Color(fr.size, total))};
    }
  }

  /** The edges into one frame. */
  method EmitCallers(frames: Table, total: nat, filtered: set<string>, name: string) returns (edges: set<Edge>)
    requires total > 0 && name in frames && !Filtered(frames, total, name)
    requires filtered == set f | f in frames && Filtered(frames, total, f)
    ensures edges == set c | c in frames[name].callers && Drawn(frames, total, name, c) ::
            EdgeOf(frames, total, name, c)
  {
    hide Color, Percent;
    edges := {};
    var fr := frames[name];
    var todo := fr.callers.Keys;
    while todo != {}
      invariant todo <= fr.callers.Keys
      invariant edges == set c | c in fr.callers && c !in todo
                && Drawn(frames, total, name, c) :: EdgeOf(frames, total, name, c)
      decreases |todo|
    {
      var caller :| caller in todo;
      todo := todo - {caller};
      var call := fr.callers[caller];
      if caller !in frames {
        continue;
      }
      if caller in filtered {
        continue;
      }
      if Percent(call.size, total) < 0.01 {
        continue;
      }
      edges := edges + {Edge(frames[caller].funId, fr.funId, call.size, call.calls, Color(call.size, total))};
    }
  }

  /** Both passes; None is the division by zero. */
  method EmitGraph(frames: Table, total: nat) returns (g: Option<Graph>)
    ensures total > 0 ==> g.Some? && Depicts(g.value, frames, total)
    ensures total == 0 ==> g == if |frames| > 0 then None else Some(Graph({}, {}))
  {
    hide Color, Percent, EdgeOf, NodeOf;
    if total == 0 {
      if |frames| > 0 { return None; }
      return Some(Graph({}, {}));
    }
    var nodes, filtered := EmitNodes(frames, total);
    var edges: set<Edge> := {};
    var todo := frames.Keys;
    while todo != {}
      invariant todo <= frames.Keys
      invariant edges == set f, c | f in frames && c in frames[f].callers && f !in todo
                && Drawn(frames, total, f, c) :: EdgeOf(frames, total, f, c)
      decreases |todo|
    {
      var name :| name in todo;
      todo := todo - {name};
      if name in filtered {
        continue;
      }
      var more := EmitCallers(frames, total, filtered, name);
      edges := edges + more;
    }
    g := Some(Graph(nodes, edges));
  }

  /** The whole command. It fails exactly on a snapshot with a non-empty traceback and no bytes. */
  method AnalyzeSlot(traces: seq<Trace>) returns (g: Option<Graph>)
    ensures Total(traces) > 0 ==> g.Some? && Depicts(g.value, Aggregate(Visits(traces)), Total(traces))
    ensures Total(traces) == 0 ==> g == if exists i :: 0 <= i < |traces| && traces[i].funs != [] then None
            else Some(Graph({}, {}))
  {
    hide Depicts;
    var frames, total := CollectFrames(traces);
    SomeFrame(traces);
    g := EmitGraph(Contents(frames), total);
  }
}
