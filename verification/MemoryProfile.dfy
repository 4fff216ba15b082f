/** `analyze_slot`: turning allocation traces into a weighted call graph. */
module MemoryProfile {
  import opened Bytes

  /** One allocation: its size and the functions on the stack, outermost first. */
  datatype Trace = Trace(size: nat, funs: seq<string>)

  datatype CallTotal = CallTotal(size: nat, calls: nat)

  datatype FrameTotal = FrameTotal(size: nat, funId: nat, count: nat, callers: map<string, CallTotal>)

  type Table = map<string, FrameTotal>

  // ------------------------------------------------------------ first visits

  /** A function met for the first time in a trace, and the function before it. As in the program,
      a function with an empty name does not count as a caller. */
  datatype Visit = Visit(fun: string, pred: Option<string>, size: nat)

  function Pred(funs: seq<string>, i: nat): Option<string>
    requires i < |funs|
  {
    if i == 0 || funs[i - 1] == "" then None else Some(funs[i - 1])
  }

  /** The first visits among the first n frames of a trace. */
  function TraceVisits(t: Trace, n: nat): seq<Visit>
    requires n <= |t.funs|
  {
    if n == 0 then []
    else
      TraceVisits(t, n - 1) +
      if t.funs[n - 1] in t.funs[..n - 1] then [] else [Visit(t.funs[n - 1], Pred(t.funs, n - 1), t.size)]
  }

  function Visits(traces: seq<Trace>): seq<Visit> {
    if traces == [] then []
    else Visits(traces[..|traces| - 1]) + TraceVisits(traces[|traces| - 1], |traces[|traces| - 1].funs|)
  }

  function CountCall(callers: map<string, CallTotal>, caller: string, size: nat): map<string, CallTotal> {
    var before := if caller in callers then callers[caller] else CallTotal(0, 0);
    callers[caller := CallTotal(before.size + size, before.calls + 1)]
  }

  /** What one first visit does to the table of frames. */
  function AddVisit(frames: Table, v: Visit): Table {
    var old' := if v.fun in frames then frames[v.fun] else FrameTotal(0, |frames|, 0, map[]);
    var callers := if v.pred.None? then old'.callers else CountCall(old'.callers, v.pred.value, v.size);
    frames[v.fun := FrameTotal(old'.size + v.size, old'.funId, old'.count + 1, callers)]
  }

  function Aggregate(visits: seq<Visit>): Table {
    if visits == [] then map[] else AddVisit(Aggregate(visits[..|visits| - 1]), visits[|visits| - 1])
  }

  lemma AggregateNext(before: seq<Visit>, visits: seq<Visit>, v: Visit)
    ensures Aggregate(before + (visits + [v])) == AddVisit(Aggregate(before + visits), v)
  {
    var all := before + (visits + [v]);
    assert all[..|all| - 1] == before + visits;
  }

  lemma NoVisits()
    ensures Aggregate([]) == map[]
  {
  }

  function Total(traces: seq<Trace>): nat {
    if traces == [] then 0 else Total(traces[..|traces| - 1]) + traces[|traces| - 1].size
  }

  // ------------------------------------------------------------ sums

  /** Which visits a sum is taken over: those of a function, those where it has no caller, those where it
      has the given caller. */
  datatype Selection = Within(fun: string) | Rooted(fun: string) | Called(fun: string, caller: string)

  predicate Picks(p: Selection, v: Visit) {
    v.fun == p.fun &&
    match p
    case Within(_) => true
    case Rooted(_) => v.pred.None?
    case Called(_, c) => v.pred == Some(c)
  }

  function SumIf(visits: seq<Visit>, p: Selection): nat {
    if visits == [] then 0
    else SumIf(visits[..|visits| - 1], p) + if Picks(p, visits[|visits| - 1]) then visits[|visits| - 1].size else 0
  }

  function CountIf(visits: seq<Visit>, p: Selection): nat {
    if visits == [] then 0
    else CountIf(visits[..|visits| - 1], p) + if Picks(p, visits[|visits| - 1]) then 1 else 0
  }

  /** The sum of the sizes on the caller edges of a frame. */
  ghost function CallerSum(callers: map<string, CallTotal>): nat
    decreases callers.Keys
  {
    if callers.Keys == {} then 0
    else
      var c :| c in callers.Keys;
      callers[c].size + CallerSum(callers - {c})
  }

  lemma {:induction false} CallerSumRemove(callers: map<string, CallTotal>, c: string)
    requires c in callers
    ensures CallerSum(callers) == callers[c].size + CallerSum(callers - {c})
    decreases callers.Keys
  {
    assert callers.Keys != {};
    var x :| x in callers.Keys && CallerSum(callers) == callers[x].size + CallerSum(callers - {x});
    if x != c {
      CallerSumRemove(callers - {x}, c);
      CallerSumRemove(callers - {c}, x);
      assert callers - {x} - {c} == callers - {c} - {x};
    }
  }

  lemma CallerSumAdd(callers: map<string, CallTotal>, c: string, size: nat)
    ensures var before := if c in callers then callers[c] else CallTotal(0, 0);
            CallerSum(callers[c := CallTotal(before.size + size, before.calls + 1)]) == CallerSum(callers) + size
  {
    var before := if c in callers then callers[c] else CallTotal(0, 0);
    var after := callers[c := CallTotal(before.size + size, before.calls + 1)];
    CallerSumRemove(after, c);
    if c in callers {
      CallerSumRemove(callers, c);
      assert after - {c} == callers - {c};
    } else {
      assert after - {c} == callers;
    }
  }

  // ------------------------------------------------------------ what the table holds

  ghost predicate HasId(frames: Table, id: nat) {
    exists f :: f in frames && frames[f].funId == id
  }

  /** The ids are exactly 0..n-1, one per frame. */
  ghost predicate Numbered(frames: Table) {
    && (forall id: nat :: id < |frames| <==> HasId(frames, id))
    && (forall f :: f in frames ==> frames[f].funId < |frames|)
    && (forall f, g :: f in frames && g in frames && frames[f].funId == frames[g].funId ==> f == g)
  }

  lemma VisitIds(frames: Table, v: Visit, id: nat)
    ensures HasId(AddVisit(frames, v), id) <==> HasId(frames, id) || (v.fun !in frames && id == |frames|)
  {
    var after := AddVisit(frames, v);
    assert v.fun in after;
    if HasId(frames, id) {
      var f :| f in frames && frames[f].funId == id;
      assert f in after && after[f].funId == id;
    }
    if HasId(after, id) {
      var f :| f in after && after[f].funId == id;
      if f in frames {
        assert frames[f].funId == id;
      }
    }
  }

  lemma VisitSize(frames: Table, v: Visit)
    ensures |AddVisit(frames, v)| == |frames| + if v.fun in frames then 0 else 1
  {
    assert AddVisit(frames, v).Keys == frames.Keys + {v.fun};
  }

  lemma VisitNumbered(frames: Table, v: Visit)
    requires Numbered(frames)
    ensures Numbered(AddVisit(frames, v))
  {
    hide HasId;
    var after := AddVisit(frames, v);
    VisitSize(frames, v);
    forall id: nat
      ensures id < |after| <==> HasId(after, id)
    {
      VisitIds(frames, v, id);
    }
  }

  lemma {:induction false} AggregateNumbered(visits: seq<Visit>)
    ensures Numbered(Aggregate(visits))
    decreases |visits|
  {
    if visits != [] {
      var init, v := visits[..|visits| - 1], visits[|visits| - 1];
      AggregateNumbered(init);
      var frames := Aggregate(init);
      var after := Aggregate(visits);
      assert after == AddVisit(frames, v);
      VisitNumbered(frames, v);
    }
  }

  /** What one more visit changes in a frame. */
  lemma VisitFrame(frames: Table, v: Visit, f: string)
    ensures var after := AddVisit(frames, v);
            && (f in after <==> f in frames || f == v.fun)
            && (f in frames && f != v.fun ==> after[f] == frames[f])
            && (f == v.fun ==>
                  var before := if f in frames then frames[f] else FrameTotal(0, 0, 0, map[]);
                  && after[f].size == before.size + v.size && after[f].count == before.count + 1
                  && CallerSum(after[f].callers) == CallerSum(before.callers) + if v.pred.Some? then v.size else 0)
  {
    hide CallerSum;
    var before := if f in frames then frames[f] else FrameTotal(0, 0, 0, map[]);
    if f == v.fun && v.pred.Some? {
      CallerSumAdd(before.callers, v.pred.value, v.size);
    }
  }

  lemma LastVisit(visits: seq<Visit>, p: Selection)
    requires visits != []
    ensures var init, v := visits[..|visits| - 1], visits[|visits| - 1];
            && SumIf(visits, p) == SumIf(init, p) + (if Picks(p, v) then v.size else 0)
            && CountIf(visits, p) == CountIf(init, p) + (if Picks(p, v) then 1 else 0)
            && Aggregate(visits) == AddVisit(Aggregate(init), v)
  {
  }

  ghost predicate FrameTally(visits: seq<Visit>, f: string) {
    if f in Aggregate(visits) then
      var frame := Aggregate(visits)[f];
      && frame.size == SumIf(visits, Within(f))
      && frame.count == CountIf(visits, Within(f)) > 0
      && frame.size == SumIf(visits, Rooted(f)) + CallerSum(frame.callers)
    else
      SumIf(visits, Within(f)) == CountIf(visits, Within(f)) == SumIf(visits, Rooted(f)) == 0
  }

  /** A frame against the list of first visits: it exists if visited, and its figures are sums over the visits. */
  lemma {:induction false} AggregateFrame(visits: seq<Visit>, f: string)
    ensures FrameTally(visits, f)
    decreases |visits|
  {
    if visits != [] {
      var init, v := visits[..|visits| - 1], visits[|visits| - 1];
      AggregateFrame(init, f);
      FrameStep(visits, f);
    }
  }

  lemma FrameStep(visits: seq<Visit>, f: string)
    requires visits != [] && FrameTally(visits[..|visits| - 1], f)
    ensures FrameTally(visits, f)
  {
    hide Aggregate, AddVisit, SumIf, CountIf;
    var init, v := visits[..|visits| - 1], visits[|visits| - 1];
    assert CallerSum(map[]) == 0;
    VisitFrame(Aggregate(init), v, f);
    LastVisit(visits, Within(f));
    LastVisit(visits, Rooted(f));
  }

  ghost predicate HasEdge(frames: Table, f: string, c: string) {
    f in frames && c in frames[f].callers
  }

  lemma {:induction false} AggregateEdge(visits: seq<Visit>, f: string, c: string)
    ensures var p := Called(f, c);
            if HasEdge(Aggregate(visits), f, c)
            then Aggregate(visits)[f].callers[c] == CallTotal(SumIf(visits, p), CountIf(visits, p))
              && CountIf(visits, p) > 0
            else SumIf(visits, p) == CountIf(visits, p) == 0
    decreases |visits|
  {
    if visits != [] {
      var init, v := visits[..|visits| - 1], visits[|visits| - 1];
      AggregateEdge(init, f, c);
      VisitEdge(Aggregate(init), v, f, c);
    }
  }

  lemma VisitEdge(frames: Table, v: Visit, f: string, c: string)
    ensures var after := AddVisit(frames, v);
            var before := if HasEdge(frames, f, c) then frames[f].callers[c] else CallTotal(0, 0);
            && (HasEdge(after, f, c) <==> HasEdge(frames, f, c) || Picks(Called(f, c), v))
            && (HasEdge(after, f, c) ==>
                  after[f].callers[c] == if Picks(Called(f, c), v)
                    then CallTotal(before.size + v.size, before.calls + 1) else before)
  {
  }

  lemma {:induction false} CountPositive(visits: seq<Visit>, p: Selection)
    ensures CountIf(visits, p) > 0 <==> exists i :: 0 <= i < |visits| && Picks(p, visits[i])
    decreases |visits|
  {
    if visits != [] {
      var init := visits[..|visits| - 1];
      CountPositive(init, p);
      if CountIf(init, p) > 0 {
        var i :| 0 <= i < |init| && Picks(p, init[i]);
        assert visits[i] == init[i];
      }
    }
  }

  // ------------------------------------------------------------ in terms of the traces

  /** Where a function first occurs in a trace. */
  function FirstAt(funs: seq<string>, f: string): (i: nat)
    requires f in funs
    ensures i < |funs| && funs[i] == f && f !in funs[..i]
  {
    if funs[0] == f then 0
    else
      assert f in funs[1..];
      var i := FirstAt(funs[1..], f);
      assert funs[..1 + i] == [funs[0]] + funs[1..][..i];
      1 + i
  }

  /** A trace counts for a function if it contains it, however often; what comes before the first
      occurrence decides whether the function is called, and from where. */
  predicate TraceCounts(p: Selection, t: Trace) {
    p.fun in t.funs &&
    var i := FirstAt(t.funs, p.fun);
    match p
    case Within(_) => true
    case Rooted(_) => i == 0 || t.funs[i - 1] == ""
    case Called(_, c) => i > 0 && t.funs[i - 1] == c && c != ""
  }

  function TraceSum(traces: seq<Trace>, p: Selection): nat {
    if traces == [] then 0
    else
      TraceSum(traces[..|traces| - 1], p) +
      if TraceCounts(p, traces[|traces| - 1]) then traces[|traces| - 1].size else 0
  }

  function TraceCount(traces: seq<Trace>, p: Selection): nat {
    if traces == [] then 0
    else TraceCount(traces[..|traces| - 1], p) + if TraceCounts(p, traces[|traces| - 1]) then 1 else 0
  }

  lemma {:induction false} SumConcat(a: seq<Visit>, b: seq<Visit>, p: Selection)
    ensures SumIf(a + b, p) == SumIf(a, p) + SumIf(b, p)
    ensures CountIf(a + b, p) == CountIf(a, p) + CountIf(b, p)
    decreases |b|
  {
    if b == [] {
      assert a + b == a;
    } else {
      var n := |b| - 1;
      assert (a + b)[..|a + b| - 1] == a + b[..n];
      SumConcat(a, b[..n], p);
    }
  }

  /** The trace counts, and does so within its first n frames. */
  predicate CountedWithin(p: Selection, t: Trace, n: nat) {
    TraceCounts(p, t) && FirstAt(t.funs, p.fun) < n
  }

  /** A trace visits each of its functions once. */
  lemma {:induction false} TraceSelected(t: Trace, n: nat, p: Selection)
    requires n <= |t.funs|
    ensures SumIf(TraceVisits(t, n), p) == if CountedWithin(p, t, n) then t.size else 0
    ensures CountIf(TraceVisits(t, n), p) == if CountedWithin(p, t, n) then 1 else 0
    decreases n
  {
    hide SumIf, CountIf;
    if n > 0 {
      TraceSelected(t, n - 1, p);
      var f := t.funs[n - 1];
      var last := if f in t.funs[..n - 1] then [] else [Visit(f, Pred(t.funs, n - 1), t.size)];
      assert TraceVisits(t, n) == TraceVisits(t, n - 1) + last;
      SumConcat(TraceVisits(t, n - 1), last, p);
      OneVisit(last, p);
      CountedStep(t, n, p);
    } else {
      OneVisit([], p);
    }
  }

  lemma CountedStep(t: Trace, n: nat, p: Selection)
    requires 0 < n <= |t.funs|
    ensures var f := t.funs[n - 1];
            CountedWithin(p, t, n) <==>
            CountedWithin(p, t, n - 1) || (f !in t.funs[..n - 1] && Picks(p, Visit(f, Pred(t.funs, n - 1), t.size)))
  {
    FirstAtMost(t.funs, n - 1);
    assert p.fun in t.funs ==> t.funs[FirstAt(t.funs, p.fun)] == p.fun;
  }

  /** The first occurrence of what stands at i is at i or before, and before exactly if it occurs before. */
  lemma FirstAtMost(funs: seq<string>, i: nat)
    requires i < |funs|
    ensures FirstAt(funs, funs[i]) <= i
    ensures funs[i] in funs[..i] <==> FirstAt(funs, funs[i]) < i
  {
    var k := FirstAt(funs, funs[i]);
    if k < i {
      assert funs[..i][k] == funs[i];
    }
  }

  lemma OneVisit(visits: seq<Visit>, p: Selection)
    requires |visits| <= 1
    ensures SumIf(visits, p) == if |visits| == 1 && Picks(p, visits[0]) then visits[0].size else 0
    ensures CountIf(visits, p) == if |visits| == 1 && Picks(p, visits[0]) then 1 else 0
  {
    if |visits| == 1 {
      assert visits[..0] == [];
    }
  }

  lemma {:induction false} VisitsSelected(traces: seq<Trace>, p: Selection)
    ensures SumIf(Visits(traces), p) == TraceSum(traces, p)
    ensures CountIf(Visits(traces), p) == TraceCount(traces, p)
    decreases |traces|
  {
    if traces != [] {
      var init, t := traces[..|traces| - 1], traces[|traces| - 1];
      VisitsSelected(init, p);
      TraceSelected(t, |t.funs|, p);
      SumConcat(Visits(init), TraceVisits(t, |t.funs|), p);
    }
  }

  /** Recursion or not, for every list of traces: a frame's size and count are taken over the traces that
      contain it; an edge's over the traces where the caller stands right before its first occurrence; and
      the size of a frame is what enters it from nowhere plus what comes in over its caller edges. */
  lemma {:induction false} FramesAddUp(traces: seq<Trace>, f: string)
    ensures var frames := Aggregate(Visits(traces));
            && (f in frames <==> exists i :: 0 <= i < |traces| && f in traces[i].funs)
            && (f in frames ==>
                  && frames[f].size == TraceSum(traces, Within(f))
                  && frames[f].count == TraceCount(traces, Within(f))
                  && frames[f].size == TraceSum(traces, Rooted(f)) + CallerSum(frames[f].callers))
            && (forall c :: HasEdge(frames, f, c) <==> TraceCount(traces, Called(f, c)) > 0)
            && (forall c :: HasEdge(frames, f, c) ==>
                  frames[f].callers[c] == CallTotal(TraceSum(traces, Called(f, c)), TraceCount(traces, Called(f, c))))
  {
    hide Aggregate, SumIf, CountIf, CallerSum, TraceSum, TraceCount, TraceCounts, Visits;
    var visits := Visits(traces);
    var frames := Aggregate(visits);
    AggregateFrame(visits, f);
    VisitsSelected(traces, Within(f));
    VisitsSelected(traces, Rooted(f));
    forall c
      ensures HasEdge(frames, f, c) <==> TraceCount(traces, Called(f, c)) > 0
      ensures HasEdge(frames, f, c) ==>
                frames[f].callers[c] == CallTotal(TraceSum(traces, Called(f, c)), TraceCount(traces, Called(f, c)))
    {
      AggregateEdge(visits, f, c);
      VisitsSelected(traces, Called(f, c));
    }
    CountPositive(visits, Within(f));
    TracePositive(traces, f);
  }

  lemma {:induction false} TracePositive(traces: seq<Trace>, f: string)
    ensures TraceCount(traces, Within(f)) > 0 <==> exists i :: 0 <= i < |traces| && f in traces[i].funs
    decreases |traces|
  {
    if traces != [] {
      var init := traces[..|traces| - 1];
      TracePositive(init, f);
      if TraceCount(init, Within(f)) > 0 {
        var i :| 0 <= i < |init| && f in init[i].funs;
        assert traces[i] == init[i];
      }
    }
  }

  /** Every caller of a frame is itself a frame. */
  lemma {:induction false} CallersAreFrames(traces: seq<Trace>, f: string, c: string)
    requires var frames := Aggregate(Visits(traces)); f in frames && c in frames[f].callers
    ensures c in Aggregate(Visits(traces)) && c != ""
  {
    hide Aggregate, SumIf, CountIf, TraceSum, TraceCounts, Visits;
    AggregateEdge(Visits(traces), f, c);
    VisitsSelected(traces, Called(f, c));
    var i := CountedTrace(traces, Called(f, c));
    CallerInTrace(traces[i], f, c);
    FramesAddUp(traces, c);
  }

  lemma {:induction false} CountedTrace(traces: seq<Trace>, p: Selection) returns (i: nat)
    requires TraceCount(traces, p) > 0
    ensures i < |traces| && TraceCounts(p, traces[i])
    decreases |traces|
  {
    if TraceCounts(p, traces[|traces| - 1]) {
      i := |traces| - 1;
    } else {
      i := CountedTrace(traces[..|traces| - 1], p);
    }
  }

  lemma CallerInTrace(t: Trace, f: string, c: string)
    requires TraceCounts(Called(f, c), t)
    ensures c in t.funs && c != ""
  {
  }

  // ------------------------------------------------------------ the graph

  datatype Node = Node(id: nat, name: string, size: nat, count: nat, color: int)

  datatype Edge = Edge(callerId: nat, calleeId: nat, size: nat, calls: nat, color: int)

  datatype Graph = Graph(nodes: set<Node>, edges: set<Edge>)

  function Percent(size: nat, total: nat): real
    requires total > 0
  {
    size as real * 100.0 / total as real
  }

  /** The colour index of a share: 1 for everything, growing as the share shrinks. */
  function Color(size: nat, total: nat): int
    requires total > 0
  {
    ((100.0 - Percent(size, total)) / 10.0).Floor + 1
  }

  /** The colour of a share, told without fractions: tenths of what is missing to the whole. */
  predicate Shade(color: int, size: nat, total: nat) {
    10 * (color - 1) * total <= 100 * (total - size) < 10 * color * total
  }

  lemma ColorShade(size: nat, total: nat)
    requires total > 0
    ensures Shade(Color(size, total), size, total)
  {
    hide Percent, Color;
    var p, c := Percent(size, total), Color(size, total);
    ColorBounds(size, total);
    PercentTimes(size, total);
    RestTimes(p, total as real, size as real);
    var low, high, rest := 10 * (c - 1), 10 * c, 100.0 - p;
    Scaled(low as real, rest, total as real);
    Below(rest, high as real, total as real);
    ShadeInReals(low, high, size, total);
  }

  lemma ColorBounds(size: nat, total: nat)
    requires total > 0
    ensures var c := Color(size, total); (10 * (c - 1)) as real <= 100.0 - Percent(size, total) < (10 * c) as real
  {
    hide Percent;
  }

  lemma PercentTimes(size: nat, total: nat)
    requires total > 0
    ensures Percent(size, total) * total as real == size as real * 100.0
  {
    Quotient(size as real * 100.0, total as real);
  }

  lemma RestTimes(p: real, t: real, s: real)
    requires p * t == s * 100.0
    ensures (100.0 - p) * t == 100.0 * (t - s)
  {
  }

  lemma ShadeInReals(low: int, high: int, size: nat, total: nat)
    requires low as real * total as real <= 100.0 * (total as real - size as real) < high as real * total as real
    ensures low * total <= 100 * (total - size) < high * total
  {
    InReals(low, total);
    InReals(high, total);
    assert (100 * (total - size)) as real == 100.0 * (total as real - size as real);
  }

  lemma Scaled(a: real, b: real, t: real)
    requires t > 0.0 && a <= b
    ensures a * t <= b * t
  {
  }

  lemma InReals(a: int, b: int)
    ensures (a * b) as real == a as real * b as real
  {
  }

  /** Frames below a thousandth of the total are filtered. */
  predicate Filtered(frames: Table, total: nat, f: string)
    requires total > 0 && f in frames
  {
    frames[f].size as real / total as real < 0.001
  }

  function NodeOf(frames: Table, total: nat, f: string): Node
    requires total > 0 && f in frames
  {
    Node(frames[f].funId, f, frames[f].size, frames[f].count, Color(frames[f].size, total))
  }

  /** The edge into f from c is drawn: neither end is filtered and the edge is not insignificant. */
  predicate Drawn(frames: Table, total: nat, f: string, c: string)
    requires total > 0
  {
    f in frames && c in frames && c in frames[f].callers &&
    !Filtered(frames, total, f) && !Filtered(frames, total, c) &&
    !(Percent(frames[f].callers[c].size, total) < 0.01)
  }

  function EdgeOf(frames: Table, total: nat, f: string, c: string): Edge
    requires total > 0 && f in frames && c in frames && c in frames[f].callers
  {
    var call := frames[f].callers[c];
    Edge(frames[c].funId, frames[f].funId, call.size, call.calls, Color(call.size, total))
  }

  ghost predicate Depicts(g: Graph, frames: Table, total: nat)
    requires total > 0
  {
    && g.nodes == (set f | f in frames && !Filtered(frames, total, f) :: NodeOf(frames, total, f))
    && g.edges == (set f, c | f in frames && c in frames[f].callers
                   && Drawn(frames, total, f, c) :: EdgeOf(frames, total, f, c))
  }

  lemma SomeFrame(traces: seq<Trace>)
    ensures |Aggregate(Visits(traces))| > 0 <==> exists i :: 0 <= i < |traces| && traces[i].funs != []
  {
    hide Aggregate, Visits, TraceSum, TraceCount;
    var frames := Aggregate(Visits(traces));
    if i :| 0 <= i < |traces| && traces[i].funs != [] {
      FramesAddUp(traces, traces[i].funs[0]);
    }
    if |frames| > 0 {
      assert frames.Keys != {};
      var f :| f in frames.Keys;
      FramesAddUp(traces, f);
    }
  }

  /** What is drawn, said of the traces: a node for each function in at least a thousandth of all bytes, with
      its bytes and traces; an edge wherever both ends are nodes and the calls are at least a ten-thousandth of
      all bytes, and with their weight; ids tell nodes apart; and colours run from 1 to 10 as shares shrink. */
  lemma {:induction false} GraphMeaning(traces: seq<Trace>, g: Graph)
    requires Total(traces) > 0 && Depicts(g, Aggregate(Visits(traces)), Total(traces))
    ensures forall n :: n in g.nodes ==>
              1 <= n.color <= 10 && n.size == TraceSum(traces, Within(n.name))
                && n.count == TraceCount(traces, Within(n.name)) && Shade(n.color, n.size, Total(traces))
    ensures forall n, m :: n in g.nodes && m in g.nodes && n.id == m.id ==> n == m
    ensures forall f :: HasNode(g, f) <==> 1000 * TraceSum(traces, Within(f)) >= Total(traces)
    ensures forall e :: e in g.edges ==> 1 <= e.color <= 10 && Shade(e.color, e.size, Total(traces))
    ensures forall e :: e in g.edges ==> HasEnds(traces, g, e)
    ensures forall n, m :: n in g.nodes && m in g.nodes ==>
              (Linked(traces, g, n, m) <==> 10000 * TraceSum(traces, Called(m.name, n.name)) >= Total(traces))
  {
    hide Depicts, TraceSum, TraceCount, HasNode, HasEnds, Linked, Shade;
    NodesMeaning(traces, g);
    forall f
      ensures HasNode(g, f) <==> 1000 * TraceSum(traces, Within(f)) >= Total(traces)
    {
      NodeDrawn(traces, g, f);
    }
    forall e | e in g.edges
      ensures 1 <= e.color <= 10 && Shade(e.color, e.size, Total(traces)) && HasEnds(traces, g, e)
    {
      EdgeMeaning(traces, g, e);
    }
    forall n, m | n in g.nodes && m in g.nodes
      ensures Linked(traces, g, n, m) <==> 10000 * TraceSum(traces, Called(m.name, n.name)) >= Total(traces)
    {
      EdgeDrawn(traces, g, n, m);
    }
  }

  lemma {:induction false} NodesMeaning(traces: seq<Trace>, g: Graph)
    requires Total(traces) > 0 && Depicts(g, Aggregate(Visits(traces)), Total(traces))
    ensures forall n :: n in g.nodes ==>
              1 <= n.color <= 10 && n.size == TraceSum(traces, Within(n.name))
                && n.count == TraceCount(traces, Within(n.name)) && Shade(n.color, n.size, Total(traces))
    ensures forall n, m :: n in g.nodes && m in g.nodes && n.id == m.id ==> n == m
  {
    hide Aggregate, Visits, TraceSum, TraceCount, Color, CallerSum, HasId, Shade;
    var frames := Aggregate(Visits(traces));
    AggregateNumbered(Visits(traces));
    forall f | f in frames
      ensures NodeRight(traces, frames, f)
    {
      FramesAddUp(traces, f);
      FrameShare(traces, frames, f);
      ColorShade(frames[f].size, Total(traces));
    }
  }

  lemma {:induction false} EdgeMeaning(traces: seq<Trace>, g: Graph, e: Edge)
    requires Total(traces) > 0 && Depicts(g, Aggregate(Visits(traces)), Total(traces)) && e in g.edges
    ensures 1 <= e.color <= 10 && Shade(e.color, e.size, Total(traces))
    ensures HasEnds(traces, g, e)
  {
    hide Aggregate, Visits, TraceSum, TraceCount, Color, CallerSum, Percent, Shade;
    var frames, total := Aggregate(Visits(traces)), Total(traces);
    var f, c :| f in frames && c in frames[f].callers && Drawn(frames, total, f, c) && e == EdgeOf(frames, total, f, c);
    FramesAddUp(traces, f);
    assert HasEdge(frames, f, c);
    SumBelowTotal(traces, Called(f, c));
    EdgeColor(frames[f].callers[c].size, total);
    ColorShade(frames[f].callers[c].size, total);
    var n, m := NodeOf(frames, total, c), NodeOf(frames, total, f);
    assert n in g.nodes && m in g.nodes && Joins(traces, e, n, m);
  }

  /** A node is drawn iff the function weighs enough. */
  lemma {:induction false} NodeDrawn(traces: seq<Trace>, g: Graph, f: string)
    requires Total(traces) > 0 && Depicts(g, Aggregate(Visits(traces)), Total(traces))
    ensures HasNode(g, f) <==> 1000 * TraceSum(traces, Within(f)) >= Total(traces)
  {
    hide Aggregate, Visits, TraceSum, TraceCount, Color, CallerSum;
    var frames, total := Aggregate(Visits(traces)), Total(traces);
    FramesAddUp(traces, f);
    if f in frames {
      FrameShare(traces, frames, f);
      if !Filtered(frames, total, f) {
        assert NodeOf(frames, total, f) in g.nodes;
      }
    } else {
      NoShare(traces, f);
    }
  }

  /** Between two nodes an edge is drawn iff the calls weigh enough. */
  lemma {:induction false} EdgeDrawn(traces: seq<Trace>, g: Graph, n: Node, m: Node)
    requires Total(traces) > 0 && Depicts(g, Aggregate(Visits(traces)), Total(traces))
    requires n in g.nodes && m in g.nodes
    ensures Linked(traces, g, n, m) <==> 10000 * TraceSum(traces, Called(m.name, n.name)) >= Total(traces)
  {
    hide Aggregate, Visits, TraceSum, TraceCount, Color, CallerSum, Percent;
    var frames, total := Aggregate(Visits(traces)), Total(traces);
    var c, f := n.name, m.name;
    assert c in frames && f in frames && !Filtered(frames, total, c) && !Filtered(frames, total, f);
    assert n == NodeOf(frames, total, c) && m == NodeOf(frames, total, f);
    var size := TraceSum(traces, Called(f, c));
    FramesAddUp(traces, f);
    SumCounted(traces, Called(f, c));
    TenThousandth(size, total);
    if 10000 * size >= total {
      assert HasEdge(frames, f, c) && frames[f].callers[c].size == size;
      assert Drawn(frames, total, f, c);
      assert EdgeOf(frames, total, f, c) in g.edges;
      assert Joins(traces, EdgeOf(frames, total, f, c), n, m);
    }
    if e :| e in g.edges && Joins(traces, e, n, m) {
      var f', c' :| f' in frames && c' in frames[f'].callers && Drawn(frames, total, f', c')
        && e == EdgeOf(frames, total, f', c');
      AggregateNumbered(Visits(traces));
      assert f' == f && c' == c;
      assert HasEdge(frames, f, c) && frames[f].callers[c].size == size;
    }
  }

  lemma {:induction false} SumCounted(traces: seq<Trace>, p: Selection)
    ensures TraceSum(traces, p) > 0 ==> TraceCount(traces, p) > 0
    decreases |traces|
  {
    if traces != [] {
      SumCounted(traces[..|traces| - 1], p);
    }
  }

  lemma TenThousandth(size: nat, total: nat)
    requires total > 0
    ensures Percent(size, total) < 0.01 <==> 10000 * size < total
  {
    var p, t := Percent(size, total), total as real;
    Quotient(size as real * 100.0, t);
    Below(p, 0.01, t);
  }

  ghost predicate HasNode(g: Graph, f: string) {
    exists n :: n in g.nodes && n.name == f
  }

  /** Both ends of the edge are nodes. */
  ghost predicate HasEnds(traces: seq<Trace>, g: Graph, e: Edge) {
    exists n, m :: n in g.nodes && m in g.nodes && Joins(traces, e, n, m)
  }

  /** There is an edge from caller n to callee m. */
  ghost predicate Linked(traces: seq<Trace>, g: Graph, n: Node, m: Node) {
    exists e :: e in g.edges && Joins(traces, e, n, m)
  }

  /** An edge from the node of a caller to that of its callee, weighing what the traces say. */
  ghost predicate Joins(traces: seq<Trace>, e: Edge, caller: Node, callee: Node) {
    && caller.id == e.callerId && callee.id == e.calleeId
    && e.size == TraceSum(traces, Called(callee.name, caller.name))
    && e.calls == TraceCount(traces, Called(callee.name, caller.name))
  }

  ghost predicate NodeRight(traces: seq<Trace>, frames: Table, f: string)
    requires f in frames && Total(traces) > 0
  {
    && frames[f].size == TraceSum(traces, Within(f)) && frames[f].count == TraceCount(traces, Within(f))
    && (Filtered(frames, Total(traces), f) <==> 1000 * frames[f].size < Total(traces))
    && (!Filtered(frames, Total(traces), f) ==> 1 <= Color(frames[f].size, Total(traces)) <= 10)
    && Shade(Color(frames[f].size, Total(traces)), frames[f].size, Total(traces))
  }

  lemma FrameShare(traces: seq<Trace>, frames: Table, f: string)
    requires Total(traces) > 0 && f in frames && frames[f].size == TraceSum(traces, Within(f))
    ensures Filtered(frames, Total(traces), f) <==> 1000 * frames[f].size < Total(traces)
    ensures !Filtered(frames, Total(traces), f) ==> 1 <= Color(frames[f].size, Total(traces)) <= 10
  {
    SumBelowTotal(traces, Within(f));
    Thousandth(frames[f].size, Total(traces));
    if !Filtered(frames, Total(traces), f) {
      NodeColor(frames[f].size, Total(traces));
    }
  }

  lemma {:induction false} NoShare(traces: seq<Trace>, f: string)
    requires forall i :: 0 <= i < |traces| ==> f !in traces[i].funs
    ensures TraceSum(traces, Within(f)) == 0
    decreases |traces|
  {
    if traces != [] {
      NoShare(traces[..|traces| - 1], f);
    }
  }

  lemma {:induction false} SumBelowTotal(traces: seq<Trace>, p: Selection)
    ensures TraceSum(traces, p) <= Total(traces)
    decreases |traces|
  {
    if traces != [] {
      SumBelowTotal(traces[..|traces| - 1], p);
    }
  }

  lemma Quotient(x: real, y: real)
    requires y > 0.0
    ensures x / y * y == x
  {
  }

  lemma Thousandth(size: nat, total: nat)
    requires total > 0
    ensures size as real / total as real < 0.001 <==> 1000 * size < total
  {
    var q, t := size as real / total as real, total as real;
    Quotient(size as real, t);
    Below(q, 0.001, t);
  }

  lemma Below(a: real, b: real, t: real)
    requires t > 0.0
    ensures a < b <==> a * t < b * t
  {
  }

  /** A share is a percentage. */
  lemma ShareRange(size: nat, total: nat)
    requires size <= total && total > 0
    ensures 0.0 <= Percent(size, total) <= 100.0
  {
    var p, t := Percent(size, total), total as real;
    Quotient(size as real * 100.0, t);
    Below(100.0, p, t);
    Below(p, 0.0, t);
  }

  lemma NodeColor(size: nat, total: nat)
    requires size <= total && total > 0 && 1000 * size >= total
    ensures 1 <= Color(size, total) <= 10
  {
    ShareRange(size, total);
    var p, t := Percent(size, total), total as real;
    Quotient(size as real * 100.0, t);
    Below(p, 0.1, t);
  }

  lemma EdgeColor(size: nat, total: nat)
    requires size <= total && total > 0 && !(Percent(size, total) < 0.01)
    ensures 1 <= Color(size, total) <= 10
  {
    ShareRange(size, total);
  }
}
