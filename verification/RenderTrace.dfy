/** The frame recorder of src/common/RenderTrace.cpp: state that outlives a frame is kept twice, in a sticky
    copy and in the current frame, and each frame counts its draws by signature
    (689-763, 1189-1311, 1490-1560, 1702-1714, 2123-2219). */
module RenderTrace {
  import opened RenderState
  import opened FirstSeen

  const BUCKETS := 32

  /** A call into the recorder, in the order of the source's entry points. */
  datatype Call =
    | Init(logOpens: bool)
    | Swap
    | Set(record: Record)
    | DrawCall(draw: Draw, result: int)

  /** What a frame counts of its draws, and what it keeps of the last one. */
  datatype Counters = Counters(drawCalls: nat, indexedDrawCalls: nat, userPointerDrawCalls: nat, failedDrawCalls: nat,
                               lastPrimitiveType: nat, lastPrimitiveCount: nat, lastDrawResult: int)

  const NoCounters := Counters(0, 0, 0, 0, 0, 0, 0)

  /** What a frame keeps of the vertex input layouts in force during it. */
  datatype Inputs = Inputs(maxOverrideCount: nat, present: bool, last: Input, min: Input, max: Input)

  const NoInputs := Inputs(0, false, NoInput, NoInput, NoInput)

  /** The current frame: its copy of the recorded state, its counters, its input layouts and its draw buckets. */
  datatype Frame = Frame(tracked: Tracked, counters: Counters, inputs: Inputs, buckets: Table<Signature>)

  datatype State = State(initialized: bool, logFile: bool, haveFrame: bool, sticky: Tracked, stickyInput: Input,
                         current: Frame)

  const EmptyFrame := Frame(Nothing, NoCounters, NoInputs, Table([], 0, 0))

  const Fresh := State(false, false, false, Nothing, NoInput, EmptyFrame)

  ghost predicate Proper(s: State) {
    WellFormed(s.sticky) && WellFormed(s.current.tracked)
  }

  predicate HasFrame(s: State) {
    s.logFile && s.haveFrame
  }

  /** FAILED: a negative HRESULT. */
  predicate IsFailure(result: int) {
    result < 0
  }

  function Counted(c: Counters, draw: Draw, result: int): Counters {
    Counters(c.drawCalls + 1,
             c.indexedDrawCalls + if draw.indexed then 1 else 0,
             c.userPointerDrawCalls + if draw.userPointer then 1 else 0,
             c.failedDrawCalls + if IsFailure(result) then 1 else 0,
             draw.primitiveType, draw.primitiveCount, result)
  }

  function Min(a: nat, b: nat): nat {
    if b < a then b else a
  }

  function Max(a: nat, b: nat): nat {
    if a < b then b else a
  }

  function WithInput(s: Inputs, count: nat, input: Input): Inputs {
    var m := s.(maxOverrideCount := Max(s.maxOverrideCount, count));
    if count == 0 then m
    else if !s.present then m.(present := true, last := input, min := input, max := input)
    else m.(last := input,
            min := Input(Min(s.min.stride, input.stride), Min(s.min.offset, input.offset)),
            max := Input(Max(s.max.stride, input.stride), Max(s.max.offset, input.offset)))
  }

  function WithDraw(f: Frame, draw: Draw, result: int): Frame
    requires WellFormed(f.tracked)
  {
    var e := Event(Signature(draw, Capture(f.tracked)), 0);
    f.(counters := Counted(f.counters, draw, result), buckets := FirstSeen.Record(f.buckets, e, BUCKETS, Comparable))
  }

  /** What a frame starts with: the sticky state, and the input layout of the shader still in force. */
  function NewFrame(s: State): Frame {
    EmptyFrame.(tracked := s.sticky,
                inputs := WithInput(NoInputs, s.sticky.vertexDetails.inputOverrideCount, s.stickyInput))
  }

  function Recorded(s: State, r: Record): (after: State)
    requires Proper(s) && Accepted(r)
    ensures Proper(after)
  {
    var t := s.(sticky := Apply(s.sticky, r), stickyInput := if Overrides(r) then r.input else s.stickyInput);
    if !HasFrame(s) then t
    else
      var inputs := if r.VertexDetailsSet? then WithInput(s.current.inputs, r.inputOverrideCount, r.input)
                    else s.current.inputs;
      t.(current := s.current.(tracked := Mirror(s.current.tracked, t.sticky, r), inputs := inputs))
  }

  /** One call while tracing is enabled. */
  function Act(s: State, c: Call): (after: State)
    requires Proper(s)
    ensures Proper(after)
  {
    match c
    case Init(logOpens) => if s.initialized then s else State(true, logOpens, false, Nothing, NoInput, EmptyFrame)
    case Swap => if s.logFile then s.(current := NewFrame(s), haveFrame := true) else s
    case Set(r) => if !s.initialized || !Accepted(r) then s else Recorded(s, r)
    case DrawCall(draw, result) =>
      if HasFrame(s) then s.(current := WithDraw(s.current, draw, result)) else s
  }

  function Run(calls: seq<Call>): (s: State)
    ensures Proper(s)
  {
    if calls == [] then Fresh else Act(Run(calls[..|calls| - 1]), calls[|calls| - 1])
  }

  // ---------------------------------------------------------------- what the history of calls says

  /** Some call initialized the recorder. */
  ghost predicate Initialized(calls: seq<Call>) {
    exists i :: 0 <= i < |calls| && calls[i].Init?
  }

  /** Call i is the first Init, and it opened the log. */
  ghost predicate OpensLog(calls: seq<Call>, i: int) {
    0 <= i < |calls| && calls[i] == Init(true) && forall m :: 0 <= m < i ==> !calls[m].Init?
  }

  /** The first Init opened its log, and a swap came after it. */
  ghost predicate FrameBegun(calls: seq<Call>) {
    exists i, k :: OpensLog(calls, i) && i < k < |calls| && calls[k].Swap?
  }

  /** The recording calls that count: those after the first Init, for one of the four stages. */
  ghost function Log(calls: seq<Call>): (log: seq<Record>)
    ensures AllAccepted(log)
  {
    if calls == [] then []
    else
      var init, c := calls[..|calls| - 1], calls[|calls| - 1];
      if c.Set? && Initialized(init) && ((c.record.StageStateSet? || c.record.BindingSet?) ==> c.record.stage < 4)
      then Log(init) + [c.record]
      else Log(init)
  }

  /** A draw with the state its log calls for and with what the host returned. */
  datatype Drawn = Drawn(signature: Signature, result: int)

  /** The draws of the current frame. */
  ghost function FrameDraws(calls: seq<Call>): seq<Drawn> {
    if calls == [] then []
    else
      var init, c := calls[..|calls| - 1], calls[|calls| - 1];
      if c.Swap? then []
      else if c.DrawCall? && FrameBegun(init) then
        FrameDraws(init) + [Drawn(Signature(c.draw, LastCaptured(Log(init))), c.result)]
      else FrameDraws(init)
  }

  /** How many inputs a shader overrides, and the layout it gives them. */
  datatype Override = Override(count: nat, input: Input)

  /** The overrides in force during the current frame: the one it starts with, and each one recorded since. */
  ghost function FrameOverrides(calls: seq<Call>): seq<Override> {
    if calls == [] then []
    else
      var init, c := calls[..|calls| - 1], calls[|calls| - 1];
      if c.Swap? then [Override(LastDetails(Log(init)).inputOverrideCount, LastInput(Log(init)))]
      else if c.Set? && c.record.VertexDetailsSet? then
        FrameOverrides(init) + [Override(c.record.inputOverrideCount, c.record.input)]
      else FrameOverrides(init)
  }

  // ---------------------------------------------------------------- what a frame should count

  function Events(draws: seq<Drawn>): (events: seq<Event<Signature>>)
    ensures |events| == |draws|
  {
    seq(|draws|, i requires 0 <= i < |draws| => Event(draws[i].signature, 0))
  }

  predicate Indexed(d: Drawn) {
    d.signature.draw.indexed
  }

  predicate UserPointer(d: Drawn) {
    d.signature.draw.userPointer
  }

  predicate Failed(d: Drawn) {
    d.result < 0
  }

  function Tally(draws: seq<Drawn>, p: Drawn -> bool): nat {
    if draws == [] then 0 else Tally(draws[..|draws| - 1], p) + if p(draws[|draws| - 1]) then 1 else 0
  }

  function CountersOf(draws: seq<Drawn>): Counters {
    if draws == [] then NoCounters
    else
      var last := draws[|draws| - 1];
      Counters(|draws|, Tally(draws, Indexed), Tally(draws, UserPointer), Tally(draws, Failed),
               last.signature.draw.primitiveType, last.signature.draw.primitiveCount, last.result)
  }

  function InputsOf(overrides: seq<Override>): Inputs {
    if overrides == [] then NoInputs
    else
      var last := overrides[|overrides| - 1];
      WithInput(InputsOf(overrides[..|overrides| - 1]), last.count, last.input)
  }

  function Stride(o: Override): nat {
    o.input.stride
  }

  function Offset(o: Override): nat {
    o.input.offset
  }

  /** `low` and `high` are the least and the greatest value of `of` among the overrides with a layout. */
  ghost predicate Spans(overrides: seq<Override>, of: Override -> nat, low: nat, high: nat) {
    && (forall k :: 0 <= k < |overrides| && overrides[k].count > 0 ==> low <= of(overrides[k]) <= high)
    && (exists k :: 0 <= k < |overrides| && overrides[k].count > 0 && of(overrides[k]) == low)
    && (exists k :: 0 <= k < |overrides| && overrides[k].count > 0 && of(overrides[k]) == high)
  }

  /** The greatest count, or 0 when there is none. */
  ghost predicate IsMaxCount(overrides: seq<Override>, count: nat) {
    && (forall k :: 0 <= k < |overrides| ==> overrides[k].count <= count)
    && (count > 0 ==> exists k :: 0 <= k < |overrides| && overrides[k].count == count)
  }

  /** The last override with a layout gives this one. */
  ghost predicate IsLast(overrides: seq<Override>, input: Input) {
    exists k :: 0 <= k < |overrides| && overrides[k].count > 0 && overrides[k].input == input
             && forall m :: k < m < |overrides| ==> overrides[m].count == 0
  }

  ghost predicate Summarizes(s: Inputs, overrides: seq<Override>) {
    && IsMaxCount(overrides, s.maxOverrideCount)
    && (s.present <==> s.maxOverrideCount > 0)
    && (s.present ==>
          && IsLast(overrides, s.last)
          && Spans(overrides, Stride, s.min.stride, s.max.stride)
          && Spans(overrides, Offset, s.min.offset, s.max.offset))
  }

  lemma {:induction false} InputsSummarize(overrides: seq<Override>)
    ensures Summarizes(InputsOf(overrides), overrides)
  {
    if overrides == [] {
    } else {
      var n := |overrides| - 1;
      InputsSummarize(overrides[..n]);
      var before, after := InputsOf(overrides[..n]), InputsOf(overrides);
      SummaryStep(before, overrides[..n], overrides[n]);
      assert overrides == overrides[..n] + [overrides[n]];
    }
  }

  lemma {:induction false} SummaryStep(s: Inputs, overrides: seq<Override>, o: Override)
    requires Summarizes(s, overrides)
    ensures Summarizes(WithInput(s, o.count, o.input), overrides + [o])
  {
    CountStep(overrides, o, s.maxOverrideCount);
    LastStep(overrides, o, s.present, s.last);
    SpansStep(overrides, o, Stride, s.present, s.min.stride, s.max.stride);
    SpansStep(overrides, o, Offset, s.present, s.min.offset, s.max.offset);
  }

  lemma {:induction false} CountStep(overrides: seq<Override>, o: Override, count: nat)
    requires IsMaxCount(overrides, count)
    ensures IsMaxCount(overrides + [o], Max(count, o.count))
  {
    var all := overrides + [o];
    assert all[|overrides|] == o;
    if count > 0 {
      var k :| 0 <= k < |overrides| && overrides[k].count == count;
      assert all[k] == overrides[k];
    }
  }

  lemma {:induction false} LastStep(overrides: seq<Override>, o: Override, present: bool, last: Input)
    requires present ==> IsLast(overrides, last)
    ensures o.count > 0 ==> IsLast(overrides + [o], o.input)
    ensures o.count == 0 && present ==> IsLast(overrides + [o], last)
  {
    var all := overrides + [o];
    if o.count > 0 {
      assert all[|overrides|] == o;
    } else if present {
      var k :| 0 <= k < |overrides| && overrides[k].count > 0 && overrides[k].input == last
               && forall m :: k < m < |overrides| ==> overrides[m].count == 0;
      assert all[k] == overrides[k];
    }
  }

  lemma {:induction false} SpansStep(overrides: seq<Override>, o: Override, of: Override -> nat, present: bool,
                                     low: nat, high: nat)
    requires if present then Spans(overrides, of, low, high) else forall p :: p in overrides ==> p.count == 0
    ensures o.count > 0 ==> Spans(overrides + [o], of, if present then Min(low, of(o)) else of(o),
                                                       if present then Max(high, of(o)) else of(o))
    ensures o.count == 0 && present ==> Spans(overrides + [o], of, low, high)
  {
    var all := overrides + [o];
    assert all[|overrides|] == o;
    if present {
      var a :| 0 <= a < |overrides| && overrides[a].count > 0 && of(overrides[a]) == low;
      var b :| 0 <= b < |overrides| && overrides[b].count > 0 && of(overrides[b]) == high;
      assert all[a] == overrides[a] && all[b] == overrides[b];
    }
  }

  // ---------------------------------------------------------------- agreement over whole runs

  ghost predicate Agrees(calls: seq<Call>, s: State) {
    && (s.initialized <==> Initialized(calls))
    && (s.logFile <==> exists i :: OpensLog(calls, i))
    && (s.haveFrame <==> FrameBegun(calls))
    && s.sticky == Fold(Log(calls)) && s.stickyInput == LastInput(Log(calls))
    && (HasFrame(s) ==> s.current.tracked == s.sticky && FrameAgrees(calls, s.current))
    && (!HasFrame(s) ==> FrameDraws(calls) == [])
  }

  ghost predicate FrameAgrees(calls: seq<Call>, f: Frame) {
    && f.counters == CountersOf(FrameDraws(calls))
    && f.inputs == InputsOf(FrameOverrides(calls))
    && f.buckets == After(Events(FrameDraws(calls)), BUCKETS, Comparable)
  }

  lemma {:induction false} RunAgrees(calls: seq<Call>)
    ensures Agrees(calls, Run(calls))
  {
    if calls == [] {
    } else {
      RunAgrees(calls[..|calls| - 1]);
      ActAgrees(calls[..|calls| - 1], calls[|calls| - 1]);
      assert calls == calls[..|calls| - 1] + [calls[|calls| - 1]];
    }
  }

  lemma {:induction false} ActAgrees(calls: seq<Call>, c: Call)
    requires Agrees(calls, Run(calls))
    ensures Agrees(calls + [c], Act(Run(calls), c))
  {
    match c
    case Init(logOpens) => InitAgrees(calls, logOpens);
    case Swap => SwapAgrees(calls);
    case Set(r) => SetAgrees(calls, r);
    case DrawCall(draw, result) => DrawAgrees(calls, draw, result);
  }

  /** What one more call adds to the history of initialization, log and frame. */
  lemma {:induction false} BeginsMore(calls: seq<Call>, c: Call)
    ensures var more := calls + [c];
      && (Initialized(more) <==> Initialized(calls) || c.Init?)
      && ((exists i :: OpensLog(more, i)) <==>
            (exists i :: OpensLog(calls, i)) || (c == Init(true) && !Initialized(calls)))
      && (FrameBegun(more) <==> FrameBegun(calls) || (c.Swap? && exists i :: OpensLog(calls, i)))
  {
    var more := calls + [c];
    assert forall i :: 0 <= i < |calls| ==> more[i] == calls[i];
    assert more[|calls|] == c;
    assert forall i :: 0 <= i < |calls| ==> (OpensLog(more, i) <==> OpensLog(calls, i));
    assert OpensLog(more, |calls|) <==> c == Init(true) && !Initialized(calls);
    if FrameBegun(calls) {
      var i, k :| OpensLog(calls, i) && i < k < |calls| && calls[k].Swap?;
      assert OpensLog(more, i) && more[k].Swap?;
    }
    if c.Swap? && exists i :: OpensLog(calls, i) {
      var i :| OpensLog(calls, i);
      assert OpensLog(more, i) && more[|calls|].Swap?;
    }
  }

  lemma {:induction false} InitAgrees(calls: seq<Call>, logOpens: bool)
    requires Agrees(calls, Run(calls))
    ensures Agrees(calls + [Init(logOpens)], Act(Run(calls), Init(logOpens)))
  {
    var more := calls + [Init(logOpens)];
    assert more[..|more| - 1] == calls;
    BeginsMore(calls, Init(logOpens));
    assert Log(more) == Log(calls) && FrameDraws(more) == FrameDraws(calls);
    assert FrameOverrides(more) == FrameOverrides(calls);
    if !Run(calls).initialized {
      NoLogBeforeInit(calls);
      assert forall i :: !OpensLog(calls, i);
    }
  }

  lemma {:induction false} SwapAgrees(calls: seq<Call>)
    requires Agrees(calls, Run(calls))
    ensures Agrees(calls + [Swap], Act(Run(calls), Swap))
  {
    var more := calls + [Swap];
    assert more[..|more| - 1] == calls;
    BeginsMore(calls, Swap);
    FoldShaders(Log(calls));
    assert Log(more) == Log(calls) && FrameDraws(more) == [];
    assert InputsOf(FrameOverrides(more)[..0]) == NoInputs;
  }

  lemma {:induction false} SetAgrees(calls: seq<Call>, r: Record)
    requires Agrees(calls, Run(calls))
    ensures Agrees(calls + [Set(r)], Act(Run(calls), Set(r)))
  {
    BeginsMore(calls, Set(r));
    if Initialized(calls) && Accepted(r) {
      RecordedAgrees(calls, r);
    } else {
      SetIgnored(calls, r);
    }
  }

  lemma {:induction false} SetIgnored(calls: seq<Call>, r: Record)
    requires Agrees(calls, Run(calls)) && !(Initialized(calls) && Accepted(r))
    ensures Agrees(calls + [Set(r)], Run(calls))
  {
    var more := calls + [Set(r)];
    assert more[..|more| - 1] == calls;
    BeginsMore(calls, Set(r));
    assert Log(more) == Log(calls) && FrameDraws(more) == FrameDraws(calls);
    if HasFrame(Run(calls)) {
      InitializedFrame(calls);
      assert FrameOverrides(more) == FrameOverrides(calls);
    }
  }

  lemma {:induction false} InitializedFrame(calls: seq<Call>)
    requires FrameBegun(calls)
    ensures Initialized(calls)
  {
    var i, k :| OpensLog(calls, i) && i < k < |calls| && calls[k].Swap?;
    assert calls[i].Init?;
  }

  lemma {:induction false} RecordedAgrees(calls: seq<Call>, r: Record)
    requires Agrees(calls, Run(calls)) && Initialized(calls) && Accepted(r)
    ensures Agrees(calls + [Set(r)], Recorded(Run(calls), r))
  {
    var more, s := calls + [Set(r)], Run(calls);
    BeginsMore(calls, Set(r));
    RecordLogged(calls, r);
    MirrorKeepsAgreement(s.sticky, r);
    var after := Recorded(s, r);
    assert after.sticky == Fold(Log(more)) && after.stickyInput == LastInput(Log(more));
    if HasFrame(s) {
      RecordedFrame(calls, r);
    }
  }

  /** What one more recording call adds to the history. */
  lemma {:induction false} RecordLogged(calls: seq<Call>, r: Record)
    requires Initialized(calls) && Accepted(r)
    ensures var more, log := calls + [Set(r)], Log(calls);
      && Log(more) == log + [r]
      && Fold(log + [r]) == Apply(Fold(log), r)
      && LastInput(log + [r]) == (if Overrides(r) then r.input else LastInput(log))
      && FrameDraws(more) == FrameDraws(calls)
      && FrameOverrides(more) == FrameOverrides(calls) +
           if r.VertexDetailsSet? then [Override(r.inputOverrideCount, r.input)] else []
  {
    var more, log := calls + [Set(r)], Log(calls);
    assert more[..|more| - 1] == calls;
    assert (log + [r])[..|log|] == log;
  }

  lemma {:induction false} RecordedFrame(calls: seq<Call>, r: Record)
    requires Agrees(calls, Run(calls)) && Initialized(calls) && Accepted(r) && HasFrame(Run(calls))
    ensures FrameAgrees(calls + [Set(r)], Recorded(Run(calls), r).current)
  {
    RecordLogged(calls, r);
    if r.VertexDetailsSet? {
      var overrides, o := FrameOverrides(calls), Override(r.inputOverrideCount, r.input);
      assert (overrides + [o])[..|overrides|] == overrides;
    } else {
      assert FrameOverrides(calls + [Set(r)]) == FrameOverrides(calls);
    }
  }

  lemma {:induction false} DrawAgrees(calls: seq<Call>, draw: Draw, result: int)
    requires Agrees(calls, Run(calls))
    ensures Agrees(calls + [DrawCall(draw, result)], Act(Run(calls), DrawCall(draw, result)))
  {
    BeginsMore(calls, DrawCall(draw, result));
    DrawLogged(calls, draw, result);
    if HasFrame(Run(calls)) {
      CaptureIsLast(Log(calls));
      DrawCounted(FrameDraws(calls), Drawn(Signature(draw, LastCaptured(Log(calls))), result));
    }
  }

  /** What one more draw adds to the history. */
  lemma {:induction false} DrawLogged(calls: seq<Call>, draw: Draw, result: int)
    ensures var more := calls + [DrawCall(draw, result)];
      && Log(more) == Log(calls)
      && FrameOverrides(more) == FrameOverrides(calls)
      && FrameDraws(more) == FrameDraws(calls) +
           if FrameBegun(calls) then [Drawn(Signature(draw, LastCaptured(Log(calls))), result)] else []
  {
    var more := calls + [DrawCall(draw, result)];
    assert more[..|more| - 1] == calls;
  }

  lemma {:induction false} DrawCounted(draws: seq<Drawn>, d: Drawn)
    ensures CountersOf(draws + [d]) == Counted(CountersOf(draws), d.signature.draw, d.result)
    ensures After(Events(draws + [d]), BUCKETS, Comparable) ==
      FirstSeen.Record(After(Events(draws), BUCKETS, Comparable), Event(d.signature, 0), BUCKETS, Comparable)
  {
    assert (draws + [d])[..|draws|] == draws;
    assert Events(draws + [d]) == Events(draws) + [Event(d.signature, 0)];
    assert (Events(draws) + [Event(d.signature, 0)])[..|draws|] == Events(draws);
  }

  lemma {:induction false} NoLogBeforeInit(calls: seq<Call>)
    requires !Initialized(calls)
    ensures Log(calls) == []
  {
    if calls == [] {
    } else {
      NoLogBeforeInit(calls[..|calls| - 1]);
    }
  }

  /** Frames begin when they should: there is a frame exactly when the first Init opened its log and a swap came
      after it. */
  lemma {:induction false} FrameExactly(calls: seq<Call>)
    ensures HasFrame(Run(calls)) <==> FrameBegun(calls)
  {
    RunAgrees(calls);
    if i, k :| OpensLog(calls, i) && i < k < |calls| && calls[k].Swap? {
      assert exists j :: OpensLog(calls, j);
    }
  }

  /** History agreement: at any draw in any run, across any number of swaps, the state that the draw captures
      is, field by field, the last value recorded for it in the whole history, or unknown. */
  lemma {:induction false} DrawCapturesHistory(calls: seq<Call>)
    requires FrameBegun(calls)
    ensures Capture(Run(calls).current.tracked) == LastCaptured(Log(calls))
  {
    FrameExactly(calls);
    RunAgrees(calls);
    CaptureIsLast(Log(calls));
  }

  /** Conservation: in every reachable frame the number of draws is the sum of the bucket counts plus the
      overflow count, and the counters count them; at most 32 buckets are in use, and while fewer are, nothing has
      overflowed. */
  lemma {:induction false} DrawsConserved(calls: seq<Call>)
    requires FrameBegun(calls)
    ensures var f := Run(calls).current;
      && f.counters == CountersOf(FrameDraws(calls))
      && |FrameDraws(calls)| == SumHits(f.buckets.entries) + f.buckets.droppedHits
      && |f.buckets.entries| <= 32
      && (|f.buckets.entries| < 32 ==> f.buckets.droppedHits == 0)
  {
    FrameExactly(calls);
    RunAgrees(calls);
    Conservation(Events(FrameDraws(calls)), BUCKETS, Comparable);
  }

  /** In every reachable frame, two buckets never match each other. */
  lemma {:induction false} BucketsDistinct(calls: seq<Call>, i: nat, j: nat)
    requires FrameBegun(calls)
    requires i < j < |Run(calls).current.buckets.entries|
    ensures var entries := Run(calls).current.buckets.entries; !DrawSignaturesMatch(entries[i].key, entries[j].key)
  {
    FrameExactly(calls);
    RunAgrees(calls);
    TableExact(Events(FrameDraws(calls)), BUCKETS, Comparable);
    var entries := Run(calls).current.buckets.entries;
    MatchIff(entries[i].key, entries[j].key);
  }

  /** In every reachable frame, every bucket whose signature has no NaN counts exactly the draws of this frame
      with that signature, and every other bucket counts the one draw that made it. */
  lemma {:induction false} BucketsExact(calls: seq<Call>, i: nat)
    requires FrameBegun(calls) && i < |Run(calls).current.buckets.entries|
    ensures var bucket := Run(calls).current.buckets.entries[i];
      bucket.hits == if FreeOfNaN(bucket.key) then Hits(Events(FrameDraws(calls)), bucket.key) else 1
  {
    FrameExactly(calls);
    RunAgrees(calls);
    TableExact(Events(FrameDraws(calls)), BUCKETS, Comparable);
  }

  /** In every reachable frame, the buckets hold the first 32 distinct signatures drawn in it, in the order in
      which they were first drawn. */
  lemma {:induction false} BucketsHoldFirst(calls: seq<Call>)
    requires FrameBegun(calls)
    ensures Keys(Run(calls).current.buckets.entries) == Take(Firsts(Events(FrameDraws(calls)), Comparable), 32)
  {
    FrameExactly(calls);
    RunAgrees(calls);
    HoldsFirst(Events(FrameDraws(calls)), BUCKETS, Comparable);
  }

  /** In every reachable frame, the extremes kept of the vertex input layouts are those of the layout in force
      when the frame began and of every one recorded since. */
  lemma {:induction false} FrameInputsExact(calls: seq<Call>)
    requires FrameBegun(calls)
    ensures Summarizes(Run(calls).current.inputs, FrameOverrides(calls))
  {
    FrameExactly(calls);
    RunAgrees(calls);
    InputsSummarize(FrameOverrides(calls));
  }
}
