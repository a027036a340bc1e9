/** The recorder object: each entry point updates its fields and bucket arrays in place exactly as the
    corresponding call of `RenderTrace` says, so after any calls its state is that of the whole run. */
module Recorder {
  import opened RenderState
  import opened FirstSeen
  import opened RenderTrace

  const ZeroBounds := Bounds(false, Number(0.0), Number(0.0), Number(0.0), Number(0.0))
  const ZeroSignature := Signature(
    Draw(false, false, 0, 0, false, 0, ZeroBounds, ZeroBounds, Colors(false, 0, 0, 0, 0, 0, 0, 0, 0)),
    Capture(Nothing))

  /** The draw buckets of a frame. */
  class DrawSignatureBuckets {
    const known: array<bool>
    const count: array<nat>
    const signatures: array<Signature>
    var overflowCount: nat
    ghost var table: Table<Signature>

    /** The known buckets are a prefix and hold the entries of the table. */
    ghost predicate Valid()
      reads this, known, count, signatures
    {
      && known.Length == count.Length == signatures.Length == BUCKETS
      && |table.entries| <= BUCKETS
      && overflowCount == table.droppedHits && table.droppedCycles == 0
      && (forall i :: 0 <= i < BUCKETS ==> (known[i] <==> i < |table.entries|))
      && (forall i :: 0 <= i < |table.entries| ==> table.entries[i] == Entry(signatures[i], count[i], 0))
    }

    constructor ()
      ensures Valid() && table == EmptyFrame.buckets
      ensures fresh(known) && fresh(count) && fresh(signatures)
    {
      known := new bool[BUCKETS](_ => false);
      count := new nat[BUCKETS](_ => 0);
      signatures := new Signature[BUCKETS](_ => ZeroSignature);
      overflowCount := 0;
      table := Table([], 0, 0);
    }

    method Clear()
      requires Valid()
      modifies this, known
      ensures Valid() && table == EmptyFrame.buckets
    {
      forall i | 0 <= i < BUCKETS {
        known[i] := false;
      }
      overflowCount := 0;
      table := Table([], 0, 0);
    }

    /** The two searches: a bucket that matches, else the first free bucket, else the overflow counter. */
    method RecordDrawSignature(signature: Signature)
      requires Valid()
      modifies this, known, count, signatures
      ensures Valid() && table == FirstSeen.Record(old(table), Event(signature, 0), BUCKETS, Comparable)
    {
      ghost var entries := table.entries;
      ghost var found := Find(entries, signature, Comparable);
      table := FirstSeen.Record(table, Event(signature, 0), BUCKETS, Comparable);
      MatchIffAll(signature);
      for i := 0 to BUCKETS
        invariant i <= found || found == |entries|
      {
        if known[i] && DrawSignaturesMatch(signatures[i], signature) {
          FindFirst(entries, signature, i);
          count[i] := count[i] + 1;
          return;
        }
      }
      assert found == |entries|;
      for i := 0 to BUCKETS
        invariant i <= |entries|
      {
        if !known[i] {
          assert table.entries == entries + [Entry(signature, 1, 0)];
          known[i] := true;
          count[i] := 1;
          signatures[i] := signature;
          return;
        }
      }
      overflowCount := overflowCount + 1;
    }
  }

  class Recorder {
    const enabled: bool
    var initialized: bool
    var logFile: bool
    var haveCurrentFrame: bool
    var sticky: Tracked
    var stickyInput: Input
    var current: Tracked
    var counters: Counters
    var inputs: Inputs
    const buckets: DrawSignatureBuckets
    /** Every call made so far. */
    ghost var calls: seq<Call>

    ghost function Repr(): set<object> {
      {this, buckets, buckets.known, buckets.count, buckets.signatures}
    }

    ghost function View(): State
      reads this, buckets
    {
      State(initialized, logFile, haveCurrentFrame, sticky, stickyInput,
            Frame(current, counters, inputs, buckets.table))
    }

    /** Where the calls lead; with tracing disabled, nowhere. */
    ghost function Reached(calls: seq<Call>): (s: State)
      ensures Proper(s)
    {
      if enabled then Run(calls) else Fresh
    }

    /** The state is that of the run, and the buckets are in order. */
    ghost predicate Valid()
      reads Repr()
    {
      buckets.Valid() && View() == Reached(calls)
    }

    /** What one more call does to the state reached. */
    lemma OneMore(c: Call)
      ensures Reached(calls + [c]) == if enabled then Act(Reached(calls), c) else Reached(calls)
    {
      assert (calls + [c])[..|calls|] == calls;
    }

    constructor (enabled: bool)
      ensures Valid() && this.enabled == enabled && calls == []
      ensures fresh(Repr())
    {
      this.enabled := enabled;
      initialized, logFile, haveCurrentFrame := false, false, false;
      sticky, stickyInput := Nothing, NoInput;
      current, counters, inputs := Nothing, NoCounters, NoInputs;
      buckets := new DrawSignatureBuckets();
      calls := [];
    }

    method ClearFrame()
      requires buckets.Valid()
      modifies `current, `counters, `inputs, buckets, buckets.known
      ensures buckets.Valid() && View() == old(View()).(current := EmptyFrame)
    {
      current, counters, inputs := Nothing, NoCounters, NoInputs;
      buckets.Clear();
    }

    method Initialize(logOpens: bool)
      requires Valid()
      modifies Repr()
      ensures Valid() && calls == old(calls) + [Init(logOpens)]
    {
      OneMore(Init(logOpens));
      calls := calls + [Init(logOpens)];
      if !enabled || initialized {
        return;
      }
      Reset(logOpens);
    }

    method Reset(logOpens: bool)
      requires buckets.Valid()
      modifies `initialized, `logFile, `haveCurrentFrame, `sticky, `stickyInput, `current, `counters, `inputs,
               buckets, buckets.known
      ensures buckets.Valid() && View() == State(true, logOpens, false, Nothing, NoInput, EmptyFrame)
    {
      ClearFrame();
      haveCurrentFrame := false;
      sticky, stickyInput := Nothing, NoInput;
      logFile := logOpens;
      initialized := true;
    }

    method OnSwapBegin()
      requires Valid()
      modifies Repr()
      ensures Valid() && calls == old(calls) + [Swap]
    {
      OneMore(Swap);
      calls := calls + [Swap];
      if !enabled || !logFile {
        return;
      }
      ClearFrame();
      CopyStickyStateToFrame();
      haveCurrentFrame := true;
    }

    method CopyStickyStateToFrame()
      requires inputs == NoInputs
      modifies `current, `inputs
      ensures current == sticky
      ensures inputs == WithInput(NoInputs, sticky.vertexDetails.inputOverrideCount, stickyInput)
    {
      current := sticky;
      inputs := inputs.(maxOverrideCount := sticky.vertexDetails.inputOverrideCount);
      if sticky.vertexDetails.inputOverrideCount > 0 {
        inputs := inputs.(present := true, last := stickyInput, min := stickyInput, max := stickyInput);
      }
    }

    predicate CurrentFrame()
      reads this
    {
      enabled && logFile && haveCurrentFrame
    }

    method RecordDraw(draw: Draw, result: int)
      requires Valid()
      modifies Repr()
      ensures Valid() && calls == old(calls) + [DrawCall(draw, result)]
    {
      OneMore(DrawCall(draw, result));
      calls := calls + [DrawCall(draw, result)];
      if !CurrentFrame() {
        return;
      }
      CountDraw(draw, result);
      buckets.RecordDrawSignature(Signature(draw, Capture(current)));
    }

    method CountDraw(draw: Draw, result: int)
      modifies `counters
      ensures counters == Counted(old(counters), draw, result)
    {
      counters := counters.(drawCalls := counters.drawCalls + 1);
      if draw.indexed {
        counters := counters.(indexedDrawCalls := counters.indexedDrawCalls + 1);
      }
      if draw.userPointer {
        counters := counters.(userPointerDrawCalls := counters.userPointerDrawCalls + 1);
      }
      if result < 0 {
        counters := counters.(failedDrawCalls := counters.failedDrawCalls + 1);
      }
      counters := counters.(lastPrimitiveType := draw.primitiveType);
      counters := counters.(lastPrimitiveCount := draw.primitiveCount);
      counters := counters.(lastDrawResult := result);
    }

    method RecordTextureStageState(stage: nat, state: StageStateName, value: nat)
      requires Valid()
      modifies this
      ensures Valid() && calls == old(calls) + [Set(StageStateSet(stage, state, value))]
    {
      OneMore(Set(StageStateSet(stage, state, value)));
      calls := calls + [Set(StageStateSet(stage, state, value))];
      if !enabled || !initialized || stage >= STAGES {
        return;
      }
      if !state.UntrackedStageState? {
        var changed: map<StageStateName, nat> := sticky.stages[stage][state := value];
        sticky := sticky.(stages := sticky.stages[stage := changed]);
      }
      if CurrentFrame() {
        current := current.(stages := current.stages[stage := sticky.stages[stage]]);
      }
    }

    method RecordTextureBinding(stage: nat, binding: Binding)
      requires Valid()
      modifies this
      ensures Valid() && calls == old(calls) + [Set(BindingSet(stage, binding))]
    {
      OneMore(Set(BindingSet(stage, binding)));
      calls := calls + [Set(BindingSet(stage, binding))];
      if !enabled || !initialized || stage >= STAGES {
        return;
      }
      sticky := sticky.(bindings := sticky.bindings[stage := binding.(known := true)]);
      if CurrentFrame() {
        current := current.(bindings := current.bindings[stage := sticky.bindings[stage]]);
      }
    }

    method RecordVertexShader(handle: nat)
      requires Valid()
      modifies this
      ensures Valid() && calls == old(calls) + [Set(VertexShaderSet(handle))]
    {
      OneMore(Set(VertexShaderSet(handle)));
      calls := calls + [Set(VertexShaderSet(handle))];
      if !enabled || !initialized {
        return;
      }
      sticky := sticky.(vertexShader := handle);
      if CurrentFrame() {
        current := current.(vertexShader := handle);
      }
    }

    method RecordVertexShaderDetails(shaderProgram: bool, shaderKey: nat, shaderCacheHash: nat,
                                     usesIndexedBoneConstants: bool, inputOverrideCount: nat, input: Input)
      requires Valid()
      modifies this
      ensures Valid() && calls == old(calls) + [Set(VertexDetailsSet(
        shaderProgram, shaderKey, shaderCacheHash, usesIndexedBoneConstants, inputOverrideCount, input))]
    {
      ghost var c := Set(VertexDetailsSet(
        shaderProgram, shaderKey, shaderCacheHash, usesIndexedBoneConstants, inputOverrideCount, input));
      OneMore(c);
      calls := calls + [c];
      if !enabled || !initialized {
        return;
      }
      StoreVertexShaderDetails(shaderProgram, shaderKey, shaderCacheHash, usesIndexedBoneConstants, inputOverrideCount,
                               input);
    }

    method StoreVertexShaderDetails(shaderProgram: bool, shaderKey: nat, shaderCacheHash: nat,
                                    usesIndexedBoneConstants: bool, inputOverrideCount: nat, input: Input)
      requires enabled && Proper(View())
      modifies `sticky, `stickyInput, `current, `inputs
      ensures View() == Recorded(old(View()), VertexDetailsSet(
        shaderProgram, shaderKey, shaderCacheHash, usesIndexedBoneConstants, inputOverrideCount, input))
    {
      sticky := sticky.(vertexDetails := VertexDetails(
        true, shaderProgram, if shaderProgram then shaderKey else 0, if shaderProgram then shaderCacheHash else 0,
        shaderProgram && usesIndexedBoneConstants, inputOverrideCount));
      if inputOverrideCount > 0 {
        stickyInput := input;
      }
      if CurrentFrame() {
        current := current.(vertexDetails := sticky.vertexDetails);
        RecordFrameInput(inputOverrideCount, input);
      }
    }

    /** The extremes of the input layouts seen in this frame. */
    method RecordFrameInput(count: nat, input: Input)
      modifies `inputs
      ensures inputs == WithInput(old(inputs), count, input)
    {
      if inputs.maxOverrideCount < count {
        inputs := inputs.(maxOverrideCount := count);
      }
      if count > 0 {
        if !inputs.present {
          inputs := inputs.(present := true, min := input, max := input);
        } else {
          if input.stride < inputs.min.stride {
            inputs := inputs.(min := inputs.min.(stride := input.stride));
          }
          if input.stride > inputs.max.stride {
            inputs := inputs.(max := inputs.max.(stride := input.stride));
          }
          if input.offset < inputs.min.offset {
            inputs := inputs.(min := inputs.min.(offset := input.offset));
          }
          if input.offset > inputs.max.offset {
            inputs := inputs.(max := inputs.max.(offset := input.offset));
          }
        }
        inputs := inputs.(last := input);
      }
    }

    method RecordPixelShader(handle: nat)
      requires Valid()
      modifies this
      ensures Valid() && calls == old(calls) + [Set(PixelShaderSet(handle))]
    {
      OneMore(Set(PixelShaderSet(handle)));
      calls := calls + [Set(PixelShaderSet(handle))];
      if !enabled || !initialized {
        return;
      }
      sticky := sticky.(pixelShader := handle);
      if CurrentFrame() {
        current := current.(pixelShader := handle);
      }
    }

    method RecordPixelShaderKey(hasKey: bool, key: nat)
      requires Valid()
      modifies this
      ensures Valid() && calls == old(calls) + [Set(PixelKeySet(hasKey, key))]
    {
      OneMore(Set(PixelKeySet(hasKey, key)));
      calls := calls + [Set(PixelKeySet(hasKey, key))];
      if !enabled || !initialized {
        return;
      }
      sticky := sticky.(pixelKey := PixelKey(hasKey, if hasKey then key else 0));
      if CurrentFrame() {
        current := current.(pixelKey := PixelKey(hasKey, if hasKey then key else 0));
      }
    }

    method RecordRenderState(state: RenderStateName, value: nat)
      requires Valid()
      modifies this
      ensures Valid() && calls == old(calls) + [Set(RenderStateSet(state, value))]
    {
      OneMore(Set(RenderStateSet(state, value)));
      calls := calls + [Set(RenderStateSet(state, value))];
      if !enabled || !initialized {
        return;
      }
      if !state.UntrackedState? {
        sticky := sticky.(renderState := sticky.renderState[state := value]);
      }
      if CurrentFrame() {
        current := current.(renderState := sticky.renderState);
      }
    }
  }

  /** The first bucket that matches is the one the table finds. */
  lemma FindFirst(entries: seq<Entry<Signature>>, s: Signature, i: nat)
    requires i < |entries| && entries[i].key == s && Comparable(s) && i <= Find(entries, s, Comparable)
    ensures Find(entries, s, Comparable) == i
  {
  }
}
