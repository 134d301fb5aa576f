/** End to end: one sender, and a channel that drops, duplicates, reorders and
    damages its frames and mixes in frames of other streams. */
module SessionRuns {
  import opened Common
  import opened Sets
  import opened Modular
  import opened Equations
  import opened Codec
  import opened Soliton
  import opened Runs
  import opened Causal
  import opened Frame
  import opened Session

  /** The sequence number under which the sender of `s` sent these bytes, if it did. */
  ghost function Genuine(s: Stream, bytes: seq<bv8>): (g: Option<u32>)
    requires StreamOk(s)
    ensures g.Some? ==> bytes == Wire(s, g.value)
    ensures g.None? ==> forall q: u32 :: bytes != Wire(s, q)
  {
    if q: u32 :| bytes == Wire(s, q) then Some(q) else None
  }

  ghost function EventOf(s: Stream, q: u32): (e: Event)
    requires StreamOk(s)
    ensures e.q == q && |e.block| == s.blockLen
  {
    Event(q, Encoded(StreamConfig(s), s.payload, q))
  }

  /** The sender's frames among the received ones. */
  ghost function Events(s: Stream, inputs: seq<seq<bv8>>): (es: seq<Event>)
    requires StreamOk(s)
  {
    if inputs == [] then []
    else
      var before := Events(s, inputs[..|inputs| - 1]);
      match Genuine(s, inputs[|inputs| - 1])
      case None => before
      case Some(q) => before + [EventOf(s, q)]
  }

  /** The channel delivers a frame of the sender, bytes that do not parse, or, to a receiver that is locked, a
      frame of another stream. */
  ghost predicate Fair(s: Stream, state: State, bytes: seq<bv8>)
    requires StreamOk(s)
  {
    || Genuine(s, bytes).Some?
    || ParseFrame(s.tag, bytes).None?
    || (state.Active? && Frame.StreamIdentity(ParseFrame(s.tag, bytes).value.0) != state.id)
  }

  /** The state of a receiver that has decoded the sender's frames `es` and nothing else. */
  ghost function Expected(s: Stream, limits: Limits, es: seq<Event>): State
    requires StreamOk(s)
  {
    if es == [] || !WithinLimits(limits, StreamId(s)) then Idle
    else
      var a := After(StreamConfig(s), es);
      Active(StreamId(s), a, Complete(StreamConfig(s), a.acc))
  }

  /** What the receiver answers to the next bytes. */
  ghost function Outcome(s: Stream, limits: Limits, es: seq<Event>, bytes: seq<bv8>): Result<Option<seq<bv8>>>
    requires StreamOk(s)
  {
    match Genuine(s, bytes)
    case None => if ParseFrame(s.tag, bytes).None? then Err(CorruptFrame) else Err(StreamConflict)
    case Some(q) =>
      if !WithinLimits(limits, StreamId(s)) then Err(ResourceLimit)
      else if Finishes(s, es, q) then Ok(Some(s.payload))
      else Ok(None)
  }

  ghost predicate Finished(s: Stream, es: seq<Event>)
    requires StreamOk(s)
  {
    Complete(StreamConfig(s), After(StreamConfig(s), es).acc)
  }

  /** Frame `q` is the one that completes the stream. */
  ghost predicate Finishes(s: Stream, es: seq<Event>, q: u32)
    requires StreamOk(s)
  {
    !Finished(s, es) && Finished(s, es + [EventOf(s, q)])
  }

  lemma {:induction false} EventsHonest(s: Stream, inputs: seq<seq<bv8>>)
    requires StreamOk(s)
    ensures Honest(StreamConfig(s), s.payload, Events(s, inputs))
  {
    hide Encoded, Wire;
    if inputs != [] {
      EventsHonest(s, inputs[..|inputs| - 1]);
    }
  }

  lemma AfterNext(cfg: Config, es: seq<Event>, e: Event)
    requires ConfigOk(cfg)
    ensures After(cfg, es + [e]) == Step(cfg, After(cfg, es), e.q, e.block)
    ensures Complete(cfg, After(cfg, es).acc) && |e.block| == cfg.blockLen ==> After(cfg, es + [e]) == After(cfg, es)
  {
    hide Complete, SystemOk;
    assert (es + [e])[..|es|] == es;
  }

  lemma ExpectedOk(s: Stream, limits: Limits, es: seq<Event>)
    requires StreamOk(s)
    ensures StateOk(s.libm, Expected(s, limits, es))
    ensures WithinLimits(limits, StreamId(s)) ==> Base(Expected(s, limits, es)) == After(StreamConfig(s), es)
    ensures Expected(s, limits, es).Active? ==> Expected(s, limits, es).id == StreamId(s) && WithinLimits(limits, StreamId(s))
  {
    hide Step, Complete, SystemOk, Encoded;
    FramesAreAdmissible(s, 0);
  }

  /** A frame of the sender reaches the decoder, as the next event. */
  lemma GenuineFed(s: Stream, limits: Limits, es: seq<Event>, q: u32)
    requires StreamOk(s) && StateOk(s.libm, Expected(s, limits, es))
    ensures var state, b := Expected(s, limits, es), Wire(s, q);
            if !WithinLimits(limits, StreamId(s)) then Rejection(s.tag, limits, state, b) == Some(ResourceLimit)
            else
              && Rejection(s.tag, limits, state, b) == None
              && Frame.StreamIdentity(ParseFrame(s.tag, b).value.0) == StreamId(s)
              && Fed(s.tag, s.libm, limits, state, b) == After(StreamConfig(s), es + [EventOf(s, q)])
  {
    hide Encoded, Wire, ParseFrame, Step, Complete, SystemOk, Run, After, Expected, StreamConfig, StreamId,
         IdentityConfig,
         IdentityRefusal, WithinLimits, StateOk;
    FramesAreAdmissible(s, q);
    ExpectedOk(s, limits, es);
    AfterNext(StreamConfig(s), es, EventOf(s, q));
    FrameBlock(s, q);
  }

  lemma FrameBlock(s: Stream, q: u32)
    requires StreamOk(s)
    ensures FrameAt(s, q).block == EventOf(s, q).block
  {
  }

  /** A frame that reaches the decoder of an unfinished stream. */
  lemma Conclusion(s: Stream, limits: Limits, es: seq<Event>, q: u32, s': State, r: Result<Option<seq<bv8>>>)
    requires StreamOk(s) && Honest(StreamConfig(s), s.payload, es) && WithinLimits(limits, StreamId(s)) && !Finished(s, es)
    requires Concluded(s.tag, s.libm, StreamId(s), After(StreamConfig(s), es + [EventOf(s, q)]), s', r)
    ensures s' == Expected(s, limits, es + [EventOf(s, q)])
    ensures r == if Finishes(s, es, q) then Ok(Some(s.payload)) else Ok(None)
  {
    hide Run, After, StreamConfig, StreamId, IdentityConfig, Complete, SystemOk, WithinLimits, EventOf, Honest,
         Recovers;
    var cfg, fs := StreamConfig(s), es + [EventOf(s, q)];
    FramesAreAdmissible(s, q);
    if Finished(s, fs) {
      var a := After(cfg, fs);
      var out :| Recovers(cfg, a.acc, out) && Verdict(s.tag, out, Active(StreamId(s), a, true), s', r);
      OneMoreHonest(s, es, q);
      RecoversPayload(s, fs, out);
    }
  }

  /** A frame of the sender on a receiver in the expected state. */
  lemma PushGenuine(s: Stream, limits: Limits, es: seq<Event>, q: u32, s': State, r: Result<Option<seq<bv8>>>)
    requires StreamOk(s) && Honest(StreamConfig(s), s.payload, es)
    requires StateOk(s.libm, Expected(s, limits, es))
    requires Pushed(s.tag, s.libm, limits, Expected(s, limits, es), Wire(s, q), s', r)
    ensures s' == Expected(s, limits, es + [EventOf(s, q)])
    ensures r == if !WithinLimits(limits, StreamId(s)) then Err(ResourceLimit)
                 else if Finishes(s, es, q) then Ok(Some(s.payload))
                 else Ok(None)
  {
    hide Wire, ParseFrame, Fed, Rejection, Run, After, StreamConfig, StreamId, IdentityConfig, IdentityRefusal,
         Complete, SystemOk, WithinLimits, StateOk, EventOf, Honest, Concluded;
    GenuineFed(s, limits, es, q);
    AfterNext(StreamConfig(s), es, EventOf(s, q));
    if WithinLimits(limits, StreamId(s)) {
      if Finished(s, es) {
        SameLength(s, q);
        UnfinishedAtFirst(s);
      } else {
        Conclusion(s, limits, es, q, s', r);
      }
    }
  }

  lemma SameLength(s: Stream, q: u32)
    requires StreamOk(s)
    ensures |EventOf(s, q).block| == StreamConfig(s).blockLen
  {
  }

  lemma UnfinishedAtFirst(s: Stream)
    requires StreamOk(s)
    ensures !Finished(s, [])
  {
    NothingSolved(StreamConfig(s));
  }

  lemma OneMoreHonest(s: Stream, es: seq<Event>, q: u32)
    requires StreamOk(s) && Honest(StreamConfig(s), s.payload, es)
    ensures Honest(StreamConfig(s), s.payload, es + [EventOf(s, q)])
  {
    hide Encoded, StreamConfig;
  }

  lemma RecoversPayload(s: Stream, es: seq<Event>, out: seq<bv8>)
    requires StreamOk(s) && Honest(StreamConfig(s), s.payload, es)
    requires Recovers(StreamConfig(s), After(StreamConfig(s), es).acc, out)
    ensures out == s.payload && s.tag(out) == StreamId(s).streamTag
  {
    hide Honest, Run, Satisfies, Join;
    HonestPayload(StreamConfig(s), s.payload, es, out);
  }

  /** Any bytes a fair channel delivers. */
  lemma PushFair(s: Stream, limits: Limits, es: seq<Event>, bytes: seq<bv8>, s': State, r: Result<Option<seq<bv8>>>)
    requires StreamOk(s) && Honest(StreamConfig(s), s.payload, es)
    requires StateOk(s.libm, Expected(s, limits, es)) && Fair(s, Expected(s, limits, es), bytes)
    requires Pushed(s.tag, s.libm, limits, Expected(s, limits, es), bytes, s', r)
    ensures s' == Expected(s, limits, Next(s, es, bytes))
    ensures r == Outcome(s, limits, es, bytes)
  {
    hide Wire, ParseFrame, Run, After, Finishes, StreamConfig, StreamId, IdentityConfig, IdentityRefusal,
         Complete, SystemOk, WithinLimits, StateOk, EventOf, Honest, Concluded, Fed, Expected, Genuine;
    match Genuine(s, bytes)
    case Some(q) =>
      GenuineBytes(s, bytes);
      PushGenuine(s, limits, es, q, s', r);
    case None =>
  }

  lemma GenuineBytes(s: Stream, bytes: seq<bv8>)
    requires StreamOk(s) && Genuine(s, bytes).Some?
    ensures bytes == Wire(s, Genuine(s, bytes).value)
  {
  }

  /* ---------- whole sessions ---------- */

  /** A receiver's history: the states between the calls and the results of the calls. */
  datatype History = History(inputs: seq<seq<bv8>>, states: seq<State>, results: seq<Result<Option<seq<bv8>>>>)

  ghost predicate IsHistory(tag: Tag, libm: Libm, limits: Limits, h: History) {
    && |h.states| == |h.inputs| + 1 && |h.results| == |h.inputs| && h.states[0] == Idle
    && (forall i {:trigger h.states[i]} :: 0 <= i < |h.states| ==> StateOk(libm, h.states[i]))
    && forall i {:trigger h.inputs[i]} :: 0 <= i < |h.inputs| ==>
         Pushed(tag, libm, limits, h.states[i], h.inputs[i], h.states[i + 1], h.results[i])
  }

  ghost predicate FairHistory(s: Stream, h: History)
    requires StreamOk(s) && |h.states| == |h.inputs| + 1
  {
    forall i {:trigger h.inputs[i]} :: 0 <= i < |h.inputs| ==> Fair(s, h.states[i], h.inputs[i])
  }

  /** Over a fair channel the receiver's state and every answer depend on the sender's frames alone. */
  lemma {:induction false} SessionState(s: Stream, limits: Limits, h: History, n: nat)
    requires StreamOk(s) && IsHistory(s.tag, s.libm, limits, h) && FairHistory(s, h) && n <= |h.inputs|
    ensures h.states[n] == Expected(s, limits, Events(s, h.inputs[..n]))
    ensures forall i :: 0 <= i < n ==> h.results[i] == Outcome(s, limits, Events(s, h.inputs[..i]), h.inputs[i])
  {
    hide Expected, Outcome, Pushed, Fair, StateOk, Next, Events, StreamConfig;
    if n == 0 {
      NoEvents(s);
      NothingReceived(s, limits);
    } else {
      SessionState(s, limits, h, n - 1);
      EventsNext(s, h.inputs, n - 1);
      EventsHonest(s, h.inputs[..n - 1]);
      assert Pushed(s.tag, s.libm, limits, h.states[n - 1], h.inputs[n - 1], h.states[n], h.results[n - 1]);
      PushFair(s, limits, Events(s, h.inputs[..n - 1]), h.inputs[n - 1], h.states[n], h.results[n - 1]);
    }
  }

  lemma NothingReceived(s: Stream, limits: Limits)
    requires StreamOk(s)
    ensures Expected(s, limits, []) == Idle
  {
  }

  ghost predicate Delivers(r: Result<Option<seq<bv8>>>) {
    r.Ok? && r.value.Some?
  }

  /** The events after one more input. */
  ghost function Next(s: Stream, es: seq<Event>, bytes: seq<bv8>): seq<Event>
    requires StreamOk(s)
  {
    match Genuine(s, bytes)
    case None => es
    case Some(q) => es + [EventOf(s, q)]
  }

  lemma EventsNext(s: Stream, inputs: seq<seq<bv8>>, i: nat)
    requires StreamOk(s) && i < |inputs|
    ensures Events(s, inputs[..i + 1]) == Next(s, Events(s, inputs[..i]), inputs[i])
  {
    hide Genuine, EventOf;
    assert inputs[..i + 1][..i] == inputs[..i];
  }

  lemma OutcomeFacts(s: Stream, limits: Limits, es: seq<Event>, bytes: seq<bv8>)
    requires StreamOk(s)
    ensures var r := Outcome(s, limits, es, bytes);
            && (Delivers(r) <==> WithinLimits(limits, StreamId(s)) && !Finished(s, es) && Finished(s, Next(s, es, bytes)))
            && (Delivers(r) ==> r == Ok(Some(s.payload)))
            && (r == Err(CorruptFrame) ==> ParseFrame(s.tag, bytes).None? && Next(s, es, bytes) == es)
  {
    hide Genuine, EventOf, ParseFrame, StreamId, WithinLimits, Finished;
  }

  /** One call of a session: the container comes out at the frame that finishes the stream, and only there. */
  lemma SessionStep(s: Stream, limits: Limits, h: History, i: nat)
    requires StreamOk(s) && IsHistory(s.tag, s.libm, limits, h) && FairHistory(s, h) && i < |h.inputs|
    ensures var es, fs := Events(s, h.inputs[..i]), Events(s, h.inputs[..i + 1]);
            && h.states[i] == Expected(s, limits, es) && h.states[i + 1] == Expected(s, limits, fs)
            && (Delivers(h.results[i]) <==> WithinLimits(limits, StreamId(s)) && !Finished(s, es) && Finished(s, fs))
            && (Delivers(h.results[i]) ==> h.results[i] == Ok(Some(s.payload)))
            && (h.results[i] == Err(CorruptFrame) ==> ParseFrame(s.tag, h.inputs[i]).None? && es == fs)
            && es <= fs
  {
    hide Expected, Outcome, Pushed, Fair, StateOk, EventOf, Genuine, Finished, StreamId, WithinLimits, ParseFrame,
         Events;
    SessionState(s, limits, h, i + 1);
    SessionState(s, limits, h, i);
    EventsNext(s, h.inputs, i);
    OutcomeFacts(s, limits, Events(s, h.inputs[..i]), h.inputs[i]);
  }

  /** Safety: whatever is handed out is the sender's container, and the receiver never throws its decoder away
      because of a tag mismatch. */
  lemma SessionSafety(s: Stream, limits: Limits, h: History, i: nat)
    requires StreamOk(s) && IsHistory(s.tag, s.libm, limits, h) && FairHistory(s, h) && i < |h.inputs|
    ensures Delivers(h.results[i]) ==> h.results[i].value.value == s.payload
    ensures h.states[i].Active? ==> h.states[i + 1].Active?
    ensures h.results[i] == Err(CorruptFrame) ==> ParseFrame(s.tag, h.inputs[i]).None? && h.states[i + 1] == h.states[i]
  {
    hide Events, StreamConfig, StreamId, WithinLimits, After, Complete, IsHistory, FairHistory, ParseFrame, Finished;
    SessionStep(s, limits, h, i);
  }

  lemma StaysFinishedNext(s: Stream, es: seq<Event>, bytes: seq<bv8>)
    requires StreamOk(s) && Finished(s, es)
    ensures Finished(s, Next(s, es, bytes))
  {
    hide Complete, Genuine, EventOf, StreamConfig, Run, After;
    if Genuine(s, bytes).Some? {
      var q := Genuine(s, bytes).value;
      SameLength(s, q);
      AfterNext(StreamConfig(s), es, EventOf(s, q));
    }
  }

  /** Once finished, a stream stays finished. */
  lemma {:induction false} StaysFinished(s: Stream, inputs: seq<seq<bv8>>, i: nat, j: nat)
    requires StreamOk(s) && i <= j <= |inputs| && Finished(s, Events(s, inputs[..i]))
    ensures Finished(s, Events(s, inputs[..j]))
    decreases j - i
  {
    hide Finished, Next, Events;
    if i < j {
      StaysFinished(s, inputs, i, j - 1);
      EventsNext(s, inputs, j - 1);
      StaysFinishedNext(s, Events(s, inputs[..j - 1]), inputs[j - 1]);
    }
  }

  /** Over ANY channel, forged frames included: a container is handed out only with the length and the tag that its
      stream announces, and a receiver never slips from one stream into another. */
  lemma DeliveredIsTagged(
      tag: Tag, libm: Libm, limits: Limits, s: State, bytes: seq<bv8>, s': State, r: Result<Option<seq<bv8>>>)
    requires StateOk(libm, s) && Pushed(tag, libm, limits, s, bytes, s', r)
    ensures Delivers(r) ==> s'.Active? && s'.delivered && tag(r.value.value) == s'.id.streamTag && |r.value.value| == s'.id.totalLen
    ensures Delivers(r) ==> !(s.Active? && s.delivered)
    ensures s.Active? && s'.Active? ==> s.id == s'.id
  {
    hide ParseFrame, Step, Complete, SystemOk, Satisfies, Join, Fed;
  }

  /** So a forged stream with the sender's identity is either the sender's container or a collision of the tag. */
  lemma ForgeryNeedsCollision(s: Stream, limits: Limits, state: State, bytes: seq<bv8>, s': State, r: Result<Option<seq<bv8>>>)
    requires StreamOk(s) && StateOk(s.libm, state) && Pushed(s.tag, s.libm, limits, state, bytes, s', r)
    requires Delivers(r) && s'.Active? && s'.id == StreamId(s)
    ensures r == Ok(Some(s.payload))
            || (r.value.value != s.payload && |r.value.value| == |s.payload| && s.tag(r.value.value) == s.tag(s.payload))
  {
    hide ParseFrame, Pushed, StateOk;
    DeliveredIsTagged(s.tag, s.libm, limits, state, bytes, s', r);
  }

  /** A receiver that has delivered does not change any more, whatever it receives. */
  lemma DeliveredIsFinal(tag: Tag, libm: Libm, limits: Limits, s: State, bytes: seq<bv8>, s': State, r: Result<Option<seq<bv8>>>)
    requires StateOk(libm, s) && Pushed(tag, libm, limits, s, bytes, s', r) && s.Active? && s.delivered
    ensures s' == s && !Delivers(r)
  {
    hide ParseFrame, StateOk, Fed, Concluded;
  }

  lemma {:induction false} StaysDelivered(tag: Tag, libm: Libm, limits: Limits, h: History, i: nat, j: nat)
    requires IsHistory(tag, libm, limits, h) && i <= j < |h.states| && h.states[i].Active? && h.states[i].delivered
    ensures h.states[j] == h.states[i]
    decreases j - i
  {
    hide Pushed, StateOk;
    if i < j {
      StaysDelivered(tag, libm, limits, h, i, j - 1);
      DeliveredIsFinal(tag, libm, limits, h.states[j - 1], h.inputs[j - 1], h.states[j], h.results[j - 1]);
    }
  }

  /** There are no two deliveries, over ANY channel, forged frames included. */
  lemma AtMostOnce(tag: Tag, libm: Libm, limits: Limits, h: History, i: nat, j: nat)
    requires IsHistory(tag, libm, limits, h) && i < j < |h.inputs|
    ensures !(Delivers(h.results[i]) && Delivers(h.results[j]))
  {
    hide Pushed, StateOk, Delivers;
    DeliveredIsTagged(tag, libm, limits, h.states[i], h.inputs[i], h.states[i + 1], h.results[i]);
    if Delivers(h.results[i]) {
      StaysDelivered(tag, libm, limits, h, i + 1, j);
      DeliveredIsFinal(tag, libm, limits, h.states[j], h.inputs[j], h.states[j + 1], h.results[j]);
    }
  }

  /** Exactly when: the container is handed out in a session if and only if peeling the sender's ACCEPTED frames
      determines every block.  Arriving is not enough: a frame may be dropped for a budget. */
  lemma {:induction false} DeliveredExactlyWhen(s: Stream, limits: Limits, h: History, n: nat)
    requires StreamOk(s) && IsHistory(s.tag, s.libm, limits, h) && FairHistory(s, h) && n <= |h.inputs|
    requires WithinLimits(limits, StreamId(s))
    ensures (exists i :: 0 <= i < n && Delivers(h.results[i])) <==> Finished(s, Events(s, h.inputs[..n]))
  {
    hide Events, StreamId, WithinLimits, Finished, Expected, FairHistory, ParseFrame, Delivers, Pushed, StateOk;
    if n == 0 {
      NoEvents(s);
      UnfinishedAtFirst(s);
    } else {
      DeliveredExactlyWhen(s, limits, h, n - 1);
      SessionStep(s, limits, h, n - 1);
      if Finished(s, Events(s, h.inputs[..n - 1])) {
        StaysFinished(s, h.inputs, n - 1, n);
      }
    }
  }

  /** In terms of what arrived: if the sender's frames that arrived are few enough and combine few enough blocks, the
      container is handed out if and only if peeling them determines every block. */
  lemma DeliveredExactlyWhenDetermined(s: Stream, limits: Limits, h: History, n: nat)
    requires StreamOk(s) && IsHistory(s.tag, s.libm, limits, h) && FairHistory(s, h) && n <= |h.inputs|
    requires WithinLimits(limits, StreamId(s))
    requires Affordable(StreamConfig(s), Heard(StreamConfig(s), Events(s, h.inputs[..n])))
    ensures (exists i :: 0 <= i < n && Delivers(h.results[i]))
            <==> Determined(StreamConfig(s), Heard(StreamConfig(s), Events(s, h.inputs[..n]))) == Below(StreamK(s))
  {
    hide Events, StreamId, WithinLimits, FairHistory, IsHistory, Delivers, Affordable, Determined, Complete, After;
    DeliveredExactlyWhen(s, limits, h, n);
    CompleteExactlyWhenDetermined(StreamConfig(s), Events(s, h.inputs[..n]));
  }

  /** Delivery always needs what arrived to determine every block, whatever was dropped. */
  lemma DeliveredOnlyIfDetermined(s: Stream, limits: Limits, h: History, n: nat)
    requires StreamOk(s) && IsHistory(s.tag, s.libm, limits, h) && FairHistory(s, h) && n <= |h.inputs|
    requires WithinLimits(limits, StreamId(s)) && exists i :: 0 <= i < n && Delivers(h.results[i])
    ensures Determined(StreamConfig(s), Heard(StreamConfig(s), Events(s, h.inputs[..n]))) == Below(StreamK(s))
  {
    hide Events, StreamId, WithinLimits, FairHistory, IsHistory, Delivers, Determined, After, Solved;
    DeliveredExactlyWhen(s, limits, h, n);
    SolvedFromArrived(StreamConfig(s), Events(s, h.inputs[..n]));
  }

  lemma NoEvents(s: Stream)
    requires StreamOk(s)
    ensures Events(s, []) == []
  {
  }

  /** First-phase liveness: if the sender's frames that arrived are first-phase ones, the container is handed out
      exactly when all `k` of them have arrived, in whatever order and however often. */
  lemma FirstPhaseDelivers(s: Stream, limits: Limits, h: History)
    requires StreamOk(s) && s.flags != 0 && WithinLimits(limits, StreamId(s))
    requires IsHistory(s.tag, s.libm, limits, h) && FairHistory(s, h)
    requires forall e :: e in Events(s, h.inputs) ==> e.q < StreamK(s)
    ensures (exists i :: 0 <= i < |h.inputs| && Delivers(h.results[i]) && h.results[i].value.value == s.payload)
            <==> |Heard(StreamConfig(s), Events(s, h.inputs))| == StreamK(s)
  {
    hide Genuine, EventOf, ParseFrame, StreamId, WithinLimits, After, Complete, Fair, StateOk, Pushed, ConfigOk,
         Outcome;
    var cfg, es := StreamConfig(s), Events(s, h.inputs);
    assert h.inputs[..|h.inputs|] == h.inputs;
    DeliveredExactlyWhen(s, limits, h, |h.inputs|);
    EventLengths(s, h.inputs);
    assert FirstPhase(cfg, es);
    if s.flags == FLAG_CAUSAL {
      CausalFirstPhase(cfg, es, FirstMissing(Heard(cfg, es), cfg.k, 0));
    } else {
      SystematicFirstPhase(cfg, es);
    }
    forall i | 0 <= i < |h.inputs| && Delivers(h.results[i]) ensures h.results[i].value.value == s.payload {
      SessionSafety(s, limits, h, i);
    }
  }

  lemma {:induction false} EventLengths(s: Stream, inputs: seq<seq<bv8>>)
    requires StreamOk(s)
    ensures forall e :: e in Events(s, inputs) ==> |e.block| == s.blockLen
  {
    hide Genuine;
    if inputs != [] { EventLengths(s, inputs[..|inputs| - 1]); }
  }

  /** A receive loop; its history is one of those above. */
  method Receive(receiver: Receiver, inputs: seq<seq<bv8>>) returns (results: seq<Result<Option<seq<bv8>>>>, ghost h: History)
    requires receiver.Valid() && receiver.View() == Idle
    modifies receiver, receiver.Owned()
    ensures receiver.Valid() && IsHistory(receiver.tag, receiver.libm, receiver.limits, h)
    ensures h.inputs == inputs && h.results == results && h.states[|inputs|] == receiver.View()
  {
    hide Receiver.Valid, Receiver.View, Pushed, StateOk;
    results := [];
    ghost var states := [Idle];
    receiver.ViewOk();
    for i := 0 to |inputs|
      invariant receiver.Valid() && fresh(receiver.Owned() - old(receiver.Owned()))
      invariant |results| == i && |states| == i + 1 && states[i] == receiver.View()
      invariant IsHistory(receiver.tag, receiver.libm, receiver.limits, History(inputs[..i], states, results))
    {
      var r := receiver.TryPush(inputs[i]);
      receiver.ViewOk();
      results := results + [r];
      states := states + [receiver.View()];
      assert inputs[..i + 1] == inputs[..i] + [inputs[i]];
    }
    h := History(inputs, states, results);
    assert inputs[..|inputs|] == inputs;
  }

  /* ---------- the documented transfer loop ---------- */

  /** The first `n` frames of a sender. */
  ghost function FirstFrames(s: Stream, n: nat): (es: seq<Event>)
    requires StreamOk(s) && n < MODULUS
    ensures |es| == n && forall i :: 0 <= i < n ==> es[i].q == i && |es[i].block| == s.blockLen
  {
    if n == 0 then [] else FirstFrames(s, n - 1) + [EventOf(s, n - 1)]
  }

  /** The first `n <= k` frames of a causal or systematic sender are enough exactly when `n == k`. */
  lemma FirstFramesFinish(s: Stream, n: nat)
    requires StreamOk(s) && s.flags != 0 && n <= StreamK(s) < MODULUS
    ensures Finished(s, FirstFrames(s, n)) <==> n == StreamK(s)
  {
    hide ConfigOk, After, Complete, Heard, FirstPhase, StreamK;
    var cfg, es := StreamConfig(s), FirstFrames(s, n);
    FirstFramesHeard(s, n);
    if s.flags == FLAG_CAUSAL {
      CausalFirstPhase(cfg, es, FirstMissing(Heard(cfg, es), cfg.k, 0));
    } else {
      SystematicFirstPhase(cfg, es);
    }
  }

  lemma FirstFramesHeard(s: Stream, n: nat)
    requires StreamOk(s) && s.flags != 0 && n <= StreamK(s) < MODULUS
    ensures FirstPhase(StreamConfig(s), FirstFrames(s, n)) && |Heard(StreamConfig(s), FirstFrames(s, n))| == n
  {
    hide Encoded, CheckedK;
    var cfg, es := StreamConfig(s), FirstFrames(s, n);
    forall q | q in Below(n) ensures q in Heard(cfg, es) {
      assert es[q].q == q;
    }
    assert Heard(cfg, es) == Below(n);
  }

  lemma {:induction false} FirstFramesHonest(s: Stream, n: nat)
    requires StreamOk(s) && n < MODULUS
    ensures Honest(StreamConfig(s), s.payload, FirstFrames(s, n))
  {
    hide Encoded;
    if n > 0 { FirstFramesHonest(s, n - 1); }
  }

  /** One lossless round of the transfer. */
  lemma TransferStep(s: Stream, limits: Limits, n: nat, s': State, r: Result<Option<seq<bv8>>>)
    requires StreamOk(s) && s.flags != 0 && WithinLimits(limits, StreamId(s)) && n < StreamK(s) < MODULUS
    requires StateOk(s.libm, Expected(s, limits, FirstFrames(s, n)))
    requires Pushed(s.tag, s.libm, limits, Expected(s, limits, FirstFrames(s, n)), Wire(s, n), s', r)
    ensures s' == Expected(s, limits, FirstFrames(s, n + 1))
    ensures r == Ok(if n + 1 == StreamK(s) then Some(s.payload) else None)
  {
    hide Expected, Pushed, Wire, StateOk, WithinLimits, StreamId, Finished, StreamK, EventOf, Honest;
    FirstFramesHonest(s, n);
    FirstFramesFinish(s, n);
    FirstFramesFinish(s, n + 1);
    PushGenuine(s, limits, FirstFrames(s, n), n, s', r);
  }

  /** The receiver uses the stream's tag function, and the stream passes its limits. */
  ghost predicate Matched(s: Stream, receiver: Receiver) {
    && StreamOk(s) && s.flags != 0 && StreamK(s) < MODULUS
    && receiver.tag == s.tag && receiver.libm == s.libm && WithinLimits(receiver.limits, StreamId(s))
  }

  /** The receiver has heard exactly the first `n` frames. */
  ghost predicate InStep(s: Stream, receiver: Receiver, n: nat)
    requires Matched(s, receiver) && n <= StreamK(s)
    reads receiver, receiver.Owned()
  {
    receiver.View() == Expected(s, receiver.limits, FirstFrames(s, n))
  }

  lemma NothingHeardYet(s: Stream, receiver: Receiver)
    requires Matched(s, receiver) && receiver.View() == Idle
    ensures InStep(s, receiver, 0)
  {
    NothingReceived(s, receiver.limits);
  }

  /** The next frame in wire form. */
  method NextBytes(sender: Sender, ghost n: nat) returns (bytes: seq<bv8>)
    requires sender.Live() && StreamOk(sender.stream) && sender.Count() == n < MODULUS
    modifies sender, sender.encoder, sender.encoder.acc
    ensures sender.Live() && sender.Count() == n + 1 && bytes == Wire(sender.stream, n)
  {
    hide Sender.Live, Sender.Count, StreamOk, FrameAt, Packed;
    var frame := sender.TryNextFrame();
    bytes := PackFrame(frame.value.header, frame.value.block);
  }

  /** The receiver's part of a round. */
  method Hear(receiver: Receiver, bytes: seq<bv8>, ghost s: Stream, ghost n: nat) returns (r: Result<Option<seq<bv8>>>)
    requires receiver.Valid() && Matched(s, receiver) && n < StreamK(s) && InStep(s, receiver, n) && bytes == Wire(s, n)
    modifies receiver, receiver.Owned()
    ensures receiver.Valid() && fresh(receiver.Owned() - old(receiver.Owned())) && InStep(s, receiver, n + 1)
    ensures r == Ok(if n + 1 == StreamK(s) then Some(s.payload) else None)
  {
    hide Receiver.Valid, Receiver.View, Receiver.Owned, Expected, Pushed, StateOk, WithinLimits, StreamId, StreamK,
         FirstFrames, Wire, StreamOk;
    receiver.ViewOk();
    r := receiver.TryPush(bytes);
    TransferStep(s, receiver.limits, n, receiver.View(), r);
  }

  /** Sender and receiver connected by a lossless channel: in causal and in systematic mode the container comes out
      with frame number `k`, not earlier and not later. */
  method Transfer(sender: Sender, receiver: Receiver) returns (recovered: Option<seq<bv8>>)
    requires sender.Live() && sender.Count() == 0 && receiver.Valid() && receiver.View() == Idle && receiver.Owned() == {}
    requires Matched(sender.stream, receiver)
    modifies sender, sender.encoder, sender.encoder.acc, receiver
    ensures recovered == Some(sender.stream.payload) && sender.Count() == StreamK(sender.stream)
  {
    hide Receiver.Valid, Receiver.View, StreamOk, Sender.Live, StreamK, InStep, Wire, Matched;
    sender.LiveOk();
    StreamFits(sender.stream);
    NothingHeardYet(sender.stream, receiver);
    recovered := None;
    var k := sender.encoder.cfg.k;
    for i := 0 to 4 * k
      invariant sender.Live() && sender.Count() == i < k == StreamK(sender.stream)
      invariant receiver.Valid() && fresh(receiver.Owned()) && InStep(sender.stream, receiver, i)
    {
      var bytes := NextBytes(sender, i);
      var r := Hear(receiver, bytes, sender.stream, i);
      if r.value.Some? {
        return r.value;
      }
    }
  }
}
