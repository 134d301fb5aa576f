/** The session layer (src/session.rs): a sender that numbers its frames, and a
    receiver that locks to one stream and hands out the container once. */
module Session {
  import opened Common
  import opened Modular
  import opened Soliton
  import opened Capacity
  import opened Equations
  import opened Peeling
  import opened Codec
  import opened Frame
  import Encoder
  import Decoder

  /** What a sender sends: its container and parameters. */
  datatype Stream = Stream(tag: Tag, libm: Libm, flags: u8, session: u16, payload: seq<bv8>, blockLen: nat)

  /** The modes of the public constructors, and parameters the encoder accepts. */
  predicate StreamOk(s: Stream) {
    s.flags <= 2 && CheckedK(|s.payload|, s.blockLen).Ok?
  }

  /** The codec parameters that header flags stand for. */
  function ConfigFor(libm: Libm, flags: u8, session: u16, k: nat, blockLen: nat, totalLen: nat): Config {
    Config(k, blockLen, session, totalLen, if flags == FLAG_CAUSAL || flags == FLAG_SYSTEMATIC then k else 0,
           flags == FLAG_CAUSAL, libm)
  }

  function StreamK(s: Stream): nat
    requires StreamOk(s)
  {
    CheckedK(|s.payload|, s.blockLen).value
  }

  function StreamConfig(s: Stream): (cfg: Config)
    requires StreamOk(s)
    ensures ConfigOk(cfg) && cfg.totalLen == |s.payload| && cfg.blockLen == s.blockLen && cfg.k == StreamK(s)
  {
    ConfigFor(s.libm, s.flags, s.session, StreamK(s), s.blockLen, |s.payload|)
  }

  /** The header of frame `q` before it is tagged. */
  function Untagged(s: Stream, q: u32): Header
    requires StreamOk(s)
  {
    StreamFits(s);
    Header(s.flags, s.session, q, StreamK(s), s.blockLen, |s.payload|, s.tag(s.payload), 0)
  }

  lemma StreamFits(s: Stream)
    requires StreamOk(s)
    ensures 0 < StreamK(s) <= U16_MAX && 0 < s.blockLen <= U16_MAX && 0 < |s.payload| <= MAX_STREAM_BYTES < MODULUS
  {
  }

  datatype Message = Message(header: Header, block: seq<bv8>)

  function Tagged(tag: Tag, h: Header, block: seq<bv8>): Message {
    Message(h.(frameTag := FrameChecksum(tag, h, block)), block)
  }

  /** Frame number `q` of the stream. */
  ghost function FrameAt(s: Stream, q: u32): Message
    requires StreamOk(s)
  {
    Tagged(s.tag, Untagged(s, q), Encoded(StreamConfig(s), s.payload, q))
  }

  /** Frame number `q` on the wire. */
  ghost function Wire(s: Stream, q: u32): seq<bv8>
    requires StreamOk(s)
  {
    Packed(FrameAt(s, q).header, FrameAt(s, q).block)
  }

  /* ---------- the sender ---------- */

  class Sender {
    const stream: Stream
    const encoder: Encoder.LtEncoder
    var seqno: u32
    var exhausted: bool

    ghost predicate Valid() {
      StreamOk(stream) && encoder.Valid() && encoder.cfg == StreamConfig(stream) && encoder.payload == stream.payload
    }

    /** How many frames have been sent. */
    function Count(): nat
      reads this
    {
      if exhausted then seqno + 1 else seqno
    }

    ghost predicate Live()
      reads this
    {
      Valid() && (exhausted ==> seqno == MODULUS - 1)
    }

    lemma LiveOk()
      requires Live()
      ensures StreamOk(stream) && encoder.cfg.k == StreamK(stream)
    {
    }

    constructor (stream: Stream, encoder: Encoder.LtEncoder)
      requires StreamOk(stream) && encoder.Valid() && encoder.cfg == StreamConfig(stream) && encoder.payload == stream.payload
      ensures Live() && Count() == 0 && this.stream == stream && this.encoder == encoder
    {
      this.stream, this.encoder := stream, encoder;
      seqno, exhausted := 0, false;
    }

    /** Frames come in sequence, each number once; after number 2^32 - 1 the sender is exhausted for good. */
    method TryNextFrame() returns (r: Result<Message>)
      requires Live()
      modifies this, encoder, encoder.acc
      ensures Live()
      ensures old(Count()) < MODULUS ==> r == Ok(FrameAt(stream, old(Count()))) && Count() == old(Count()) + 1
      ensures old(Count()) == MODULUS ==> r == Err(SequenceExhausted) && Count() == old(Count())
    {
      hide Encoder.LtEncoder.Valid, Encoded, StreamConfig;
      if exhausted {
        return Err(SequenceExhausted);
      }
      var q := seqno;
      var block := encoder.Encode(q);
      var header := Untagged(stream, q);
      header := header.(frameTag := FrameChecksum(stream.tag, header, block));
      if q == MODULUS - 1 {
        exhausted := true;
      } else {
        seqno := seqno + 1;
      }
      r := Ok(Message(header, block));
    }
  }

  method TryNewSender(stream: Stream) returns (r: Result<Sender>)
    requires stream.flags <= 2
    ensures r.Ok? <==> StreamOk(stream)
    ensures r.Err? ==> CheckedK(|stream.payload|, stream.blockLen) == Err(r.error)
    ensures r.Ok? ==> fresh(r.value) && r.value.Live() && r.value.Count() == 0 && r.value.stream == stream
  {
    var container, blockLen := stream.payload, stream.blockLen;
    if container == [] {
      return Err(Empty);
    }
    if blockLen == 0 || blockLen > U16_MAX {
      return Err(InvalidStream);
    }
    if |container| > MAX_STREAM_BYTES {
      return Err(TooLarge(|container|, MAX_STREAM_BYTES));
    }
    var count := SourceBlockCount(|container|, blockLen + HEADER_LEN);
    if count.None? || count.value == 0 || count.value > U16_MAX {
      return Err(InvalidStream);
    }
    var made := Encoder.TryWithMode(container, blockLen, stream.session,
                                    stream.flags == FLAG_CAUSAL || stream.flags == FLAG_SYSTEMATIC,
                                    stream.flags == FLAG_CAUSAL, stream.libm);
    match made
    case Err(e) =>
      r := Err(e);
    case Ok(encoder) =>
      var sender := new Sender(stream, encoder);
      r := Ok(sender);
  }

  /* ---------- what a receiver makes of a sender's frames ---------- */

  datatype Limits = Limits(maxStreamBytes: nat, maxSourceBlocks: nat, maxBlockLen: nat)

  const MAXIMUM: Limits := Limits(MAX_STREAM_BYTES, MAX_SOURCE_BLOCKS, U16_MAX)

  predicate WithinLimits(limits: Limits, id: Identity) {
    id.totalLen <= limits.maxStreamBytes && id.k <= limits.maxSourceBlocks && id.blockLen <= limits.maxBlockLen
  }

  function IdentityConfig(libm: Libm, id: Identity): Config {
    ConfigFor(libm, id.flags, id.session, id.k, id.blockLen, id.totalLen)
  }

  function IdentityRefusal(id: Identity): Option<Error> {
    Refusal(id.k, id.blockLen, id.totalLen)
  }

  function StreamId(s: Stream): Identity
    requires StreamOk(s)
  {
    Frame.StreamIdentity(Untagged(s, 0))
  }

  /** Every frame of a sender parses to itself, belongs to its stream, passes every check a receiver makes under
      the maximum limits, and gives the receiver the sender's own parameters. */
  lemma FramesAreAdmissible(s: Stream, q: u32)
    requires StreamOk(s)
    ensures var m := FrameAt(s, q);
            && ParseFrame(s.tag, Wire(s, q)) == Some((m.header, m.block))
            && m.header.seqno == q && |m.block| == s.blockLen
            && Frame.StreamIdentity(m.header) == StreamId(s)
    ensures WithinLimits(MAXIMUM, StreamId(s)) && IdentityRefusal(StreamId(s)) == None
    ensures IdentityConfig(s.libm, StreamId(s)) == StreamConfig(s)
  {
    hide Encoded, Packed, ParseFrame, Fields;
    StreamFits(s);
    var m := FrameAt(s, q);
    DecoderAcceptsEncoder(StreamK(s), s.blockLen, |s.payload|);
    Retag(Untagged(s, q), m.header);
    ParsePack(s.tag, m.header, m.block);
  }

  /** The frame tag is not part of what is tagged. */
  lemma Retag(h: Header, g: Header)
    requires g == h.(frameTag := g.frameTag)
    ensures Fields(g) == Fields(h)
  {
  }

  /* ---------- the receiver ---------- */

  /** What a receiver remembers between frames. */
  datatype State =
    | Idle
    | Active(id: Identity, decoder: Abs, delivered: bool)

  /** `out` is what the accepted equations determine. */
  ghost predicate Recovers(cfg: Config, sys: System, out: seq<bv8>)
    requires ConfigOk(cfg)
  {
    |out| == cfg.totalLen && forall x :: Satisfies(x, sys, cfg.k, WordCount(cfg)) ==> out == Join(cfg, x, cfg.k)
  }

  /** Why a receiver rejects a frame before it reaches a decoder, in the order of its tests. */
  ghost function Rejection(tag: Tag, limits: Limits, s: State, bytes: seq<bv8>): Option<Error> {
    match ParseFrame(tag, bytes)
    case None => Some(CorruptFrame)
    case Some((h, block)) =>
      var id := Frame.StreamIdentity(h);
      if s.Active? then (if s.id != id then Some(StreamConflict) else None)
      else if !WithinLimits(limits, id) then Some(ResourceLimit)
      else IdentityRefusal(id)
  }

  ghost predicate StateOk(libm: Libm, s: State) {
    s.Active? ==>
      && ConfigOk(IdentityConfig(libm, s.id)) && SystemOk(IdentityConfig(libm, s.id), s.decoder.acc)
      && (s.delivered <==> Complete(IdentityConfig(libm, s.id), s.decoder.acc))
  }

  /** The decoder state that the next frame of stream `id` meets. */
  ghost function Base(s: State): Abs {
    if s.Active? then s.decoder else EMPTY_ABS
  }

  lemma AcceptedConfig(tag: Tag, libm: Libm, limits: Limits, s: State, bytes: seq<bv8>)
    requires StateOk(libm, s) && Rejection(tag, limits, s, bytes).None?
    ensures var (h, block) := ParseFrame(tag, bytes).value;
            var cfg := IdentityConfig(libm, Frame.StreamIdentity(h));
            ConfigOk(cfg) && SystemOk(cfg, Base(s).acc)
  {
    hide ParseFrame, SystemOk, Complete;
    EmptySystemOk(IdentityConfig(libm, Frame.StreamIdentity(ParseFrame(tag, bytes).value.0)));
  }

  lemma EmptySystemOk(cfg: Config)
    ensures ConfigOk(cfg) ==> SystemOk(cfg, map[])
  {
  }

  /** The decoder state after a frame that reached the decoder. */
  ghost function Fed(tag: Tag, libm: Libm, limits: Limits, s: State, bytes: seq<bv8>): (a: Abs)
    requires StateOk(libm, s) && Rejection(tag, limits, s, bytes).None?
  {
    AcceptedConfig(tag, libm, limits, s, bytes);
    var (h, block) := ParseFrame(tag, bytes).value;
    Step(IdentityConfig(libm, Frame.StreamIdentity(h)), Base(s), h.seqno, block)
  }

  /** What becomes of the decoder state `a`: once complete, the recovered container is delivered if it carries the
      announced tag; otherwise the receiver starts over. */
  ghost predicate Concluded(tag: Tag, libm: Libm, id: Identity, a: Abs, s': State, r: Result<Option<seq<bv8>>>) {
    var cfg := IdentityConfig(libm, id);
    && ConfigOk(cfg) && SystemOk(cfg, a.acc)
    && if !Complete(cfg, a.acc) then s' == Active(id, a, false) && r == Ok(None)
       else exists out :: Recovers(cfg, a.acc, out) && Verdict(tag, out, Active(id, a, true), s', r)
  }

  ghost predicate Verdict(tag: Tag, out: seq<bv8>, done: State, s': State, r: Result<Option<seq<bv8>>>)
    requires done.Active?
  {
    if tag(out) == done.id.streamTag then s' == done && r == Ok(Some(out)) else s' == Idle && r == Err(CorruptFrame)
  }

  /** One call of `try_push`: from state `s` and the received bytes to state `s'` and result `r`. */
  ghost predicate Pushed(
      tag: Tag, libm: Libm, limits: Limits, s: State, bytes: seq<bv8>, s': State, r: Result<Option<seq<bv8>>>)
    requires StateOk(libm, s)
  {
    match Rejection(tag, limits, s, bytes)
    case Some(e) => s' == s && r == Err(e)
    case None =>
      if s.Active? && s.delivered then s' == s && r == Ok(None)
      else Concluded(tag, libm, Frame.StreamIdentity(ParseFrame(tag, bytes).value.0), Fed(tag, libm, limits, s, bytes), s', r)
  }

  /** A stream that has just been opened is the same as an idle receiver to the frame that opened it. */
  lemma Opened(tag: Tag, libm: Libm, limits: Limits, bytes: seq<bv8>, id: Identity)
    requires Rejection(tag, limits, Idle, bytes).None? && id == Frame.StreamIdentity(ParseFrame(tag, bytes).value.0)
    ensures StateOk(libm, Active(id, EMPTY_ABS, false))
    ensures Rejection(tag, limits, Active(id, EMPTY_ABS, false), bytes).None?
    ensures Fed(tag, libm, limits, Idle, bytes) == Fed(tag, libm, limits, Active(id, EMPTY_ABS, false), bytes)
  {
    hide ParseFrame, Step, Complete, SystemOk;
    AcceptedConfig(tag, libm, limits, Idle, bytes);
    NothingSolved(IdentityConfig(libm, id));
  }

  lemma NothingSolved(cfg: Config)
    requires ConfigOk(cfg)
    ensures SystemOk(cfg, map[]) && !Complete(cfg, map[])
  {
    FamilyWithin(cfg, map[]);
    assert FamilyOf(map[]) == {};
    PeelCount({}, cfg.k);
  }

  class Receiver {
    const tag: Tag
    const libm: Libm
    const limits: Limits
    var decoder: Decoder.LtDecoder?
    var identity: Option<Identity>
    var delivered: bool

    ghost function Owned(): set<object>
      reads this
    {
      if decoder == null then {} else {decoder, decoder.seen}
    }

    ghost function View(): State
      reads this, Owned()
    {
      if decoder == null || identity.None? then Idle else Active(identity.value, decoder.View(), delivered)
    }

    ghost predicate Valid()
      reads this, Owned()
    {
      && (decoder == null <==> identity.None?) && (decoder == null ==> !delivered)
      && (decoder != null ==> decoder.Valid() && decoder.cfg == IdentityConfig(libm, identity.value))
      && StateOk(libm, View())
    }

    lemma ViewOk()
      requires Valid()
      ensures StateOk(libm, View())
    {
    }

    constructor (tag: Tag, libm: Libm, limits: Limits)
      ensures Valid() && View() == Idle && Owned() == {}
      ensures this.tag == tag && this.libm == libm && this.limits == limits
    {
      this.tag, this.libm, this.limits := tag, libm, limits;
      decoder, identity, delivered := null, None, false;
    }

    method Reset()
      modifies this
      ensures Valid() && View() == Idle && Owned() == {}
    {
      decoder, identity, delivered := null, None, false;
    }

    /** Locks to a new stream, or says why not. */
    method Open(h: Header) returns (e: Option<Error>)
      requires Valid() && decoder == null
      modifies this
      ensures var id := Frame.StreamIdentity(h);
              && e == (if !WithinLimits(limits, id) then Some(ResourceLimit) else IdentityRefusal(id))
              && (e.Some? ==> Valid() && decoder == null)
              && (e.None? ==> Valid() && decoder != null && View() == Active(id, EMPTY_ABS, false) && fresh(Owned()))
    {
      hide Decoder.LtDecoder.Valid, Decoder.LtDecoder.View, Refusal, Complete, SystemOk;
      var id := Frame.StreamIdentity(h);
      if h.totalLen > limits.maxStreamBytes || h.k > limits.maxSourceBlocks || h.blockLen > limits.maxBlockLen {
        return Some(ResourceLimit);
      }
      var first := h.flags == FLAG_CAUSAL || h.flags == FLAG_SYSTEMATIC;
      var made := Decoder.TryNewMode(h.k, h.blockLen, h.session, h.totalLen, if first then h.k else 0, h.flags == FLAG_CAUSAL, libm);
      if made.Err? {
        return Some(made.error);
      }
      decoder, identity := made.value, Some(id);
      decoder.ViewOk();
      NothingSolved(decoder.cfg);
      e := None;
    }

    /** Feeds the decoder and, once it is complete, checks and hands out the container. */
    method Advance(h: Header, block: seq<bv8>) returns (r: Result<Option<seq<bv8>>>)
      requires Valid() && decoder != null && identity == Some(Frame.StreamIdentity(h)) && !delivered
      modifies this, decoder, decoder.seen
      ensures Valid() && (decoder == null || decoder == old(decoder))
      ensures Concluded(tag, libm, old(identity).value, Step(old(decoder).cfg, old(decoder.View()), h.seqno, block), View(), r)
    {
      hide Decoder.LtDecoder.Valid, Decoder.LtDecoder.View, Step, Complete, SystemOk, Satisfies, Join;
      ghost var id, a := identity.value, Step(decoder.cfg, decoder.View(), h.seqno, block);
      decoder.ViewOk();
      decoder.AddFrame(h.seqno, block);
      decoder.ViewOk();
      decoder.SolvedIsPeeled();
      if !decoder.IsComplete() {
        return Ok(None);
      }
      var container := decoder.Assemble();
      assert Recovers(decoder.cfg, a.acc, container.value);
      if tag(container.value) != h.streamTag {
        Reset();
        assert Verdict(tag, container.value, Active(id, a, true), View(), Err(CorruptFrame));
        return Err(CorruptFrame);
      }
      delivered := true;
      assert Verdict(tag, container.value, Active(id, a, true), View(), Ok(container));
      r := Ok(container);
    }

    method TryPush(bytes: seq<bv8>) returns (r: Result<Option<seq<bv8>>>)
      requires Valid()
      modifies this, Owned()
      ensures Valid() && fresh(Owned() - old(Owned()))
      ensures Pushed(tag, libm, limits, old(View()), bytes, View(), r)
    {
      hide Decoder.LtDecoder.Valid, Decoder.LtDecoder.View, Step, Complete, SystemOk, Concluded, ParseFrame, StateOk;
      var parsed := ParseFrame(tag, bytes);
      if parsed.None? {
        return Err(CorruptFrame);
      }
      var (h, block) := parsed.value;
      var id := Frame.StreamIdentity(h);
      if identity.Some? {
        if identity.value != id {
          return Err(StreamConflict);
        }
      } else {
        var refused := Open(h);
        if refused.Some? {
          return Err(refused.value);
        }
        Opened(tag, libm, limits, bytes, id);
      }
      if delivered {
        return Ok(None);
      }
      r := Advance(h, block);
    }
  }
}
