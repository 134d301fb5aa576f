/** What travels between two programs, in bytes: which byte a frame carries where, in
    each mode, and what a receiver refuses.  Nothing here depends on how the model
    represents blocks, headers or modes. */
module Interop {
  import opened Common
  import opened Modular
  import opened Sets
  import opened Words
  import opened LittleEndian
  import opened Soliton
  import opened Selection
  import opened Capacity
  import opened Codec
  import opened Frame
  import opened Session
  import opened SessionRuns

  /* ---------- which streams can be sent ---------- */

  /** A stream has a mode, a payload that is not empty and not too long, a block length that fits 16 bits, and at most
      65535 blocks. */
  lemma StreamExactlyWhen(s: Stream)
    ensures StreamOk(s) <==>
              && s.flags <= 2 && 0 < |s.payload| <= 67_240_062
              && 0 < s.blockLen <= 65535 && |s.payload| <= 65535 * s.blockLen
    ensures StreamOk(s) ==> (StreamK(s) - 1) * s.blockLen < |s.payload| <= StreamK(s) * s.blockLen
  {
    hide CeilDiv;
    if s.blockLen > 0 {
      CeilDivAtMost(|s.payload|, s.blockLen, 65535);
      CeilDivAtMost(|s.payload|, s.blockLen, 0);
      if StreamOk(s) {
        CeilDivAtMost(|s.payload|, s.blockLen, StreamK(s));
        CeilDivAtMost(|s.payload|, s.blockLen, StreamK(s) - 1);
      }
    }
  }

  /** What a sender answers to parameters it refuses, and how many blocks it makes of those it accepts. */
  lemma SenderAnswers(len: nat, blockLen: nat)
    ensures var r := CheckedK(len, blockLen);
            if len == 0 then r == Err(Empty)
            else if blockLen == 0 || blockLen > 65535 then r == Err(InvalidStream)
            else if len > 67_240_062 then r == Err(TooLarge(len, 67_240_062))
            else if len > 65535 * blockLen then r == Err(InvalidStream)
            else r.Ok? && 0 < r.value && (r.value - 1) * blockLen < len <= r.value * blockLen
  {
    hide CeilDiv;
    if 0 < blockLen <= 65535 && 0 < len {
      var k := CeilDiv(len, blockLen);
      CeilDivAtMost(len, blockLen, 65535);
      CeilDivAtMost(len, blockLen, 0);
      CeilDivAtMost(len, blockLen, k);
      CeilDivAtMost(len, blockLen, k - 1);
    }
  }

  /** What a receiver answers to the parameters in a header. */
  lemma ReceiverAnswers(k: nat, blockLen: nat, totalLen: nat)
    ensures var r := Refusal(k, blockLen, totalLen);
            if k == 0 || blockLen == 0 || totalLen == 0 || k > 65535 || blockLen > 65535 then r == Some(InvalidStream)
            else if totalLen > 67_240_062 then r == Some(TooLarge(totalLen, 67_240_062))
            else if (k - 1) * blockLen < totalLen <= k * blockLen then r == None
            else r == Some(InvalidStream)
  {
    hide CeilDiv;
    if k > 0 && blockLen > 0 {
      CeilDivAtMost(totalLen, blockLen, k);
      CeilDivAtMost(totalLen, blockLen, k - 1);
    }
  }

  /* ---------- the bytes of a frame ---------- */

  /** Byte `j` of source block `b`: the payload, continued by zeros. */
  function SourceByte(payload: seq<bv8>, blockLen: nat, b: nat, j: nat): bv8 {
    if b * blockLen + j < |payload| then payload[b * blockLen + j] else 0
  }

  /** Byte `j` of the exclusive-or of the listed blocks. */
  function XorByte(payload: seq<bv8>, blockLen: nat, blocks: seq<nat>, j: nat): bv8 {
    if blocks == [] then 0
    else XorByte(payload, blockLen, blocks[..|blocks| - 1], j) ^ SourceByte(payload, blockLen, blocks[|blocks| - 1], j)
  }

  lemma ByteOfSum(a: Block, b: Block, j: nat)
    requires |a| == |b| && j < 4 * |a|
    ensures BytesOf(Words.Xor(a, b))[j] == BytesOf(a)[j] ^ BytesOf(b)[j]
  {
    hide Words.ByteOf, BytesOf, Words.Xor;
    ByteAt(a, j);
    ByteAt(b, j);
    ByteAt(Words.Xor(a, b), j);
    XorAt(a, b, j / 4, j % 4);
  }

  lemma XorAt(a: Block, b: Block, i: nat, n: nat)
    requires |a| == |b| && i < |a| && n < 4
    ensures Words.ByteOf(Words.Xor(a, b)[i], n) == Words.ByteOf(a[i], n) ^ Words.ByteOf(b[i], n)
  {
    hide Words.ByteOf, Words.Xor;
    WordAt(a, b, i);
    WordBytes(a[i], b[i], Words.Xor(a, b)[i], n);
  }

  lemma ByteAt(ws: Block, j: nat)
    requires j < 4 * |ws|
    ensures BytesOf(ws)[j] == Words.ByteOf(ws[j / 4], j % 4)
  {
  }

  lemma WordAt(a: Block, b: Block, i: nat)
    requires |a| == |b| && i < |a|
    ensures Words.Xor(a, b)[i] == a[i] ^ b[i]
  {
  }

  lemma WordBytes(u: bv32, v: bv32, w: bv32, n: nat)
    requires n < 4 && w == u ^ v
    ensures Words.ByteOf(w, n) == Words.ByteOf(u, n) ^ Words.ByteOf(v, n)
  {
    ByteOfXor(u, v, n);
  }

  lemma ByteOfZeros(w: nat, j: nat)
    requires j < 4 * w
    ensures BytesOf(Zeros(w))[j] == 0
  {
  }

  lemma ByteOfBlock(cfg: Config, payload: seq<bv8>, b: nat, j: nat)
    requires ConfigOk(cfg) && |payload| == cfg.totalLen && b < cfg.k && j < cfg.blockLen
    ensures BytesOf(SourceOf(cfg, payload)[b])[j] == SourceByte(payload, cfg.blockLen, b, j)
  {
    hide CeilDiv, WordsOf, BytesOf;
    Extent(cfg, b);
    BytesOfWordsOf(Chunk(cfg, payload, b), WordCount(cfg), j);
  }

  /** Byte `j` of an encoded frame is the exclusive-or of byte `j` of its blocks. */
  lemma {:induction false} ByteOfBlocks(cfg: Config, payload: seq<bv8>, blocks: seq<nat>, j: nat)
    requires ConfigOk(cfg) && |payload| == cfg.totalLen && j < cfg.blockLen && Distinct(blocks) && AllBelow(blocks, cfg.k)
    ensures BytesOf(Sum(SourceOf(cfg, payload), Members(blocks), WordCount(cfg)))[j] == XorByte(payload, cfg.blockLen, blocks, j)
  {
    hide SourceOf, BytesOf, Sum, ConfigOk, Words.Xor, WordCount;
    var x, w := SourceOf(cfg, payload), WordCount(cfg);
    if blocks == [] {
      SumEmpty(x, w);
      ByteOfZeros(w, j);
      assert Members(blocks) == {};
    } else {
      var n := |blocks| - 1;
      NextMember(blocks, n, cfg.k);
      assert blocks[..n + 1] == blocks;
      ByteOfBlocks(cfg, payload, blocks[..n], j);
      SumAdd(x, Members(blocks[..n]), blocks[n], w);
      ByteOfSum(Sum(x, Members(blocks[..n]), w), x[blocks[n]], j);
      ByteOfBlock(cfg, payload, blocks[n], j);
    }
  }

  /** The blocks that a frame combines, by the flags of its stream. */
  lemma FrameBytes(s: Stream, q: u32, j: nat)
    requires StreamOk(s) && j < s.blockLen
    ensures |FrameAt(s, q).block| == s.blockLen
    ensures FrameAt(s, q).block[j] == XorByte(s.payload, s.blockLen, Indices(StreamConfig(s), q), j)
  {
    hide SourceOf, BytesOf, Sum, CheckedK;
    ByteOfBlocks(StreamConfig(s), s.payload, Indices(StreamConfig(s), q), j);
  }

  /** With flags 2, frame 0 is block 0 and frame `q < k` the exclusive-or of blocks `q - 1` and `q`. */
  lemma CausalBytes(s: Stream, q: u32, j: nat)
    requires StreamOk(s) && s.flags == 2 && q < StreamK(s) && j < s.blockLen
    ensures |FrameAt(s, q).block| == s.blockLen
    ensures FrameAt(s, q).block[j] ==
            if q == 0 then SourceByte(s.payload, s.blockLen, 0, j)
            else SourceByte(s.payload, s.blockLen, q - 1, j) ^ SourceByte(s.payload, s.blockLen, q, j)
  {
    hide CheckedK, FrameAt, SourceByte;
    FrameBytes(s, q, j);
    XorByteOne(s.payload, s.blockLen, q, j);
    if q > 0 {
      XorByteOne(s.payload, s.blockLen, q - 1, j);
      assert [q - 1, q][..1] == [q - 1];
    }
  }

  lemma XorByteOne(payload: seq<bv8>, blockLen: nat, b: nat, j: nat)
    ensures XorByte(payload, blockLen, [b], j) == SourceByte(payload, blockLen, b, j)
  {
    assert [b][..0] == [];
  }

  /** With flags 1, frame `q < k` is block `q`. */
  lemma SystematicBytes(s: Stream, q: u32, j: nat)
    requires StreamOk(s) && s.flags == 1 && q < StreamK(s) && j < s.blockLen
    ensures |FrameAt(s, q).block| == s.blockLen
    ensures FrameAt(s, q).block[j] == SourceByte(s.payload, s.blockLen, q, j)
  {
    hide CheckedK, FrameAt, SourceByte;
    FrameBytes(s, q, j);
    XorByteOne(s.payload, s.blockLen, q, j);
  }

  /** With flags 0, and with any flags from number `k` on, a frame combines the blocks its subset selects. */
  lemma RepairBytes(s: Stream, q: u32, j: nat)
    requires StreamOk(s) && (s.flags == 0 || q >= StreamK(s)) && j < s.blockLen
    ensures |FrameAt(s, q).block| == s.blockLen
    ensures FrameAt(s, q).block[j] ==
            XorByte(s.payload, s.blockLen, IndicesFrom(Cdf(s.libm, StreamK(s)), s.session, q), j)
  {
    hide CheckedK, FrameAt, IndicesFrom;
    FrameBytes(s, q, j);
  }

  /** The whole frame on the wire. */
  lemma WireLayout(s: Stream, q: u32)
    requires StreamOk(s)
    ensures var p := Wire(s, q);
            && |p| == 25 + s.blockLen && p[0] == 0xd1 && p[1] == 0x0f && p[2] as nat == s.flags
            && Le16(p, 3) == s.session && Le32(p, 5) == q && Le16(p, 9) == StreamK(s) && Le16(p, 11) == s.blockLen
            && Le32(p, 13) == |s.payload| && Le32(p, 17) == s.tag(s.payload)
            && Le32(p, 21) == s.tag(p[2..21] + p[25..]) && p[25..] == FrameAt(s, q).block
  {
    hide Encoded, Packed, Le16, Le32, CheckedK;
    StreamFits(s);
    var m := FrameAt(s, q);
    Layout(s.tag, m.header, m.block);
    Retag(Untagged(s, q), m.header);
  }

  /* ---------- what a receiver makes of a header ---------- */

  /** Flags 2 stand for a causal first phase of `k` frames, 1 for a direct one, 0 for none. */
  lemma ModeOfFlags(libm: Libm, id: Identity)
    ensures var cfg := IdentityConfig(libm, id);
            && cfg.k == id.k && cfg.blockLen == id.blockLen && cfg.session == id.session && cfg.totalLen == id.totalLen
            && cfg.libm == libm
            && (id.flags == 2 ==> cfg.sysSpan == id.k && cfg.causal)
            && (id.flags == 1 ==> cfg.sysSpan == id.k && !cfg.causal)
            && (id.flags == 0 ==> cfg.sysSpan == 0)
  {
  }

  /** A receiver that refuses bytes does not change: those that do not parse, those of another stream than the one it
      is locked to, and to an idle receiver those of a stream that exceeds any one of its three limits. */
  lemma Refused(tag: Tag, libm: Libm, limits: Limits, s: State, bytes: seq<bv8>, s': State, r: Result<Option<seq<bv8>>>)
    requires StateOk(libm, s) && Pushed(tag, libm, limits, s, bytes, s', r)
    ensures ParseFrame(tag, bytes).None? ==> r == Err(CorruptFrame) && s' == s
    ensures ParseFrame(tag, bytes).Some? ==>
              var h := ParseFrame(tag, bytes).value.0;
              && (s.Active? && (h.flags != s.id.flags || h.session != s.id.session || h.k != s.id.k || h.blockLen != s.id.blockLen
                                || h.totalLen != s.id.totalLen || h.streamTag != s.id.streamTag)
                  ==> r == Err(StreamConflict) && s' == s)
              && (s.Idle? && (h.totalLen > limits.maxStreamBytes || h.k > limits.maxSourceBlocks || h.blockLen > limits.maxBlockLen)
                  ==> r == Err(ResourceLimit) && s' == Idle)
  {
    hide ParseFrame, Fed, Concluded, StateOk, IdentityRefusal;
  }

  /** So it does for a stream whose parameters no sender uses. */
  lemma RefusedParameters(tag: Tag, libm: Libm, limits: Limits, bytes: seq<bv8>, s': State, r: Result<Option<seq<bv8>>>)
    requires Pushed(tag, libm, limits, Idle, bytes, s', r) && ParseFrame(tag, bytes).Some?
    requires var h := ParseFrame(tag, bytes).value.0;
             h.totalLen <= limits.maxStreamBytes && h.k <= limits.maxSourceBlocks && h.blockLen <= limits.maxBlockLen
    ensures var h := ParseFrame(tag, bytes).value.0;
            && (h.totalLen > 67_240_062 ==> r == Err(TooLarge(h.totalLen, 67_240_062)) && s' == Idle)
            && (h.totalLen <= 67_240_062 && !((h.k - 1) * h.blockLen < h.totalLen <= h.k * h.blockLen)
                ==> r == Err(InvalidStream) && s' == Idle)
  {
    hide ParseFrame, Fed, Concluded, Refusal;
    var h := ParseFrame(tag, bytes).value.0;
    PackParse(tag, bytes);
    ReceiverAnswers(h.k, h.blockLen, h.totalLen);
  }

  /** Every other parsable frame is taken: it opens its stream or reaches the decoder that is already there, and only a
      container with the wrong tag ends the stream. */
  lemma Taken(tag: Tag, libm: Libm, limits: Limits, s: State, bytes: seq<bv8>, s': State, r: Result<Option<seq<bv8>>>)
    requires StateOk(libm, s) && Pushed(tag, libm, limits, s, bytes, s', r) && ParseFrame(tag, bytes).Some?
    requires var id := Frame.StreamIdentity(ParseFrame(tag, bytes).value.0);
             if s.Active? then id == s.id
             else
               && id.totalLen <= limits.maxStreamBytes && id.k <= limits.maxSourceBlocks && id.blockLen <= limits.maxBlockLen
               && id.totalLen <= 67_240_062 && (id.k - 1) * id.blockLen < id.totalLen <= id.k * id.blockLen
    ensures var id := Frame.StreamIdentity(ParseFrame(tag, bytes).value.0);
            && (s'.Active? ==> s'.id == id && r.Ok? && (Delivers(r) <==> s'.delivered && !(s.Active? && s.delivered)))
            && (s'.Idle? ==> r == Err(CorruptFrame))
  {
    hide ParseFrame, Fed, StateOk, Refusal, Recovers, Complete, SystemOk;
    var h := ParseFrame(tag, bytes).value.0;
    PackParse(tag, bytes);
    ReceiverAnswers(h.k, h.blockLen, h.totalLen);
  }

  /** Over any channel, a stream that a receiver is locked to is within the limits and consistent. */
  lemma {:induction false} LimitsKept(tag: Tag, libm: Libm, limits: Limits, h: History, i: nat)
    requires IsHistory(tag, libm, limits, h) && i < |h.states| && h.states[i].Active?
    ensures var id := h.states[i].id;
            && id.totalLen <= limits.maxStreamBytes && id.k <= limits.maxSourceBlocks && id.blockLen <= limits.maxBlockLen
            && 0 < id.k && (id.k - 1) * id.blockLen < id.totalLen <= id.k * id.blockLen
  {
    hide ParseFrame, Pushed, StateOk, IdentityRefusal;
    if i > 0 {
      assert Pushed(tag, libm, limits, h.states[i - 1], h.inputs[i - 1], h.states[i], h.results[i - 1]);
      if h.states[i - 1].Active? {
        LimitsKept(tag, libm, limits, h, i - 1);
        DeliveredIsTagged(tag, libm, limits, h.states[i - 1], h.inputs[i - 1], h.states[i], h.results[i - 1]);
      } else {
        OpenedWithin(tag, libm, limits, h.inputs[i - 1], h.states[i], h.results[i - 1]);
      }
    }
  }

  lemma OpenedWithin(tag: Tag, libm: Libm, limits: Limits, bytes: seq<bv8>, s': State, r: Result<Option<seq<bv8>>>)
    requires Pushed(tag, libm, limits, Idle, bytes, s', r) && s'.Active?
    ensures s'.id.totalLen <= limits.maxStreamBytes && s'.id.k <= limits.maxSourceBlocks && s'.id.blockLen <= limits.maxBlockLen
    ensures 0 < s'.id.k && (s'.id.k - 1) * s'.id.blockLen < s'.id.totalLen <= s'.id.k * s'.id.blockLen
  {
    hide ParseFrame, Fed, Complete, SystemOk, Recovers, Refusal;
    ReceiverAnswers(s'.id.k, s'.id.blockLen, s'.id.totalLen);
  }
}
