/** The fountain encoder (src/fountain.rs, `LtEncoder`): padded source blocks in
    one flat vector, and an accumulator that is overwritten for every frame. */
module Encoder {
  import opened Common
  import opened Words
  import opened Sets
  import opened Modular
  import opened Soliton
  import opened Selection
  import opened Capacity
  import opened Codec
  import opened Arena
  import Simd

  class LtEncoder {
    const cfg: Config
    const words: nat
    const blocks: seq<bv32>
    const cdf: DegreeCdf
    const acc: array<bv32>
    var idx: seq<nat>
    var idxScratch: seq<nat>
    /** What is being sent. */
    ghost const payload: seq<bv8>

    ghost predicate Valid() {
      && ConfigOk(cfg) && |payload| == cfg.totalLen && words == WordCount(cfg)
      && cdf.Valid() && cdf.cdf == Cdf(cfg.libm, cfg.k)
      && Chunked(blocks, SourceOf(cfg, payload), words)
      && acc.Length == words
    }

    constructor (cfg: Config, payload: seq<bv8>, blocks: seq<bv32>, cdf: DegreeCdf)
      requires ConfigOk(cfg) && |payload| == cfg.totalLen && cdf.Valid() && cdf.cdf == Cdf(cfg.libm, cfg.k)
      requires Chunked(blocks, SourceOf(cfg, payload), WordCount(cfg))
      ensures Valid() && this.cfg == cfg && this.payload == payload && fresh(acc)
    {
      hide ConfigOk, Cdf, Chunked, SourceOf, DegreeCdf.Valid;
      this.cfg, this.payload, this.blocks, this.cdf := cfg, payload, blocks, cdf;
      words := WordCount(cfg);
      acc := new bv32[WordCount(cfg)](_ => 0);
      idx, idxScratch := [], [];
    }

    /** The words of source block `b`. */
    lemma BlockAt(b: nat)
      requires Valid() && b < cfg.k
      ensures b * words + words <= |blocks| && blocks[b * words..b * words + words] == SourceOf(cfg, payload)[b]
    {
      hide SourceOf, ConfigOk, DegreeCdf.Valid, Cdf;
      assert HoldsAt(blocks, b * words, SourceOf(cfg, payload)[b]);
    }

    /** Sets the accumulator to the XOR of the blocks in `idx`, whatever it held before. */
    method Accumulate()
      requires Valid() && Distinct(idx) && AllBelow(idx, cfg.k)
      modifies acc
      ensures acc[..] == Sum(SourceOf(cfg, payload), Members(idx), words)
    {
      hide SourceOf, ConfigOk, DegreeCdf.Valid, Cdf, Sum, Distinct, AllBelow, Members, Xor, Chunked, WordCount;
      ghost var x := SourceOf(cfg, payload);
      forall j | 0 <= j < acc.Length { acc[j] := 0; }
      SumEmpty(x, words);
      assert acc[..] == Zeros(words);
      NoMembers(idx);
      for i := 0 to |idx|
        invariant acc[..] == Sum(x, Members(idx[..i]), words)
      {
        NextMember(idx, i, cfg.k);
        var base := idx[i] * words;
        BlockAt(idx[i]);
        SumAdd(x, Members(idx[..i]), idx[i], words);
        Simd.XorInto(acc, blocks[base..base + words]);
      }
      assert idx[..|idx|] == idx;
    }

    /** The causal combination of block `q` with its predecessor. */
    method Weave(q: u32)
      requires Valid() && 0 < q < cfg.k
      modifies acc
      ensures acc[..] == Sum(SourceOf(cfg, payload), {q - 1, q}, words)
    {
      hide SourceOf, ConfigOk, DegreeCdf.Valid, Cdf, Sum, Xor, Chunked, WordCount;
      ghost var x := SourceOf(cfg, payload);
      var current := q * words;
      assert current - words == (q - 1) * words;
      var previous := current - words;
      BlockAt(q);
      BlockAt(q - 1);
      forall j | 0 <= j < acc.Length { acc[j] := blocks[current + j]; }
      assert acc[..] == blocks[current..current + words];
      Simd.XorInto(acc, blocks[previous..previous + words]);
      SumSingle(x, q, words);
      SumAdd(x, {q}, q - 1, words);
      assert {q} + {q - 1} == {q - 1, q};
    }

    /** Writes frame `q` into `out`: exactly the bytes the fountain code assigns to it, whatever was sent before. */
    method EncodeInto(q: u32, out: array<bv8>)
      requires Valid() && out.Length == cfg.blockLen
      modifies this`idx, this`idxScratch, acc, out
      ensures out[..] == Encoded(cfg, payload, q)
    {
      hide SourceOf, DegreeCdf.Valid, Cdf, Sum, Xor, Chunked, Members, BytesOf, ConfigOk;
      ConfigFacts(cfg);
      if q < cfg.sysSpan {
        FirstPhaseSet(cfg, q);
        var current := q * words;
        if cfg.causal && q != 0 {
          Weave(q);
          CopyBytes(acc[..], out);
        } else {
          BlockAt(q);
          SumSingle(SourceOf(cfg, payload), q, words);
          CopyBytes(blocks[current..current + words], out);
        }
        return;
      }
      idx, idxScratch := FrameIndicesInto(idxScratch, cdf, cfg.session, q);
      RepairSet(cfg, q);
      Accumulate();
      CopyBytes(acc[..], out);
    }

    method Encode(q: u32) returns (block: seq<bv8>)
      requires Valid()
      modifies this`idx, this`idxScratch, acc
      ensures block == Encoded(cfg, payload, q)
    {
      var out := new bv8[cfg.blockLen](_ => 0);
      EncodeInto(q, out);
      block := out[..];
    }
  }

  lemma FirstPhaseSet(cfg: Config, q: u32)
    requires ConfigOk(cfg) && q < cfg.sysSpan
    ensures q < cfg.k && IndexSet(cfg, q) == if cfg.causal && q > 0 then {q - 1, q} else {q}
  {
  }

  lemma RepairSet(cfg: Config, q: u32)
    requires ConfigOk(cfg) && q >= cfg.sysSpan
    ensures var chosen := IndicesFrom(Cdf(cfg.libm, cfg.k), cfg.session, q);
            Distinct(chosen) && AllBelow(chosen, cfg.k) && Members(chosen) == IndexSet(cfg, q)
  {
    assert IndicesFrom(Cdf(cfg.libm, cfg.k), cfg.session, q) == Indices(cfg, q);
  }

  /** The first `out.Length` bytes of a block. */
  method CopyBytes(block: Block, out: array<bv8>)
    requires out.Length <= 4 * |block|
    modifies out
    ensures out[..] == BytesOf(block)[..out.Length]
  {
    var bytes := BytesOf(block);
    forall j | 0 <= j < out.Length { out[j] := bytes[j]; }
  }

  /** Block `b` of the payload, zero-padded to whole words; the last block may be short. */
  method CutBlock(cfg: Config, payload: seq<bv8>, b: nat) returns (padded: Block)
    requires ConfigOk(cfg) && |payload| == cfg.totalLen && b < cfg.k
    ensures padded == SourceOf(cfg, payload)[b] && |padded| == WordCount(cfg)
  {
    hide ConfigOk, WordsOf, WordCount;
    var start := b * cfg.blockLen;
    Extent(cfg, b);
    var end := Min(start + cfg.blockLen, |payload|);
    padded := WordsOf(payload[start..end], WordCount(cfg));
  }

  /** Cuts the payload into blocks, side by side in one vector. */
  method SourceBlocks(cfg: Config, payload: seq<bv8>) returns (blocks: seq<bv32>)
    requires ConfigOk(cfg) && |payload| == cfg.totalLen
    ensures Chunked(blocks, SourceOf(cfg, payload), WordCount(cfg))
  {
    hide ConfigOk, Chunked, WordCount, SourceOf, Splice;
    var words := WordCount(cfg);
    ghost var x := SourceOf(cfg, payload);
    blocks := seq(cfg.k * words, _ => 0);
    ghost var slots: seq<Block> := seq(cfg.k, _ => Zeros(words));
    ZeroChunks(blocks, slots, cfg.k, words);
    for b := 0 to cfg.k
      invariant |slots| == cfg.k && Chunked(blocks, slots, words) && slots[..b] == x[..b]
    {
      var padded := CutBlock(cfg, payload, b);
      FillSlot(blocks, slots, x, words, b);
      blocks := Splice(blocks, b * words, padded);
      slots := slots[b := padded];
    }
    assert slots == slots[..cfg.k] == x[..cfg.k] == x;
  }

  /** Overwriting slot `b` extends the part that agrees with `x`. */
  lemma FillSlot(blocks: seq<bv32>, slots: seq<Block>, x: seq<Block>, w: nat, b: nat)
    requires Chunked(blocks, slots, w) && |slots| == |x| && b < |x| && |x[b]| == w && slots[..b] == x[..b]
    ensures b * w + w <= |blocks| && Chunked(Splice(blocks, b * w, x[b]), slots[b := x[b]], w)
    ensures slots[b := x[b]][..b + 1] == x[..b + 1]
  {
    hide Chunked, Splice;
    SpliceChunk(blocks, slots, w, b, x[b]);
    assert slots[b := x[b]][..b + 1] == slots[..b] + [x[b]];
  }

  lemma ZeroChunks(blocks: seq<bv32>, slots: seq<Block>, k: nat, w: nat)
    requires |blocks| == k * w && forall i :: 0 <= i < |blocks| ==> blocks[i] == 0
    requires |slots| == k && forall s :: 0 <= s < k ==> slots[s] == Zeros(w)
    ensures Chunked(blocks, slots, w)
  {
    forall s | 0 <= s < k ensures HoldsAt(blocks, s * w, slots[s]) {
      SlotOrder(s, k, w);
    }
  }

  /** `try_with_mode`: the public constructors pass `sysSpan == k` for the causal and systematic modes. */
  method TryWithMode(payload: seq<bv8>, blockLen: nat, session: u32, systematic: bool, causal: bool, libm: Libm)
    returns (r: Result<LtEncoder>)
    ensures r.Err? <==> CheckedK(|payload|, blockLen).Err?
    ensures r.Err? ==> CheckedK(|payload|, blockLen) == Err(r.error)
    ensures r.Ok? ==> var k := CheckedK(|payload|, blockLen).value;
                      && fresh(r.value) && fresh(r.value.acc) && r.value.Valid() && r.value.payload == payload
                      && r.value.cfg == Config(k, blockLen, session, |payload|, if systematic then k else 0, causal, libm)
  {
    hide Cdf, LtEncoder.Valid, DegreeCdf.Valid, SourceOf, Chunked;
    if payload == [] {
      return Err(Empty);
    }
    if blockLen == 0 || blockLen > U16_MAX {
      return Err(InvalidStream);
    }
    if |payload| > MAX_STREAM_BYTES {
      return Err(TooLarge(|payload|, MAX_STREAM_BYTES));
    }
    var k := CeilDiv(|payload|, blockLen);
    if k == 0 || k > MAX_SOURCE_BLOCKS {
      return Err(InvalidStream);
    }
    var cfg := Config(k, blockLen, session, |payload|, if systematic then k else 0, causal, libm);
    var blocks := SourceBlocks(cfg, payload);
    var cdf := NewDegreeCdf(libm, k);
    var encoder := new LtEncoder(cfg, payload, blocks, cdf);
    r := Ok(encoder);
  }
}
