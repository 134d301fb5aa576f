/** The fountain code as mathematics: which blocks a sequence number combines,
    what an honest encoder sends, and a reference decoder that works on the set
    of accepted equations only (src/fountain.rs). */
module Codec {
  import opened Common
  import opened Words
  import opened Sets
  import opened Modular
  import opened Soliton
  import opened Selection
  import opened Capacity
  import opened Peeling
  import opened Equations

  /** The stream parameters shared by encoder and decoder.  `sysSpan` is the length of the first phase:
      `k`, or 0 for pure robust-soliton coding. */
  datatype Config = Config(k: nat, blockLen: nat, session: u32, totalLen: nat, sysSpan: nat, causal: bool, libm: Libm)

  predicate ConfigOk(cfg: Config) {
    && 0 < cfg.k <= MAX_SOURCE_BLOCKS && 0 < cfg.blockLen <= U16_MAX && 0 < cfg.totalLen <= MAX_STREAM_BYTES
    && cfg.k == CeilDiv(cfg.totalLen, cfg.blockLen)
    && (cfg.sysSpan == 0 || cfg.sysSpan == cfg.k)
  }

  /** Why a decoder refuses stream parameters, in the order of its tests. */
  function Refusal(k: nat, blockLen: nat, totalLen: nat): Option<Error> {
    if k == 0 || blockLen == 0 || totalLen == 0 then Some(InvalidStream)
    else if k > MAX_SOURCE_BLOCKS || blockLen > U16_MAX then Some(InvalidStream)
    else if totalLen > MAX_STREAM_BYTES then Some(TooLarge(totalLen, MAX_STREAM_BYTES))
    else if k != CeilDiv(totalLen, blockLen) then Some(InvalidStream)
    else None
  }

  /** Why an encoder refuses a payload, in the order of its tests; otherwise the number of blocks. */
  function CheckedK(len: nat, blockLen: nat): Result<nat> {
    if len == 0 then Err(Empty)
    else if blockLen == 0 || blockLen > U16_MAX then Err(InvalidStream)
    else if len > MAX_STREAM_BYTES then Err(TooLarge(len, MAX_STREAM_BYTES))
    else
      var k := CeilDiv(len, blockLen);
      if k == 0 || k > MAX_SOURCE_BLOCKS then Err(InvalidStream) else Ok(k)
  }

  /** A decoder accepts exactly the parameters that some encoder uses: its own `k` check is `ceil(total / block)`. */
  lemma DecoderAcceptsEncoder(k: nat, blockLen: nat, totalLen: nat)
    ensures Refusal(k, blockLen, totalLen) == None <==> CheckedK(totalLen, blockLen) == Ok(k)
  {
    if blockLen > 0 && totalLen > 0 {
      CeilDivAtMost(totalLen, blockLen, 0);
    }
  }

  /** Words per block: `block_len.div_ceil(4)`. */
  function WordCount(cfg: Config): (w: nat)
    ensures cfg.blockLen <= 4 * w < cfg.blockLen + 4
  {
    (cfg.blockLen + 3) / 4
  }

  lemma ConfigFacts(cfg: Config)
    requires ConfigOk(cfg)
    ensures 0 < cfg.k <= MAX_SOURCE_BLOCKS && 0 < cfg.blockLen <= U16_MAX && WordCount(cfg) > 0
  {
  }

  /** The blocks that sequence number `q` combines. */
  ghost function Indices(cfg: Config, q: u32): (r: seq<nat>)
    requires ConfigOk(cfg)
    ensures r != [] && Distinct(r) && AllBelow(r, cfg.k)
  {
    if q < cfg.sysSpan then
      if cfg.causal && q > 0 then [q - 1, q] else [q]
    else
      IndicesFrom(Cdf(cfg.libm, cfg.k), cfg.session, q)
  }

  ghost function IndexSet(cfg: Config, q: u32): (r: set<nat>)
    requires ConfigOk(cfg)
    ensures r != {} && r <= Below(cfg.k)
  {
    assert Indices(cfg, q)[0] in Members(Indices(cfg, q));
    Members(Indices(cfg, q))
  }

  /* ---------- payload, blocks and frames ---------- */

  /** Where block `b` starts in the payload. */
  function Start(cfg: Config, b: nat): nat {
    if b == 0 then 0 else Start(cfg, b - 1) + cfg.blockLen
  }

  lemma {:induction false} StartIsProduct(cfg: Config, b: nat)
    ensures Start(cfg, b) == b * cfg.blockLen
  {
    if b > 0 {
      StartIsProduct(cfg, b - 1);
      assert b * cfg.blockLen == (b - 1) * cfg.blockLen + cfg.blockLen;
    }
  }

  /** The bytes of the payload that belong to block `b`; the last block may be shorter. */
  function Span(cfg: Config, b: nat): (n: nat)
    requires ConfigOk(cfg) && b < cfg.k
    ensures Start(cfg, b) + n <= cfg.totalLen && 0 < n <= cfg.blockLen
    ensures b + 1 < cfg.k ==> n == cfg.blockLen
    ensures b + 1 == cfg.k ==> Start(cfg, b) + n == cfg.totalLen
  {
    BlockStarts(cfg, b);
    var rest := cfg.totalLen - Start(cfg, b);
    if cfg.blockLen <= rest then cfg.blockLen else rest
  }

  lemma BlockStarts(cfg: Config, b: nat)
    requires ConfigOk(cfg) && b < cfg.k
    ensures Start(cfg, b) < cfg.totalLen
    ensures b + 1 < cfg.k ==> Start(cfg, b) + cfg.blockLen < cfg.totalLen
    ensures b + 1 == cfg.k ==> cfg.totalLen <= Start(cfg, b) + cfg.blockLen
  {
    CeilDivAtMost(cfg.totalLen, cfg.blockLen, b);
    CeilDivAtMost(cfg.totalLen, cfg.blockLen, b + 1);
    StartIsProduct(cfg, b);
    StartIsProduct(cfg, b + 1);
  }

  /** The source vector of a payload: its blocks, zero-padded to whole words. */
  ghost function SourceOf(cfg: Config, payload: seq<bv8>): (x: seq<Block>)
    requires ConfigOk(cfg) && |payload| == cfg.totalLen
    ensures IsSource(x, cfg.k, WordCount(cfg))
  {
    seq(cfg.k, b requires 0 <= b < cfg.k => WordsOf(Chunk(cfg, payload, b), WordCount(cfg)))
  }

  function Chunk(cfg: Config, payload: seq<bv8>, b: nat): (r: seq<bv8>)
    requires ConfigOk(cfg) && |payload| == cfg.totalLen && b < cfg.k
    ensures |r| == Span(cfg, b)
  {
    var n := Span(cfg, b);
    payload[Start(cfg, b)..Start(cfg, b) + n]
  }

  /** What an honest encoder sends for sequence number `q`. */
  ghost function Encoded(cfg: Config, payload: seq<bv8>, q: u32): (r: seq<bv8>)
    requires ConfigOk(cfg) && |payload| == cfg.totalLen
    ensures |r| == cfg.blockLen
  {
    BytesOf(Sum(SourceOf(cfg, payload), IndexSet(cfg, q), WordCount(cfg)))[..cfg.blockLen]
  }

  lemma SourcePadded(cfg: Config, payload: seq<bv8>)
    requires ConfigOk(cfg) && |payload| == cfg.totalLen
    ensures forall b {:trigger SourceOf(cfg, payload)[b]} :: 0 <= b < cfg.k ==> ZeroPadded(SourceOf(cfg, payload)[b], cfg.blockLen)
  {
    forall b {:trigger SourceOf(cfg, payload)[b]} | 0 <= b < cfg.k
      ensures ZeroPadded(SourceOf(cfg, payload)[b], cfg.blockLen)
    {
      BytesRoundTrip(Chunk(cfg, payload, b), WordCount(cfg));
    }
  }

  /** Padding to words and truncating to bytes lose nothing on the wire: the receiver reads back the XOR. */
  lemma EncodedMeansSum(cfg: Config, payload: seq<bv8>, q: u32)
    requires ConfigOk(cfg) && |payload| == cfg.totalLen
    ensures WordsOf(Encoded(cfg, payload, q), WordCount(cfg)) == Sum(SourceOf(cfg, payload), IndexSet(cfg, q), WordCount(cfg))
  {
    var x, w := SourceOf(cfg, payload), WordCount(cfg);
    SourcePadded(cfg, payload);
    SumToZeroPadded(x, IndexSet(cfg, q), |x|, w, cfg.blockLen);
    WordsRoundTrip(Sum(x, IndexSet(cfg, q), w), cfg.blockLen);
  }

  /** The bytes of the first `n` blocks of `x`, each cut to its span. */
  ghost function Join(cfg: Config, x: seq<Block>, n: nat): (r: seq<bv8>)
    requires ConfigOk(cfg) && IsSource(x, cfg.k, WordCount(cfg)) && n <= cfg.k
    ensures |r| == if n == 0 then 0 else Start(cfg, n - 1) + Span(cfg, n - 1)
  {
    if n == 0 then []
    else Join(cfg, x, n - 1) + BytesOf(x[n - 1])[..Span(cfg, n - 1)]
  }

  /** Where block `b` lies in the payload, as the sources compute it. */
  lemma Extent(cfg: Config, b: nat)
    requires ConfigOk(cfg) && b < cfg.k
    ensures b * cfg.blockLen == Start(cfg, b) < cfg.totalLen
    ensures Span(cfg, b) == Min(cfg.blockLen, cfg.totalLen - Start(cfg, b))
  {
    StartIsProduct(cfg, b);
    BlockStarts(cfg, b);
  }

  /** `out` starts with the first `b` blocks of `x`. */
  ghost predicate Joined(cfg: Config, x: seq<Block>, b: nat, out: seq<bv8>)
    requires ConfigOk(cfg) && IsSource(x, cfg.k, WordCount(cfg)) && b <= cfg.k
  {
    Join(cfg, x, b) <= out
  }

  lemma NothingJoined(cfg: Config, x: seq<Block>, out: seq<bv8>)
    requires ConfigOk(cfg) && IsSource(x, cfg.k, WordCount(cfg))
    ensures Joined(cfg, x, 0, out)
  {
  }

  /** Copying block `b` to its place. */
  lemma JoinStep(cfg: Config, x: seq<Block>, b: nat, out: seq<bv8>)
    requires ConfigOk(cfg) && IsSource(x, cfg.k, WordCount(cfg)) && b < cfg.k
    requires |out| == cfg.totalLen && Joined(cfg, x, b, out)
    ensures Joined(cfg, x, b + 1, out[..Start(cfg, b)] + BytesOf(x[b])[..Span(cfg, b)] + out[Start(cfg, b) + Span(cfg, b)..])
  {
    hide BytesOf, CeilDiv, Span, Join, Start, ConfigOk, WordCount;
    JoinNext(cfg, x, b);
    Overwrite(Join(cfg, x, b), out, BytesOf(x[b])[..Span(cfg, b)]);
  }

  lemma JoinNext(cfg: Config, x: seq<Block>, b: nat)
    requires ConfigOk(cfg) && IsSource(x, cfg.k, WordCount(cfg)) && b < cfg.k
    ensures |Join(cfg, x, b)| == Start(cfg, b) && Span(cfg, b) <= 4 * |x[b]|
    ensures Start(cfg, b) + Span(cfg, b) <= cfg.totalLen
    ensures Join(cfg, x, b + 1) == Join(cfg, x, b) + BytesOf(x[b])[..Span(cfg, b)]
  {
    hide BytesOf, CeilDiv, Span;
  }

  lemma Overwrite(done: seq<bv8>, out: seq<bv8>, piece: seq<bv8>)
    requires done <= out && |done| + |piece| <= |out|
    ensures done + piece <= out[..|done|] + piece + out[|done| + |piece|..]
  {
  }

  lemma JoinDone(cfg: Config, x: seq<Block>, out: seq<bv8>)
    requires ConfigOk(cfg) && IsSource(x, cfg.k, WordCount(cfg))
    requires |out| == cfg.totalLen && Joined(cfg, x, cfg.k, out)
    ensures out == Join(cfg, x, cfg.k)
  {
    assert |Join(cfg, x, cfg.k)| == |out|;
  }

  /** Cutting a payload into padded blocks and joining them again is the identity. */
  lemma JoinSource(cfg: Config, payload: seq<bv8>)
    requires ConfigOk(cfg) && |payload| == cfg.totalLen
    ensures Join(cfg, SourceOf(cfg, payload), cfg.k) == payload
  {
    JoinPrefix(cfg, payload, cfg.k);
    assert payload[..|payload|] == payload;
  }

  lemma {:induction false} JoinPrefix(cfg: Config, payload: seq<bv8>, n: nat)
    requires ConfigOk(cfg) && |payload| == cfg.totalLen && 0 < n <= cfg.k
    ensures Join(cfg, SourceOf(cfg, payload), n) == payload[..Start(cfg, n - 1) + Span(cfg, n - 1)]
  {
    hide SourceOf, BytesOf, IsSource, CeilDiv, WordCount;
    var x, b := SourceOf(cfg, payload), n - 1;
    BlockBytes(cfg, payload, b);
    if b > 0 {
      JoinPrefix(cfg, payload, b);
      assert Start(cfg, b) == Start(cfg, b - 1) + Span(cfg, b - 1);
    } else {
      assert Join(cfg, x, 0) == [];
    }
    assert Join(cfg, x, b) == payload[..Start(cfg, b)];
    Extend(payload, Start(cfg, b), Span(cfg, b));
  }

  lemma BlockBytes(cfg: Config, payload: seq<bv8>, b: nat)
    requires ConfigOk(cfg) && |payload| == cfg.totalLen && b < cfg.k
    ensures BytesOf(SourceOf(cfg, payload)[b])[..Span(cfg, b)] == Chunk(cfg, payload, b)
  {
    BytesRoundTrip(Chunk(cfg, payload, b), WordCount(cfg));
  }

  lemma Extend(s: seq<bv8>, i: nat, n: nat)
    requires i + n <= |s|
    ensures s[..i] + s[i..i + n] == s[..i + n]
  {
  }

  /* ---------- the reference decoder ---------- */

  /** The decoder's observable state: accepted equations, arena slots and adjacency entries charged to
      the budgets, and the counters. */
  datatype Abs = Abs(acc: System, stored: nat, edges: nat, duplicates: nat, dropped: nat)

  const EMPTY_ABS: Abs := Abs(map[], 0, 0, 0, 0)

  /** Every accepted equation has the index set of its sequence number. */
  ghost predicate SystemOk(cfg: Config, sys: System)
    requires ConfigOk(cfg)
  {
    forall q :: q in sys ==> q < MODULUS && sys[q].idx == IndexSet(cfg, q) && |sys[q].rhs| == WordCount(cfg)
  }

  lemma FamilyWithin(cfg: Config, sys: System)
    requires ConfigOk(cfg) && SystemOk(cfg, sys)
    ensures Within(FamilyOf(sys), cfg.k)
  {
  }

  /** What peeling determines from the accepted equations, in no particular order. */
  ghost function Solved(cfg: Config, sys: System): (r: set<nat>)
    requires ConfigOk(cfg) && SystemOk(cfg, sys)
    ensures r <= Below(cfg.k)
  {
    FamilyWithin(cfg, sys);
    Peel(FamilyOf(sys), cfg.k)
  }

  ghost predicate Complete(cfg: Config, sys: System)
    requires ConfigOk(cfg) && SystemOk(cfg, sys)
  {
    Solved(cfg, sys) == Below(cfg.k)
  }

  /** Blocks of frame `q` that are still unknown, and what the frame would charge to the edge budget. */
  ghost function Unsolved(cfg: Config, sys: System, q: u32): nat
    requires ConfigOk(cfg) && SystemOk(cfg, sys)
  {
    |IndexSet(cfg, q) - Solved(cfg, sys)|
  }

  ghost function NewEdges(cfg: Config, sys: System, q: u32): nat
    requires ConfigOk(cfg) && SystemOk(cfg, sys)
  {
    if Unsolved(cfg, sys, q) > 1 then Unsolved(cfg, sys, q) else 0
  }

  /** The resource test; it is applied to redundant frames as well. */
  ghost predicate OverBudget(cfg: Config, a: Abs, q: u32)
    requires ConfigOk(cfg) && SystemOk(cfg, a.acc)
  {
    a.stored + 1 > 4 * cfg.k || a.edges + NewEdges(cfg, a.acc, q) > 64 * cfg.k
  }

  ghost function Accept(cfg: Config, a: Abs, q: u32, block: seq<bv8>): Abs
    requires ConfigOk(cfg) && SystemOk(cfg, a.acc)
  {
    a.(acc := a.acc[q := Equation(IndexSet(cfg, q), WordsOf(block, WordCount(cfg)))],
       stored := a.stored + (if Unsolved(cfg, a.acc, q) > 0 then 1 else 0),
       edges := a.edges + NewEdges(cfg, a.acc, q))
  }

  /** One frame, as the source's `add_frame` treats it. */
  ghost function Step(cfg: Config, a: Abs, q: u32, block: seq<bv8>): (r: Abs)
    requires ConfigOk(cfg) && SystemOk(cfg, a.acc)
    ensures SystemOk(cfg, r.acc)
  {
    if |block| != cfg.blockLen then a.(dropped := a.dropped + 1)
    else if Complete(cfg, a.acc) then a
    else if q in a.acc then a.(duplicates := a.duplicates + 1)
    else if OverBudget(cfg, a, q) then a.(dropped := a.dropped + 1)
    else Accept(cfg, a, q, block)
  }
}
