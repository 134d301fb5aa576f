/** Frame-capacity arithmetic (src/capacity.rs).  Sizes are unbounded; the
    source's `saturating_add` on 64-bit sizes is not reached by any buffer. */
module Capacity {
  import opened Common
  import Modular

  function CeilDiv(a: nat, b: nat): nat
    requires b > 0
  {
    (a + b - 1) / b
  }

  /** Rounding up is the lower adjoint of multiplication. */
  lemma CeilDivAtMost(a: nat, b: nat, n: nat)
    requires b > 0
    ensures CeilDiv(a, b) <= n <==> a <= n * b
  {
    var q := CeilDiv(a, b);
    var r := (a + b - 1) % b;
    assert a + b - 1 == b * q + r;
    Modular.TimesKeepsOrder(q, n, b);
    Modular.TimesKeepsOrder(n, q, b);
  }

  function BlockLength(frameBytes: nat): Option<nat> {
    if frameBytes < HEADER_LEN then None
    else if 0 < frameBytes - HEADER_LEN <= U16_MAX then Some(frameBytes - HEADER_LEN)
    else None
  }

  function SourceBlockCount(payload: nat, frameBytes: nat): Option<nat> {
    match BlockLength(frameBytes)
    case None => None
    case Some(blockLen) => Some(CeilDiv(payload, blockLen))
  }

  predicate FitsInOneStream(payload: nat, frameBytes: nat) {
    match SourceBlockCount(payload, frameBytes)
    case None => false
    case Some(blocks) => 0 < blocks <= MAX_SOURCE_BLOCKS
  }

  function MinimumFrameBytes(payload: nat): nat {
    var blockLen := CeilDiv(payload, MAX_SOURCE_BLOCKS);
    (if blockLen > 1 then blockLen else 1) + HEADER_LEN
  }

  predicate Usable(payload: nat, v: nat) {
    v >= MinimumFrameBytes(payload) && BlockLength(v).Some?
  }

  /** The smallest usable option: the source's filter-and-minimum chain. */
  function SmallestSufficientFrameSize(payload: nat, options: seq<nat>): Option<nat> {
    if options == [] then None
    else
      var best := SmallestSufficientFrameSize(payload, options[..|options| - 1]);
      var v := options[|options| - 1];
      if Usable(payload, v) && (best.None? || v < best.value) then Some(v) else best
  }

  /** The filter uses only the minimum, yet for a nonempty payload it admits exactly the frame sizes whose
      block count fits 16 bits; an empty payload fits no stream at all. */
  lemma UsableIsFitting(payload: nat, v: nat)
    ensures FitsInOneStream(payload, v) <==> payload > 0 && Usable(payload, v)
  {
    if BlockLength(v).Some? {
      var b := v - HEADER_LEN;
      CeilDivAtMost(payload, b, MAX_SOURCE_BLOCKS);
      CeilDivAtMost(payload, MAX_SOURCE_BLOCKS, b);
      CeilDivAtMost(payload, b, 0);
    }
  }

  /** In numbers: a frame leaves at most 65535 bytes beyond its 25-byte header, and a stream has at most 65535 frames' worth
      of them. */
  lemma FitsExactlyWhen(payload: nat, v: nat)
    ensures FitsInOneStream(payload, v) <==> 25 < v <= 25 + 65535 && 0 < payload <= 65535 * (v - 25)
  {
    if BlockLength(v).Some? {
      CeilDivAtMost(payload, v - 25, 65535);
      CeilDivAtMost(payload, v - 25, 0);
    }
  }

  /** `r` is the least option for which the payload fits one stream; `None` when there is none. */
  ghost predicate LeastFitting(payload: nat, options: seq<nat>, r: Option<nat>) {
    match r
    case None => forall v :: v in options ==> !FitsInOneStream(payload, v)
    case Some(b) => b in options && FitsInOneStream(payload, b)
                    && forall v :: v in options && FitsInOneStream(payload, v) ==> b <= v
  }

  lemma {:induction false} SmallestUsable(payload: nat, options: seq<nat>)
    ensures match SmallestSufficientFrameSize(payload, options)
            case None => forall v :: v in options ==> !Usable(payload, v)
            case Some(b) => b in options && Usable(payload, b)
                            && forall v :: v in options && Usable(payload, v) ==> b <= v
  {
    if options != [] {
      var rest := options[..|options| - 1];
      SmallestUsable(payload, rest);
      assert options == rest + [options[|options| - 1]];
    }
  }

  /** The selection is right exactly when there is a payload to send or no option holds a block at all:
      for an empty payload it answers with a frame size although nothing fits. */
  lemma SmallestIsLeastFitting(payload: nat, options: seq<nat>)
    ensures LeastFitting(payload, options, SmallestSufficientFrameSize(payload, options))
            <==> payload > 0 || forall v :: v in options ==> BlockLength(v).None?
  {
    SmallestUsable(payload, options);
    forall v | v in options ensures FitsInOneStream(payload, v) <==> payload > 0 && Usable(payload, v) {
      UsableIsFitting(payload, v);
    }
    if payload == 0 {
      forall v | v in options ensures Usable(payload, v) <==> BlockLength(v).Some? {
        assert CeilDiv(0, MAX_SOURCE_BLOCKS) == 0;
      }
    }
  }

  lemma EmptyPayloadCounterexample()
    ensures SmallestSufficientFrameSize(0, [HEADER_LEN + 1]) == Some(HEADER_LEN + 1)
    ensures !FitsInOneStream(0, HEADER_LEN + 1)
  {
    assert [HEADER_LEN + 1][..0] == [];
    SmallestUsable(0, [HEADER_LEN + 1]);
    UsableIsFitting(0, HEADER_LEN + 1);
    assert CeilDiv(0, MAX_SOURCE_BLOCKS) == 0;
  }
}
