/** The wire format of one frame (src/frame.rs).  The BLAKE3 tag is an
    uninterpreted function of the tagged bytes. */
module Frame {
  import opened Common
  import opened Modular
  import opened LittleEndian

  type u8 = v: nat | v < 256
  type u16 = v: nat | v < 0x1_0000

  /** The first four bytes of a digest as a little-endian number. */
  type Tag = seq<bv8> -> u32

  const MAGIC0: bv8 := 0xd1
  const MAGIC1: bv8 := 0x0f
  const FLAG_SYSTEMATIC: u8 := 1
  const FLAG_CAUSAL: u8 := 2

  datatype Header = Header(
    flags: u8, session: u16, seqno: u32, k: u16, blockLen: u16, totalLen: u32, streamTag: u32, frameTag: u32)

  /** Everything that must stay constant over a stream; the sequence number and the frame tag are absent. */
  datatype Identity = Identity(flags: u8, session: u16, k: u16, blockLen: u16, totalLen: u32, streamTag: u32)

  function StreamIdentity(h: Header): Identity {
    Identity(h.flags, h.session, h.k, h.blockLen, h.totalLen, h.streamTag)
  }

  /* ---------- packing and parsing ---------- */

  /** The header fields that are tagged: all but the frame tag itself. */
  function Fields(h: Header): (r: seq<bv8>)
    ensures |r| == 19
  {
    [h.flags as bv8] + ToBytes(h.session, 2) + ToBytes(h.seqno, 4) + ToBytes(h.k, 2)
    + ToBytes(h.blockLen, 2) + ToBytes(h.totalLen, 4) + ToBytes(h.streamTag, 4)
  }

  /** The tag is taken over the fields and the block. */
  function FrameChecksum(tag: Tag, h: Header, block: seq<bv8>): u32 {
    tag(Fields(h) + block)
  }

  function Packed(h: Header, block: seq<bv8>): (r: seq<bv8>)
    ensures |r| == HEADER_LEN + |block|
  {
    [MAGIC0, MAGIC1] + Fields(h) + ToBytes(h.frameTag, 4) + block
  }

  method PackFrame(h: Header, block: seq<bv8>) returns (out: seq<bv8>)
    ensures out == Packed(h, block)
  {
    out := [];
    out := out + [MAGIC0];
    out := out + [MAGIC1];
    out := out + Fields(h) + ToBytes(h.frameTag, 4);
    out := out + block;
  }

  /** Reads the header fields; `s` is what follows the magic. */
  function Unfields(s: seq<bv8>): Header
    requires |s| == HEADER_LEN - 2
  {
    FieldRanges(s);
    Header(s[0] as nat, FromBytes(s[1..3]), FromBytes(s[3..7]), FromBytes(s[7..9]), FromBytes(s[9..11]),
           FromBytes(s[11..15]), FromBytes(s[15..19]), FromBytes(s[19..23]))
  }

  lemma FieldRanges(s: seq<bv8>)
    requires |s| == HEADER_LEN - 2
    ensures FromBytes(s[1..3]) < 0x1_0000 && FromBytes(s[7..9]) < 0x1_0000 && FromBytes(s[9..11]) < 0x1_0000
    ensures FromBytes(s[3..7]) < MODULUS && FromBytes(s[11..15]) < MODULUS && FromBytes(s[15..19]) < MODULUS
    ensures FromBytes(s[19..23]) < MODULUS
  {
    Powers();
    ToFromBytes(s[1..3]);
    ToFromBytes(s[3..7]);
    ToFromBytes(s[7..9]);
    ToFromBytes(s[9..11]);
    ToFromBytes(s[11..15]);
    ToFromBytes(s[15..19]);
    ToFromBytes(s[19..23]);
  }

  /** No unknown flag bits, not both modes at once. */
  predicate FlagsOk(flags: u8) {
    flags / 4 == 0 && flags % 4 != 3
  }

  function ParseFrame(tag: Tag, bytes: seq<bv8>): Option<(Header, seq<bv8>)> {
    if |bytes| <= HEADER_LEN || bytes[0] != MAGIC0 || bytes[1] != MAGIC1 then None
    else
      var h := Unfields(bytes[2..HEADER_LEN]);
      if !FlagsOk(h.flags) || h.k == 0 || h.blockLen == 0 || h.totalLen == 0 then None
      else if |bytes| != HEADER_LEN + h.blockLen then None
      else
        var block := bytes[HEADER_LEN..];
        if FrameChecksum(tag, h, block) != h.frameTag then None
        else Some((h, block))
  }

  /** A frame that a receiver may accept: consistent fields and a correct tag. */
  predicate WellFormed(tag: Tag, h: Header, block: seq<bv8>) {
    && FlagsOk(h.flags) && h.k > 0 && h.totalLen > 0
    && h.blockLen == |block| > 0
    && h.frameTag == FrameChecksum(tag, h, block)
  }

  /** Reading back what was written. */
  lemma UnfieldsFields(h: Header)
    ensures Unfields(Fields(h) + ToBytes(h.frameTag, 4)) == h
  {
    hide FromBytes, ToBytes, Power256;
    var s := Fields(h) + ToBytes(h.frameTag, 4);
    Powers();
    FieldSlices(h, s);
    ByteBack(h.flags);
    FromToBytes(h.session, 2);
    FromToBytes(h.seqno, 4);
    FromToBytes(h.k, 2);
    FromToBytes(h.blockLen, 2);
    FromToBytes(h.totalLen, 4);
    FromToBytes(h.streamTag, 4);
    FromToBytes(h.frameTag, 4);
  }

  lemma FieldSlices(h: Header, s: seq<bv8>)
    requires s == Fields(h) + ToBytes(h.frameTag, 4)
    ensures |s| == HEADER_LEN - 2 && s[0] == h.flags as bv8
    ensures s[1..3] == ToBytes(h.session, 2) && s[3..7] == ToBytes(h.seqno, 4) && s[7..9] == ToBytes(h.k, 2)
    ensures s[9..11] == ToBytes(h.blockLen, 2) && s[11..15] == ToBytes(h.totalLen, 4)
    ensures s[15..19] == ToBytes(h.streamTag, 4) && s[19..23] == ToBytes(h.frameTag, 4)
  {
    hide ToBytes;
  }

  lemma FieldsUnfields(s: seq<bv8>)
    requires |s| == HEADER_LEN - 2
    ensures Fields(Unfields(s)) + ToBytes(Unfields(s).frameTag, 4) == s
  {
    hide FromBytes, ToBytes;
    ToFromBytes(s[1..3]);
    ToFromBytes(s[3..7]);
    ToFromBytes(s[7..9]);
    ToFromBytes(s[9..11]);
    ToFromBytes(s[11..15]);
    ToFromBytes(s[15..19]);
    ToFromBytes(s[19..23]);
    assert (s[0] as nat) as bv8 == s[0];
    Pieces(s);
  }

  lemma Pieces(s: seq<bv8>)
    requires |s| == HEADER_LEN - 2
    ensures s == [s[0]] + s[1..3] + s[3..7] + s[7..9] + s[9..11] + s[11..15] + s[15..19] + s[19..23]
  {
  }

  lemma PackedParts(h: Header, block: seq<bv8>)
    ensures var p := Packed(h, block);
            p[0] == MAGIC0 && p[1] == MAGIC1 && p[2..HEADER_LEN] == Fields(h) + ToBytes(h.frameTag, 4) && p[HEADER_LEN..] == block
  {
    hide Fields, ToBytes;
  }

  /** Exactly the well-formed frames survive the wire. */
  lemma ParsePack(tag: Tag, h: Header, block: seq<bv8>)
    ensures ParseFrame(tag, Packed(h, block)) == Some((h, block)) <==> WellFormed(tag, h, block)
    ensures !WellFormed(tag, h, block) ==> ParseFrame(tag, Packed(h, block)) == None
  {
    hide Fields, ToBytes, Packed, Unfields;
    PackedParts(h, block);
    UnfieldsFields(h);
  }

  lemma Rejoined(bytes: seq<bv8>)
    requires |bytes| >= HEADER_LEN
    ensures [bytes[0], bytes[1]] + bytes[2..HEADER_LEN] + bytes[HEADER_LEN..] == bytes
  {
  }

  /** Everything the parser accepts is the packing of what it returns. */
  lemma PackParse(tag: Tag, bytes: seq<bv8>)
    ensures ParseFrame(tag, bytes).Some? ==>
              var (h, block) := ParseFrame(tag, bytes).value;
              Packed(h, block) == bytes && WellFormed(tag, h, block)
  {
    if ParseFrame(tag, bytes).Some? {
      hide Fields, ToBytes, Unfields, FrameChecksum, FlagsOk;
      FieldsUnfields(bytes[2..HEADER_LEN]);
      Rejoined(bytes);
    }
  }

  /* ---------- the layout of a frame ---------- */

  /** Where the fields of a packed frame lie, and what its tag covers. */
  lemma Layout(tag: Tag, h: Header, block: seq<bv8>)
    ensures var p := Packed(h, block);
            && |p| == 25 + |block| && p[0] == 0xd1 && p[1] == 0x0f && p[2] as nat == h.flags
            && Le16(p, 3) == h.session && Le32(p, 5) == h.seqno && Le16(p, 9) == h.k && Le16(p, 11) == h.blockLen
            && Le32(p, 13) == h.totalLen && Le32(p, 17) == h.streamTag && Le32(p, 21) == h.frameTag && p[25..] == block
            && FrameChecksum(tag, h, block) == tag(p[2..21] + p[25..])
  {
    hide Fields, ToBytes, FromBytes, Packed;
    var p := Packed(h, block);
    PackedParts(h, block);
    UnfieldsFields(h);
    LayoutOf(p);
    PackedStart(h, block);
    assert p[2..21] == p[2..25][..19] == Fields(h);
  }

  lemma PackedStart(h: Header, block: seq<bv8>)
    ensures |Packed(h, block)| == 25 + |block|
  {
  }

  /** The fields of any bytes that are long enough. */
  lemma LayoutOf(bytes: seq<bv8>)
    requires |bytes| >= 25
    ensures var h := Unfields(bytes[2..25]);
            && h.flags == bytes[2] as nat && h.session == Le16(bytes, 3) && h.seqno == Le32(bytes, 5)
            && h.k == Le16(bytes, 9) && h.blockLen == Le16(bytes, 11) && h.totalLen == Le32(bytes, 13)
            && h.streamTag == Le32(bytes, 17) && h.frameTag == Le32(bytes, 21)
  {
    hide FromBytes, Le16, Le32;
    Read16(bytes, 3);
    Read32(bytes, 5);
    Read16(bytes, 9);
    Read16(bytes, 11);
    Read32(bytes, 13);
    Read32(bytes, 17);
    Read32(bytes, 21);
    SliceOfSlice(bytes, 2, 25, 1, 3);
    SliceOfSlice(bytes, 2, 25, 3, 7);
    SliceOfSlice(bytes, 2, 25, 7, 9);
    SliceOfSlice(bytes, 2, 25, 9, 11);
    SliceOfSlice(bytes, 2, 25, 11, 15);
    SliceOfSlice(bytes, 2, 25, 15, 19);
    SliceOfSlice(bytes, 2, 25, 19, 23);
  }

  /** Exactly which bytes are accepted, and as which header: flags 0, 1 or 2, no count or length zero, the length that the
      header announces, and a tag over everything between the magic and the tag and over the block. */
  lemma AcceptedExactlyWhen(tag: Tag, bytes: seq<bv8>)
    ensures ParseFrame(tag, bytes).Some? <==>
              && |bytes| > 25 && bytes[0] == 0xd1 && bytes[1] == 0x0f
              && (bytes[2] == 0 || bytes[2] == 1 || bytes[2] == 2)
              && Le16(bytes, 9) > 0 && Le16(bytes, 11) > 0 && Le32(bytes, 13) > 0
              && |bytes| == 25 + Le16(bytes, 11) && tag(bytes[2..21] + bytes[25..]) == Le32(bytes, 21)
    ensures ParseFrame(tag, bytes).Some? ==>
              var (h, block) := ParseFrame(tag, bytes).value;
              && h.flags == bytes[2] as nat <= 2 && h.session == Le16(bytes, 3) && h.seqno == Le32(bytes, 5)
              && h.k == Le16(bytes, 9) && h.blockLen == Le16(bytes, 11) && h.totalLen == Le32(bytes, 13)
              && h.streamTag == Le32(bytes, 17) && block == bytes[25..]
  {
    hide Fields, Unfields, Le16, Le32;
    if |bytes| >= 25 {
      LayoutOf(bytes);
      FieldsUnfields(bytes[2..25]);
      FlagValues(bytes[2]);
      assert bytes[2..21] == bytes[2..25][..19] == Fields(Unfields(bytes[2..25]));
    }
  }

  lemma FlagValues(b: bv8)
    ensures (b as nat) < 256
    ensures FlagsOk(b as nat) <==> b == 0 || b == 1 || b == 2
    ensures FlagsOk(b as nat) ==> b as nat <= 2
  {
  }

  /** The tagged bytes determine every header field except the tag, and the block. */
  lemma TaggedBytesDetermine(h: Header, block: seq<bv8>, h': Header, block': seq<bv8>)
    requires Fields(h) + block == Fields(h') + block'
    ensures block == block' && h == h'.(frameTag := h.frameTag)
  {
    hide Fields, ToBytes, Unfields;
    var f, f' := Fields(h), Fields(h');
    assert f == (f + block)[..19] == (f' + block')[..19] == f';
    assert block == (f + block)[19..] == (f' + block')[19..] == block';
    var g := h'.(frameTag := h.frameTag);
    SameFields(h', g);
    UnfieldsFields(h);
    UnfieldsFields(g);
  }

  lemma SameFields(h: Header, g: Header)
    requires g == h.(frameTag := g.frameTag)
    ensures Fields(g) == Fields(h)
  {
  }

  /** Damage is an erasure: bytes that are accepted under the tag of a frame that was sent, yet differ from it,
      exhibit two different tagged messages with one tag. */
  lemma DamageNeedsCollision(tag: Tag, h: Header, block: seq<bv8>, bytes: seq<bv8>)
    requires WellFormed(tag, h, block) && bytes != Packed(h, block) && ParseFrame(tag, bytes).Some?
    requires ParseFrame(tag, bytes).value.0.frameTag == h.frameTag
    ensures var (h', block') := ParseFrame(tag, bytes).value;
            Fields(h') + block' != Fields(h) + block && tag(Fields(h') + block') == tag(Fields(h) + block)
  {
    hide Fields, ToBytes, Packed, ParseFrame;
    PackParse(tag, bytes);
    var (h', block') := ParseFrame(tag, bytes).value;
    if Fields(h') + block' == Fields(h) + block {
      TaggedBytesDetermine(h', block', h, block);
    }
  }
}
