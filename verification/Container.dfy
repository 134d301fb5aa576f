/** The DCF3 file container, plain and encrypted (src/container.rs).  UTF-8, gzip,
    BLAKE3 and XChaCha20-Poly1305 are foreign functions; only their documented
    laws are used. */
module Container {
  import opened Common
  import opened LittleEndian
  import opened FileNames

  const FILE_HEADER_LEN: nat := 73
  const FILE_MAGIC: seq<bv8> := [0x44, 0x43, 0x46, 0x33]
  const FLAG_GZIP: nat := 1
  const FLAG_CRYPT: nat := 2
  const GZIP_MIN: nat := 768
  const GZIP_ROOM: nat := 64
  const GZIP_MIN_LEN: nat := 18
  const TAG_LEN: nat := 16
  const NONCE_LEN: nat := 24

  /** What a text is encrypted under, and what is authenticated beside it. */
  datatype Context = Context(key: seq<bv8>, nonce: seq<bv8>, auth: seq<bv8>)

  /** What the container code calls.  `inflate` gives the chunks that successive reads return, or nothing if the
      stream is corrupt; `decode` is strict, `decodeLossy` replaces what it cannot decode. */
  datatype Foreign = Foreign(
    encode: string -> seq<bv8>,
    decode: seq<bv8> -> Option<string>,
    decodeLossy: seq<bv8> -> string,
    gzip: seq<bv8> -> seq<bv8>,
    inflate: seq<bv8> -> Option<seq<seq<bv8>>>,
    digest: seq<bv8> -> seq<bv8>,
    encrypt: (Context, seq<bv8>) -> seq<bv8>,
    decrypt: (Context, seq<bv8>) -> Option<seq<bv8>>,
    precompressed: string -> bool)

  function Flatten(chunks: seq<seq<bv8>>): seq<bv8> {
    if chunks == [] then [] else Flatten(chunks[..|chunks| - 1]) + chunks[|chunks| - 1]
  }

  /** Encoding and decoding text is lossless; compression is lossless, at least 18 bytes long, and ends in the
      input size modulo 2^32 (section 2.3.1 of RFC 1952); digests have 32 bytes; decryption with the same key, nonce and
      authenticated data undoes encryption, which adds a 16-byte tag. */
  ghost predicate Lawful(f: Foreign) {
    TextLaw(f) && GzipLaw(f) && DigestLaw(f) && CipherLaw(f)
  }

  ghost predicate CipherLaw(f: Foreign) {
    forall context, text ::
      |f.encrypt(context, text)| == |text| + TAG_LEN && f.decrypt(context, f.encrypt(context, text)) == Some(text)
  }

  ghost predicate TextLaw(f: Foreign) {
    forall s :: f.decode(f.encode(s)) == Some(s) && f.decodeLossy(f.encode(s)) == s
  }

  ghost predicate GzipLaw(f: Foreign) {
    forall b :: var z := f.gzip(b);
      && f.inflate(z).Some? && Flatten(f.inflate(z).value) == b
      && |z| >= GZIP_MIN_LEN && FromBytes(Trailer(z)) == |b| % 0x1_0000_0000
  }

  ghost predicate DigestLaw(f: Foreign) {
    forall b :: |f.digest(b)| == 32
  }

  /** The last four bytes. */
  function Trailer(s: seq<bv8>): seq<bv8> {
    if |s| < 4 then s else s[|s| - 4..]
  }

  datatype Header = Header(
    magic: seq<bv8>, flags: nat, nameLen: nat, typeLen: nat, fileLen: nat, xmitLen: nat, digest: seq<bv8>, nonce: seq<bv8>)

  predicate HeaderOk(h: Header) {
    && |h.magic| == 4 && h.flags < 256 && h.nameLen < 0x1_0000 && h.typeLen < 0x1_0000
    && h.fileLen < 0x1_0000_0000 && h.xmitLen < 0x1_0000_0000 && |h.digest| == 32 && |h.nonce| == NONCE_LEN
  }

  function Serialized(h: Header): (r: seq<bv8>)
    requires HeaderOk(h)
    ensures |r| == FILE_HEADER_LEN
  {
    h.magic + ToBytes(h.flags, 1) + ToBytes(h.nameLen, 2) + ToBytes(h.typeLen, 2)
    + ToBytes(h.fileLen, 4) + ToBytes(h.xmitLen, 4) + h.digest + h.nonce
  }

  function Deserialized(s: seq<bv8>): (h: Header)
    requires |s| == FILE_HEADER_LEN
    ensures HeaderOk(h)
  {
    HeaderRanges(s);
    Header(s[0..4], FromBytes(s[4..5]), FromBytes(s[5..7]), FromBytes(s[7..9]), FromBytes(s[9..13]), FromBytes(s[13..17]),
           s[17..49], s[49..73])
  }

  lemma HeaderRanges(s: seq<bv8>)
    requires |s| == FILE_HEADER_LEN
    ensures FromBytes(s[4..5]) < 256 && FromBytes(s[5..7]) < 0x1_0000 && FromBytes(s[7..9]) < 0x1_0000
    ensures FromBytes(s[9..13]) < 0x1_0000_0000 && FromBytes(s[13..17]) < 0x1_0000_0000
  {
    hide FromBytes, ToBytes;
    Powers();
    ToFromBytes(s[4..5]);
    ToFromBytes(s[5..7]);
    ToFromBytes(s[7..9]);
    ToFromBytes(s[9..13]);
    ToFromBytes(s[13..17]);
  }

  lemma HeaderSlices(h: Header, s: seq<bv8>)
    requires HeaderOk(h) && s == Serialized(h)
    ensures s[0..4] == h.magic && s[4..5] == ToBytes(h.flags, 1) && s[5..7] == ToBytes(h.nameLen, 2)
    ensures s[7..9] == ToBytes(h.typeLen, 2) && s[9..13] == ToBytes(h.fileLen, 4) && s[13..17] == ToBytes(h.xmitLen, 4)
    ensures s[17..49] == h.digest && s[49..73] == h.nonce
  {
    hide ToBytes;
  }

  lemma HeaderRoundTrip(h: Header)
    requires HeaderOk(h)
    ensures Deserialized(Serialized(h)) == h
  {
    hide FromBytes, ToBytes, Serialized, Power256;
    Powers();
    HeaderSlices(h, Serialized(h));
    FromToBytes(h.flags, 1);
    FromToBytes(h.nameLen, 2);
    FromToBytes(h.typeLen, 2);
    FromToBytes(h.fileLen, 4);
    FromToBytes(h.xmitLen, 4);
  }

  /* ---------- packing ---------- */

  datatype Packed = Packed(
    container: seq<bv8>, compressed: bool, encrypted: bool, originalSize: nat, transmittedSize: nat)

  /** In the clear, or under a key and a nonce. */
  datatype Seal = Clear | Sealed(key: seq<bv8>, nonce: seq<bv8>)

  predicate SealOk(seal: Seal) {
    seal.Sealed? ==> |seal.nonce| == NONCE_LEN
  }

  /** The transmitted bytes: compressed only for large inputs of a compressible type, and only if that saves more
      than 64 bytes. */
  function Transmitted(f: Foreign, mime: string, bytes: seq<bv8>): (seq<bv8>, bool) {
    if |bytes| >= GZIP_MIN && !f.precompressed(mime) && |f.gzip(bytes)| + GZIP_ROOM < |bytes| then (f.gzip(bytes), true)
    else (bytes, false)
  }

  /** Why packing fails, in the order of the tests. */
  function PackRefusal(f: Foreign, name: string, mime: string, bytes: seq<bv8>): Option<Error> {
    if bytes == [] then Some(Empty)
    else if |bytes| > MAX_FILE_BYTES then Some(TooLarge(|bytes|, MAX_FILE_BYTES))
    else
      match NormalizeMimeType(mime)
      case Err(e) => Some(e)
      case Ok(kind) =>
        if |f.encode(SafeFileName(name))| > U16_MAX || |f.encode(kind)| > U16_MAX then Some(Meta) else None
  }

  const ZERO_NONCE: seq<bv8> := [0, 0, 0, 0, 0, 0, 0, 0, 0, 0, 0, 0, 0, 0, 0, 0, 0, 0, 0, 0, 0, 0, 0, 0]

  function Flags(gz: bool, encrypted: bool): (r: nat)
    ensures r < 4 && (r % 2 == 1 <==> gz) && (r / 2 % 2 == 1 <==> encrypted)
  {
    (if gz then FLAG_GZIP else 0) + if encrypted then FLAG_CRYPT else 0
  }

  /** What is authenticated beside the text: flags, lengths, digest, name and type. */
  function AuthData(flags: nat, nameBytes: seq<bv8>, typeBytes: seq<bv8>, fileLen: nat, xmitLen: nat, digest: seq<bv8>): seq<bv8> {
    ToBytes(flags, 1) + ToBytes(|nameBytes|, 2) + ToBytes(|typeBytes|, 2) + ToBytes(fileLen, 4) + ToBytes(xmitLen, 4)
    + digest + nameBytes + typeBytes
  }

  /** The bytes that leave: the plain ones, or their encryption. */
  function Outgoing(
      f: Foreign, seal: Seal, flags: nat, nameBytes: seq<bv8>, typeBytes: seq<bv8>, plain: seq<bv8>, bytes: seq<bv8>): seq<bv8> {
    match seal
    case Clear => plain
    case Sealed(key, nonce) =>
      var auth := AuthData(flags, nameBytes, typeBytes, |bytes|, |plain| + TAG_LEN, f.digest(bytes));
      f.encrypt(Context(key, nonce, auth), plain)
  }

  function PackedHeader(
      f: Foreign, flags: nat, nameBytes: seq<bv8>, typeBytes: seq<bv8>, data: seq<bv8>, bytes: seq<bv8>, nonce: seq<bv8>): Header {
    Header(FILE_MAGIC, flags, |nameBytes|, |typeBytes|, |bytes|, |data|, f.digest(bytes), nonce)
  }

  /** Header, name, type and data, in one buffer. */
  method Assemble(h: Header, nameBytes: seq<bv8>, typeBytes: seq<bv8>, data: seq<bv8>) returns (container: seq<bv8>)
    requires HeaderOk(h)
    ensures container == Serialized(h) + nameBytes + typeBytes + data
  {
    container := Serialized(h);
    container := container + nameBytes;
    container := container + typeBytes;
    container := container + data;
  }

  datatype Prepared = Prepared(nameBytes: seq<bv8>, typeBytes: seq<bv8>, plain: seq<bv8>, compressed: bool)

  function Preparation(f: Foreign, name: string, mime: string, bytes: seq<bv8>): Prepared
    requires PackRefusal(f, name, mime, bytes) == None
  {
    var (plain, gz) := Transmitted(f, mime, bytes);
    Prepared(f.encode(SafeFileName(name)), f.encode(NormalizeMimeType(mime).value), plain, gz)
  }

  /** What both ways of packing do first. */
  method Prepare(f: Foreign, name: string, mime: string, bytes: seq<bv8>) returns (r: Result<Prepared>)
    ensures r.Err? <==> PackRefusal(f, name, mime, bytes).Some?
    ensures r.Err? ==> PackRefusal(f, name, mime, bytes) == Some(r.error)
    ensures r.Ok? ==> r.value == Preparation(f, name, mime, bytes)
  {
    hide SafeFileName, NormalizeMimeType;
    if bytes == [] {
      return Err(Empty);
    }
    if |bytes| > MAX_FILE_BYTES {
      return Err(TooLarge(|bytes|, MAX_FILE_BYTES));
    }
    var nameBytes := f.encode(SafeFileName(name));
    var kind := NormalizeMimeType(mime);
    if kind.Err? {
      return Err(kind.error);
    }
    var typeBytes := f.encode(kind.value);
    if |nameBytes| > U16_MAX || |typeBytes| > U16_MAX {
      return Err(Meta);
    }
    var plain, gz := bytes, false;
    if |bytes| >= GZIP_MIN && !f.precompressed(mime) {
      var c := f.gzip(bytes);
      if |c| + GZIP_ROOM < |bytes| {
        plain, gz := c, true;
      }
    }
    r := Ok(Prepared(nameBytes, typeBytes, plain, gz));
  }

  lemma GzipAtLeast18(f: Foreign, bytes: seq<bv8>)
    requires GzipLaw(f)
    ensures |f.gzip(bytes)| >= GZIP_MIN_LEN
  {
    hide Flatten, Trailer, FromBytes;
  }

  lemma PreparationFits(f: Foreign, name: string, mime: string, bytes: seq<bv8>)
    requires Lawful(f) && PackRefusal(f, name, mime, bytes) == None
    ensures var p := Preparation(f, name, mime, bytes);
            && |p.nameBytes| <= U16_MAX && |p.typeBytes| <= U16_MAX && 0 < |p.plain| <= |bytes| <= MAX_FILE_BYTES
  {
    hide GzipLaw, TextLaw, DigestLaw, CipherLaw, SafeFileName, NormalizeMimeType;
    GzipAtLeast18(f, bytes);
  }

  function Nonce(seal: Seal): seq<bv8> {
    if seal.Clear? then ZERO_NONCE else seal.nonce
  }

  lemma OutgoingFits(f: Foreign, name: string, mime: string, bytes: seq<bv8>, seal: Seal)
    requires Lawful(f) && PackRefusal(f, name, mime, bytes) == None && SealOk(seal)
    ensures var p := Preparation(f, name, mime, bytes);
            var flags := Flags(p.compressed, seal.Sealed?);
            var data := Outgoing(f, seal, flags, p.nameBytes, p.typeBytes, p.plain, bytes);
            && |data| == |p.plain| + (if seal.Sealed? then TAG_LEN else 0)
            && HeaderOk(PackedHeader(f, flags, p.nameBytes, p.typeBytes, data, bytes, Nonce(seal)))
            && LayoutOk(PackedHeader(f, flags, p.nameBytes, p.typeBytes, data, bytes, Nonce(seal)),
                        FILE_HEADER_LEN + |p.nameBytes| + |p.typeBytes| + |data|)
  {
    hide GzipLaw, TextLaw, AuthData, Preparation, PackRefusal, Flags;
    PreparationFits(f, name, mime, bytes);
  }

  /** The container of a file, in the clear or sealed. */
  function PackedFile(f: Foreign, name: string, mime: string, bytes: seq<bv8>, seal: Seal): Packed
    requires Lawful(f) && PackRefusal(f, name, mime, bytes) == None && SealOk(seal)
  {
    OutgoingFits(f, name, mime, bytes, seal);
    var p := Preparation(f, name, mime, bytes);
    var flags := Flags(p.compressed, seal.Sealed?);
    var data := Outgoing(f, seal, flags, p.nameBytes, p.typeBytes, p.plain, bytes);
    var h := PackedHeader(f, flags, p.nameBytes, p.typeBytes, data, bytes, Nonce(seal));
    Packed(Serialized(h) + p.nameBytes + p.typeBytes + data, p.compressed, seal.Sealed?, |bytes|, |data|)
  }

  method PackFile(f: Foreign, name: string, mime: string, bytes: seq<bv8>) returns (r: Result<Packed>)
    requires Lawful(f)
    ensures r.Err? <==> PackRefusal(f, name, mime, bytes).Some?
    ensures r.Err? ==> PackRefusal(f, name, mime, bytes) == Some(r.error)
    ensures r.Ok? ==> PackRefusal(f, name, mime, bytes) == None && r.value == PackedFile(f, name, mime, bytes, Clear)
  {
    hide PackRefusal, Preparation, Serialized, Lawful;
    var prepared := Prepare(f, name, mime, bytes);
    if prepared.Err? {
      return Err(prepared.error);
    }
    var p := prepared.value;
    OutgoingFits(f, name, mime, bytes, Clear);
    var flags := Flags(p.compressed, false);
    var h := PackedHeader(f, flags, p.nameBytes, p.typeBytes, p.plain, bytes, ZERO_NONCE);
    var container := Assemble(h, p.nameBytes, p.typeBytes, p.plain);
    r := Ok(Packed(container, p.compressed, false, |bytes|, |p.plain|));
  }

  /** The length that is authenticated is the length of the encrypted data. */
  method PackFileEncrypted(f: Foreign, name: string, mime: string, bytes: seq<bv8>, key: seq<bv8>, nonce: seq<bv8>)
    returns (r: Result<Packed>)
    requires Lawful(f) && |nonce| == NONCE_LEN
    ensures r.Err? <==> PackRefusal(f, name, mime, bytes).Some?
    ensures r.Err? ==> PackRefusal(f, name, mime, bytes) == Some(r.error)
    ensures r.Ok? ==> PackRefusal(f, name, mime, bytes) == None
                      && r.value == PackedFile(f, name, mime, bytes, Sealed(key, nonce))
  {
    hide PackRefusal, Preparation, Serialized, Lawful, AuthData;
    var prepared := Prepare(f, name, mime, bytes);
    if prepared.Err? {
      return Err(prepared.error);
    }
    var p := prepared.value;
    OutgoingFits(f, name, mime, bytes, Sealed(key, nonce));
    var flags := Flags(p.compressed, true);
    var auth := AuthData(flags, p.nameBytes, p.typeBytes, |bytes|, |p.plain| + TAG_LEN, f.digest(bytes));
    var data := f.encrypt(Context(key, nonce, auth), p.plain);
    var h := PackedHeader(f, flags, p.nameBytes, p.typeBytes, data, bytes, nonce);
    var container := Assemble(h, p.nameBytes, p.typeBytes, data);
    r := Ok(Packed(container, p.compressed, true, |bytes|, |data|));
  }

  /* ---------- unpacking ---------- */

  datatype File = File(
    name: string, mime: string, bytes: seq<bv8>, digest: seq<bv8>, compressed: bool, encrypted: bool, transmittedSize: nat)

  function ReadHeader(container: seq<bv8>): (r: Result<Header>)
    ensures r.Ok? ==> HeaderOk(r.value)
  {
    if |container| < FILE_HEADER_LEN then Err(Truncated)
    else
      var h := Deserialized(container[..FILE_HEADER_LEN]);
      if h.magic != FILE_MAGIC || h.flags / 4 != 0 then Err(BadMagic) else Ok(h)
  }

  predicate LayoutOk(h: Header, len: nat) {
    && 0 < h.fileLen <= MAX_FILE_BYTES
    && 0 < h.xmitLen <= MAX_FILE_BYTES + (if h.flags / 2 % 2 == 1 then TAG_LEN else 0)
    && FILE_HEADER_LEN + h.nameLen + h.typeLen + h.xmitLen == len
  }

  /** Decompression with a hard bound on the output: it stops before the buffer would exceed `max` bytes. */
  method Gunzip(f: Foreign, bytes: seq<bv8>, max: nat) returns (r: Result<seq<bv8>>)
    ensures r == Inflated(f, bytes, max)
  {
    var chunks := f.inflate(bytes);
    if chunks.None? {
      return Err(Inflate);
    }
    var out := [];
    for i := 0 to |chunks.value|
      invariant out == Flatten(chunks.value[..i]) && |out| <= max
    {
      assert chunks.value[..i + 1][..i] == chunks.value[..i];
      if |out| + |chunks.value[i]| > max {
        FlattenGrows(chunks.value, i + 1);
        return Err(Inflate);
      }
      out := out + chunks.value[i];
    }
    assert chunks.value[..|chunks.value|] == chunks.value;
    r := Ok(out);
  }

  function Inflated(f: Foreign, bytes: seq<bv8>, max: nat): Result<seq<bv8>> {
    match f.inflate(bytes)
    case None => Err(Inflate)
    case Some(chunks) => if |Flatten(chunks)| > max then Err(Inflate) else Ok(Flatten(chunks))
  }

  lemma {:induction false} FlattenGrows(chunks: seq<seq<bv8>>, i: nat)
    requires i <= |chunks|
    ensures |Flatten(chunks[..i])| <= |Flatten(chunks)|
    decreases |chunks|
  {
    if i < |chunks| {
      var rest := chunks[..|chunks| - 1];
      FlattenGrows(rest, i);
      assert rest[..i] == chunks[..i];
    } else {
      assert chunks[..i] == chunks;
    }
  }

  /** The file's bytes from the transmitted ones, or why they are refused. */
  function Restored(f: Foreign, h: Header, plain: seq<bv8>): Result<seq<bv8>> {
    if h.flags % 2 == 0 then Ok(plain)
    else if |plain| < GZIP_MIN_LEN then Err(GzipIncomplete)
    else if FromBytes(plain[|plain| - 4..]) != h.fileLen then Err(GzipSize)
    else
      match Inflated(f, plain, h.fileLen)
      case Err(e) => Err(e)
      case Ok(out) => if |out| != h.fileLen then Err(Inflate) else Ok(out)
  }

  /** The plain bytes: as transmitted, or decrypted with the key. */
  function Revealed(
      f: Foreign, h: Header, key: Option<seq<bv8>>, nameBytes: seq<bv8>, typeBytes: seq<bv8>, data: seq<bv8>): Result<seq<bv8>> {
    if h.flags / 2 % 2 == 0 then Ok(data)
    else
      match key
      case None => Err(NoEncryption)
      case Some(k) =>
        var auth := AuthData(h.flags, nameBytes, typeBytes, h.fileLen, h.xmitLen, h.digest);
        match f.decrypt(Context(k, h.nonce, auth), data)
        case None => Err(Crypto)
        case Some(plain) => Ok(plain)
  }

  /** The last checks: length, digest and media type. */
  function Verified(
      f: Foreign, h: Header, nameBytes: seq<bv8>, typeBytes: seq<bv8>, bytes: seq<bv8>): Result<File> {
    if |bytes| != h.fileLen then Err(Lengths)
    else if f.digest(bytes) != h.digest then Err(Crypto)
    else
      match f.decode(typeBytes)
      case None => Err(Meta)
      case Some(mime) =>
        match NormalizeMimeType(mime)
        case Err(e) => Err(e)
        case Ok(kind) =>
          Ok(File(SafeFileName(f.decodeLossy(nameBytes)), kind, bytes, h.digest, h.flags % 2 == 1, h.flags / 2 % 2 == 1, h.xmitLen))
  }

  function Unpacked(f: Foreign, container: seq<bv8>, key: Option<seq<bv8>>): Result<File> {
    match ReadHeader(container)
    case Err(e) => Err(e)
    case Ok(h) =>
      if !LayoutOk(h, |container|) then Err(Lengths)
      else
        var typeAt, dataAt := FILE_HEADER_LEN + h.nameLen, FILE_HEADER_LEN + h.nameLen + h.typeLen;
        var nameBytes, typeBytes := container[FILE_HEADER_LEN..typeAt], container[typeAt..dataAt];
        match Revealed(f, h, key, nameBytes, typeBytes, container[dataAt..])
        case Err(e) => Err(e)
        case Ok(plain) =>
          match Restored(f, h, plain)
          case Err(e) => Err(e)
          case Ok(bytes) => Verified(f, h, nameBytes, typeBytes, bytes)
  }

  /** Inflates if need be, within the announced length. */
  method Restore(f: Foreign, h: Header, plain: seq<bv8>) returns (r: Result<seq<bv8>>)
    ensures r == Restored(f, h, plain)
  {
    hide Inflated, FromBytes;
    if h.flags % 2 == 0 {
      return Ok(plain);
    }
    if |plain| < GZIP_MIN_LEN {
      return Err(GzipIncomplete);
    }
    if FromBytes(plain[|plain| - 4..]) != h.fileLen {
      return Err(GzipSize);
    }
    var out := Gunzip(f, plain, h.fileLen);
    if out.Err? {
      return Err(out.error);
    }
    if |out.value| != h.fileLen {
      return Err(Inflate);
    }
    r := out;
  }

  /** `unpack_impl`: without a key, and with one. */
  method UnpackFile(f: Foreign, container: seq<bv8>, key: Option<seq<bv8>>) returns (r: Result<File>)
    ensures r == Unpacked(f, container, key)
  {
    hide SafeFileName, NormalizeMimeType, Restored, ReadHeader, AuthData;
    var header := ReadHeader(container);
    if header.Err? {
      return Err(header.error);
    }
    var h := header.value;
    if !LayoutOk(h, |container|) {
      return Err(Lengths);
    }
    var typeAt, dataAt := FILE_HEADER_LEN + h.nameLen, FILE_HEADER_LEN + h.nameLen + h.typeLen;
    var nameBytes, typeBytes, plain := container[FILE_HEADER_LEN..typeAt], container[typeAt..dataAt], container[dataAt..];
    if h.flags / 2 % 2 == 1 {
      if key.None? {
        return Err(NoEncryption);
      }
      var auth := AuthData(h.flags, nameBytes, typeBytes, h.fileLen, h.xmitLen, h.digest);
      var text := f.decrypt(Context(key.value, h.nonce, auth), plain);
      if text.None? {
        return Err(Crypto);
      }
      plain := text.value;
    }
    var restored := Restore(f, h, plain);
    if restored.Err? {
      return Err(restored.error);
    }
    var bytes := restored.value;
    if |bytes| != h.fileLen {
      return Err(Lengths);
    }
    if f.digest(bytes) != h.digest {
      return Err(Crypto);
    }
    var mime := f.decode(typeBytes);
    if mime.None? {
      return Err(Meta);
    }
    var kind := NormalizeMimeType(mime.value);
    if kind.Err? {
      return Err(kind.error);
    }
    var name := SafeFileName(f.decodeLossy(nameBytes));
    r := Ok(File(name, kind.value, bytes, h.digest, h.flags % 2 == 1, h.flags / 2 % 2 == 1, h.xmitLen));
  }

  lemma ContainerSlices(head: seq<bv8>, name: seq<bv8>, kind: seq<bv8>, data: seq<bv8>)
    requires |head| == FILE_HEADER_LEN
    ensures var c, typeAt, dataAt := head + name + kind + data, FILE_HEADER_LEN + |name|, FILE_HEADER_LEN + |name| + |kind|;
            && c[..FILE_HEADER_LEN] == head && c[FILE_HEADER_LEN..typeAt] == name
            && c[typeAt..dataAt] == kind && c[dataAt..] == data
  {
  }

  /** The transmitted bytes give back the file. */
  lemma RestoredBack(f: Foreign, h: Header, mime: string, bytes: seq<bv8>)
    requires Lawful(f) && 0 < |bytes| <= MAX_FILE_BYTES && h.fileLen == |bytes|
    requires h.flags % 2 == 1 <==> Transmitted(f, mime, bytes).1
    ensures Restored(f, h, Transmitted(f, mime, bytes).0) == Ok(bytes)
  {
    hide TextLaw, DigestLaw, CipherLaw, Flatten, FromBytes;
    var z := f.gzip(bytes);
    assert Trailer(z) == z[|z| - 4..];
  }

  /** Unpacking a packed file reads back its header and its parts. */
  lemma PackedParts(f: Foreign, name: string, mime: string, bytes: seq<bv8>, seal: Seal, key: Option<seq<bv8>>)
    requires Lawful(f) && PackRefusal(f, name, mime, bytes) == None && SealOk(seal)
    ensures var p := Preparation(f, name, mime, bytes);
            var flags := Flags(p.compressed, seal.Sealed?);
            var data := Outgoing(f, seal, flags, p.nameBytes, p.typeBytes, p.plain, bytes);
            var h := PackedHeader(f, flags, p.nameBytes, p.typeBytes, data, bytes, Nonce(seal));
            Unpacked(f, PackedFile(f, name, mime, bytes, seal).container, key) ==
            match Revealed(f, h, key, p.nameBytes, p.typeBytes, data)
            case Err(e) => Err(e)
            case Ok(plain) =>
              match Restored(f, h, plain)
              case Err(e) => Err(e)
              case Ok(out) => Verified(f, h, p.nameBytes, p.typeBytes, out)
  {
    hide Preparation, PackRefusal, Lawful, Outgoing, Revealed, Restored, Verified, Serialized, Deserialized, LayoutOk;
    OutgoingFits(f, name, mime, bytes, seal);
    var p := Preparation(f, name, mime, bytes);
    var flags := Flags(p.compressed, seal.Sealed?);
    var data := Outgoing(f, seal, flags, p.nameBytes, p.typeBytes, p.plain, bytes);
    var h := PackedHeader(f, flags, p.nameBytes, p.typeBytes, data, bytes, Nonce(seal));
    ContainerSlices(Serialized(h), p.nameBytes, p.typeBytes, data);
    HeaderRoundTrip(h);
  }

  /** Packing and unpacking, in the clear with or without a key and sealed with the right key, gives back the bytes, the
      normalised media type and, unless the name hides white space behind its trailing dots and blanks, the sanitised
      name. */
  lemma RoundTrip(f: Foreign, name: string, mime: string, bytes: seq<bv8>, seal: Seal, key: Option<seq<bv8>>)
    requires Lawful(f) && PackRefusal(f, name, mime, bytes) == None && SealOk(seal)
    requires seal.Sealed? ==> key == Some(seal.key)
    ensures var p := PackedFile(f, name, mime, bytes, seal);
            var r := Unpacked(f, p.container, key);
            && r.Ok? && r.value.bytes == bytes && r.value.mime == NormalizeMimeType(mime).value
            && r.value.digest == f.digest(bytes) && r.value.encrypted == seal.Sealed?
            && r.value.compressed == p.compressed && r.value.transmittedSize == p.transmittedSize
            && (r.value.name == SafeFileName(name) <==> !HidesSpace(name))
  {
    hide SafeFileName, NormalizeMimeType, GzipLaw, Restored, HidesSpace, Transmitted, AuthData, Unpacked, Serialized;
    PackedParts(f, name, mime, bytes, seal, key);
    OutgoingFits(f, name, mime, bytes, seal);
    var p := Preparation(f, name, mime, bytes);
    var flags := Flags(p.compressed, seal.Sealed?);
    var data := Outgoing(f, seal, flags, p.nameBytes, p.typeBytes, p.plain, bytes);
    var h := PackedHeader(f, flags, p.nameBytes, p.typeBytes, data, bytes, Nonce(seal));
    RestoredBack(f, h, mime, bytes);
    NormalizeIdempotent(mime);
    SafeFileNameIdempotent(name);
  }

  /** A sealed container does not open without a key. */
  lemma SealedNeedsKey(f: Foreign, name: string, mime: string, bytes: seq<bv8>, seal: Seal)
    requires Lawful(f) && PackRefusal(f, name, mime, bytes) == None && SealOk(seal) && seal.Sealed?
    ensures Unpacked(f, PackedFile(f, name, mime, bytes, seal).container, None) == Err(NoEncryption)
  {
    hide Preparation, PackRefusal, Lawful, Outgoing, Restored, Verified, Unpacked, Serialized;
    PackedParts(f, name, mime, bytes, seal, None);
  }

  /** The authenticated data determine every header field, the name and the type: none of them can be exchanged
      without changing what the cipher checks. */
  lemma AuthDataDetermines(h: Header, name: seq<bv8>, kind: seq<bv8>, g: Header, name': seq<bv8>, kind': seq<bv8>)
    requires HeaderOk(h) && HeaderOk(g) && h.nameLen == |name| && h.typeLen == |kind| && g.nameLen == |name'| && g.typeLen == |kind'|
    requires AuthData(h.flags, name, kind, h.fileLen, h.xmitLen, h.digest)
             == AuthData(g.flags, name', kind', g.fileLen, g.xmitLen, g.digest)
    ensures h == g.(magic := h.magic, nonce := h.nonce) && name == name' && kind == kind'
  {
    hide ToBytes, FromBytes, Power256, AuthData;
    AuthSlices(h, name, kind);
    AuthSlices(g, name', kind');
    Powers();
    FromToBytes(h.flags, 1);
    FromToBytes(g.flags, 1);
    FromToBytes(h.nameLen, 2);
    FromToBytes(g.nameLen, 2);
    FromToBytes(h.typeLen, 2);
    FromToBytes(g.typeLen, 2);
    FromToBytes(h.fileLen, 4);
    FromToBytes(g.fileLen, 4);
    FromToBytes(h.xmitLen, 4);
    FromToBytes(g.xmitLen, 4);
  }

  lemma AuthSlices(h: Header, name: seq<bv8>, kind: seq<bv8>)
    requires HeaderOk(h) && h.nameLen == |name| && h.typeLen == |kind|
    ensures var a := AuthData(h.flags, name, kind, h.fileLen, h.xmitLen, h.digest);
            && |a| == 45 + |name| + |kind|
            && a[0..1] == ToBytes(h.flags, 1) && a[1..3] == ToBytes(h.nameLen, 2) && a[3..5] == ToBytes(h.typeLen, 2)
            && a[5..9] == ToBytes(h.fileLen, 4) && a[9..13] == ToBytes(h.xmitLen, 4) && a[13..45] == h.digest
            && a[45..45 + |name|] == name && a[45 + |name|..] == kind
  {
    hide ToBytes;
  }

  /** Whatever the container and the key, an unpacked file has the announced digest, a bounded size and a harmless name. */
  lemma UnpackedIsVerified(f: Foreign, container: seq<bv8>, key: Option<seq<bv8>>)
    requires Unpacked(f, container, key).Ok?
    ensures var file := Unpacked(f, container, key).value;
            && f.digest(file.bytes) == file.digest && 0 < |file.bytes| <= MAX_FILE_BYTES
            && AllPlain(file.name) && file.name != "" && !IsDeviceName(Stem(file.name))
            && NormalizeMimeType(file.mime) == Ok(file.mime)
  {
    hide SafeFileName, NormalizeMimeType, Deserialized, Restored, Revealed;
    var h := ReadHeader(container).value;
    var typeAt, dataAt := FILE_HEADER_LEN + h.nameLen, FILE_HEADER_LEN + h.nameLen + h.typeLen;
    SafeNameIsSafe(f.decodeLossy(container[FILE_HEADER_LEN..typeAt]));
    NormalizeIdempotent(f.decode(container[typeAt..dataAt]).value);
  }

  /* ---------- the layout of a container ---------- */

  /** Where the parts of any bytes lie that begin with a serialised header. */
  lemma HeaderAt(c: seq<bv8>)
    requires |c| >= 73
    ensures var h := Deserialized(c[..73]);
            && h.magic == c[0..4] && h.flags == c[4] as nat && h.nameLen == Le16(c, 5) && h.typeLen == Le16(c, 7)
            && h.fileLen == Le32(c, 9) && h.xmitLen == Le32(c, 13) && h.digest == c[17..49] && h.nonce == c[49..73]
  {
    hide FromBytes, Le16, Le32;
    OneByte(c, 4);
    Read16(c, 5);
    Read16(c, 7);
    Read32(c, 9);
    Read32(c, 13);
    SliceOfSlice(c, 0, 73, 0, 4);
    SliceOfSlice(c, 0, 73, 4, 5);
    SliceOfSlice(c, 0, 73, 5, 7);
    SliceOfSlice(c, 0, 73, 7, 9);
    SliceOfSlice(c, 0, 73, 9, 13);
    SliceOfSlice(c, 0, 73, 13, 17);
    SliceOfSlice(c, 0, 73, 17, 49);
    SliceOfSlice(c, 0, 73, 49, 73);
    assert c[0..73] == c[..73];
  }

  lemma OneByte(s: seq<bv8>, i: nat)
    requires i < |s|
    ensures FromBytes(s[i..i + 1]) == s[i] as nat
  {
    assert s[i..i + 1][1..] == [];
  }

  /** The authenticated data are the header without its magic and its nonce, then the name and the type. */
  lemma AuthIsHeader(h: Header, name: seq<bv8>, kind: seq<bv8>)
    requires HeaderOk(h) && h.nameLen == |name| && h.typeLen == |kind|
    ensures AuthData(h.flags, name, kind, h.fileLen, h.xmitLen, h.digest) == Serialized(h)[4..49] + name + kind
  {
    hide ToBytes;
  }

  /** Header, name, type and data in one buffer. */
  lemma AssembledLayout(h: Header, name: seq<bv8>, kind: seq<bv8>, data: seq<bv8>)
    requires HeaderOk(h) && h.nameLen == |name| && h.typeLen == |kind|
    ensures var c := Serialized(h) + name + kind + data;
            var typeAt, dataAt := 73 + |name|, 73 + |name| + |kind|;
            && |c| == dataAt + |data| && c[0..4] == h.magic && c[4] as nat == h.flags
            && Le16(c, 5) == |name| && Le16(c, 7) == |kind| && Le32(c, 9) == h.fileLen && Le32(c, 13) == h.xmitLen
            && c[17..49] == h.digest && c[49..73] == h.nonce
            && c[73..typeAt] == name && c[typeAt..dataAt] == kind && c[dataAt..] == data
            && AuthData(h.flags, name, kind, h.fileLen, h.xmitLen, h.digest) == c[4..49] + c[73..dataAt]
  {
    hide Serialized, Deserialized, Le16, Le32, AuthData;
    var c := Serialized(h) + name + kind + data;
    ContainerSlices(Serialized(h), name, kind, data);
    HeaderRoundTrip(h);
    HeaderAt(c);
    AuthIsHeader(h, name, kind);
    assert c[4..49] == c[..73][4..49];
    assert c[73..73 + |name| + |kind|] == name + kind;
  }

  lemma ZeroNonce()
    ensures ZERO_NONCE == seq(24, _ => 0)
  {
  }

  /** Which files can be packed: not empty, at most 64 MiB, with an acceptable type, and with name and type of at most
      65535 bytes each. */
  lemma PackedExactlyWhen(f: Foreign, name: string, mime: string, bytes: seq<bv8>)
    ensures PackRefusal(f, name, mime, bytes) == None <==>
              && 0 < |bytes| <= 67_108_864 && NormalizeMimeType(mime).Ok?
              && |f.encode(SafeFileName(name))| <= 65535 && |f.encode(NormalizeMimeType(mime).value)| <= 65535
  {
    hide SafeFileName, NormalizeMimeType;
  }

  /** Where the parts of a packed file lie. */
  lemma PackedLayout(f: Foreign, name: string, mime: string, bytes: seq<bv8>, seal: Seal)
    requires Lawful(f) && PackRefusal(f, name, mime, bytes) == None && SealOk(seal)
    ensures var p := PackedFile(f, name, mime, bytes, seal);
            var c, nameBytes, typeBytes := p.container, f.encode(SafeFileName(name)), f.encode(NormalizeMimeType(mime).value);
            var typeAt, dataAt := 73 + |nameBytes|, 73 + |nameBytes| + |typeBytes|;
            && |c| == dataAt + p.transmittedSize && c[0..4] == [0x44, 0x43, 0x46, 0x33]
            && p.originalSize == |bytes| && p.encrypted == seal.Sealed?
            && c[4] as nat == (if p.compressed then 1 else 0) + (if p.encrypted then 2 else 0)
            && Le16(c, 5) == |nameBytes| && Le16(c, 7) == |typeBytes| && Le32(c, 9) == |bytes| && Le32(c, 13) == p.transmittedSize
            && c[17..49] == f.digest(bytes) && c[49..73] == (if seal.Sealed? then seal.nonce else seq(24, _ => 0))
            && c[73..typeAt] == nameBytes && c[typeAt..dataAt] == typeBytes
  {
    hide Serialized, SafeFileName, NormalizeMimeType, PackRefusal, Lawful, Le16, Le32, AuthData, Outgoing;
    ZeroNonce();
    OutgoingFits(f, name, mime, bytes, seal);
    var p := Preparation(f, name, mime, bytes);
    var flags := Flags(p.compressed, seal.Sealed?);
    var data := Outgoing(f, seal, flags, p.nameBytes, p.typeBytes, p.plain, bytes);
    AssembledLayout(PackedHeader(f, flags, p.nameBytes, p.typeBytes, data, bytes, Nonce(seal)), p.nameBytes, p.typeBytes, data);
  }

  /** What a packed file transmits: the bytes, or their compression if they are many, of a compressible type and it saves more
      than 64 bytes; sealed, the encryption of that, which also authenticates all that comes before it but the magic and
      the nonce. */
  lemma PackedData(f: Foreign, name: string, mime: string, bytes: seq<bv8>, seal: Seal)
    requires Lawful(f) && PackRefusal(f, name, mime, bytes) == None && SealOk(seal)
    ensures var p := PackedFile(f, name, mime, bytes, seal);
            var dataAt := |p.container| - p.transmittedSize;
            && (p.compressed <==> |bytes| >= 768 && !f.precompressed(mime) && |f.gzip(bytes)| + 64 < |bytes|)
            && dataAt >= 73
            && var plain := if p.compressed then f.gzip(bytes) else bytes;
               p.container[dataAt..] ==
               if seal.Clear? then plain
               else f.encrypt(Context(seal.key, seal.nonce, p.container[4..49] + p.container[73..dataAt]), plain)
  {
    hide Serialized, SafeFileName, NormalizeMimeType, PackRefusal, Lawful, Le16, Le32, AuthData;
    OutgoingFits(f, name, mime, bytes, seal);
    var p := Preparation(f, name, mime, bytes);
    var flags := Flags(p.compressed, seal.Sealed?);
    var data := Outgoing(f, seal, flags, p.nameBytes, p.typeBytes, p.plain, bytes);
    AssembledLayout(PackedHeader(f, flags, p.nameBytes, p.typeBytes, data, bytes, Nonce(seal)), p.nameBytes, p.typeBytes, data);
    if seal.Sealed? { SealedLength(f, seal, flags, p.nameBytes, p.typeBytes, p.plain, bytes); }
  }

  lemma SealedLength(
      f: Foreign, seal: Seal, flags: nat, nameBytes: seq<bv8>, typeBytes: seq<bv8>, plain: seq<bv8>, bytes: seq<bv8>)
    requires Lawful(f) && seal.Sealed?
    ensures |Outgoing(f, seal, flags, nameBytes, typeBytes, plain, bytes)| == |plain| + TAG_LEN
  {
    hide GzipLaw, TextLaw, DigestLaw, AuthData;
  }

  /** The bytes of an accepted container. */
  lemma UnpackedLayout(f: Foreign, c: seq<bv8>, key: Option<seq<bv8>>, file: File)
    requires Unpacked(f, c, key) == Ok(file)
    ensures |c| >= 73 && c[0..4] == [0x44, 0x43, 0x46, 0x33] && c[4] as nat < 4
    ensures |c| == 73 + Le16(c, 5) + Le16(c, 7) + Le32(c, 13)
    ensures 0 < Le32(c, 9) <= 67_108_864 && 0 < Le32(c, 13) <= 67_108_864 + (if c[4] as nat >= 2 then 16 else 0)
    ensures (file.encrypted <==> c[4] as nat >= 2) && (file.compressed <==> c[4] as nat % 2 == 1)
    ensures file.digest == c[17..49] == f.digest(file.bytes) && |file.bytes| == Le32(c, 9)
  {
    hide SafeFileName, NormalizeMimeType, Deserialized, AuthData, Serialized, Le16, Le32, FromBytes, Restored, Revealed;
    HeaderAt(c);
  }

  /** The name and the type of the file. */
  lemma UnpackedNames(f: Foreign, c: seq<bv8>, key: Option<seq<bv8>>, file: File, typeAt: nat, dataAt: nat)
    requires Unpacked(f, c, key) == Ok(file)
    requires |c| >= 73 && typeAt == 73 + Le16(c, 5) && dataAt == typeAt + Le16(c, 7) <= |c|
    ensures file.name == SafeFileName(f.decodeLossy(c[73..typeAt]))
    ensures f.decode(c[typeAt..dataAt]).Some? && NormalizeMimeType(f.decode(c[typeAt..dataAt]).value) == Ok(file.mime)
  {
    hide SafeFileName, NormalizeMimeType, Deserialized, AuthData, Serialized, Le16, Le32, FromBytes, Restored, Revealed;
    HeaderAt(c);
  }

  /** What the file is read from: the data, deciphered with everything before them but the magic and the nonce
      authenticated, and inflated. */
  lemma UnpackedData(f: Foreign, c: seq<bv8>, key: Option<seq<bv8>>, file: File, dataAt: nat) returns (plain: seq<bv8>)
    requires Unpacked(f, c, key) == Ok(file) && |c| >= 73 && dataAt == 73 + Le16(c, 5) + Le16(c, 7) <= |c|
    ensures if file.encrypted
            then key.Some? && f.decrypt(Context(key.value, c[49..73], c[4..49] + c[73..dataAt]), c[dataAt..]) == Some(plain)
            else plain == c[dataAt..]
    ensures if file.compressed then f.inflate(plain).Some? && Flatten(f.inflate(plain).value) == file.bytes
            else plain == file.bytes
  {
    hide SafeFileName, NormalizeMimeType, Deserialized, AuthData, Serialized, Le16, Le32, FromBytes;
    HeaderAt(c);
    var h := ReadHeader(c).value;
    var typeAt := 73 + h.nameLen;
    plain := Revealed(f, h, key, c[73..typeAt], c[typeAt..dataAt], c[dataAt..]).value;
    SerializedBack(c[..73]);
    AuthIsHeader(h, c[73..typeAt], c[typeAt..dataAt]);
    assert c[..73][4..49] == c[4..49];
    assert c[4..49] + c[73..typeAt] + c[typeAt..dataAt] == c[4..49] + c[73..dataAt];
  }

  lemma SerializedBack(s: seq<bv8>)
    requires |s| == 73
    ensures Serialized(Deserialized(s)) == s
  {
    hide FromBytes, ToBytes;
    ToFromBytes(s[4..5]);
    ToFromBytes(s[5..7]);
    ToFromBytes(s[7..9]);
    ToFromBytes(s[9..13]);
    ToFromBytes(s[13..17]);
    assert s == s[0..4] + s[4..5] + s[5..7] + s[7..9] + s[9..13] + s[13..17] + s[17..49] + s[49..73];
  }
}
