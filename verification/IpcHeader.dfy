/**
 The wire header of the host/helper protocol (platform/darwin/graft_ipc_protocol.c:6-22).
 A header travels as the 24 bytes of the C structure: four bytes of padding precede the request id,
 and nothing fixes their value.
 */
module IpcHeader {
  import opened Bytes

  const MAGIC := 0x47524654
  const VERSION := 1
  const MAX_PAYLOAD := 0x1_0000
  const HEADER_SIZE: nat := 24

  const HELLO := 1
  const PING := 2
  const PONG := 3
  const SHUTDOWN := 4
  const SHARED_MEMORY := 5

  type Padding = s: seq<Byte> | |s| == 4 witness [0, 0, 0, 0]

  datatype Header = Header(magic: int, version: int, kind: int, payloadSize: int, requestId: int) {
    /** Every field fits its C type. */
    predicate Fits() {
      && 0 <= magic < TWO_TO_THE_32
      && 0 <= version < TWO_TO_THE_16
      && 0 <= kind < TWO_TO_THE_16
      && 0 <= payloadSize < TWO_TO_THE_32
      && 0 <= requestId < TWO_TO_THE_64
    }

    /** `graft_ipc_validate_header`. */
    predicate Valid() {
      magic == MAGIC && version == VERSION && payloadSize <= MAX_PAYLOAD
    }
  }

  function Encode(h: Header, padding: Padding): (b: seq<Byte>)
    requires h.Fits()
    ensures |b| == HEADER_SIZE
  {
    LittleEndian(h.magic, 4) + LittleEndian(h.version, 2) + LittleEndian(h.kind, 2)
    + LittleEndian(h.payloadSize, 4) + padding + LittleEndian(h.requestId, 8)
  }

  function Decode(b: seq<Byte>): (h: Header)
    requires |b| == HEADER_SIZE
    ensures h.Fits()
  {
    Header(U32(b, 0), U16(b, 4), U16(b, 6), U32(b, 8), U64(b, 16))
  }

  lemma FieldWidths()
    ensures Pow256(2) == TWO_TO_THE_16 && Pow256(4) == TWO_TO_THE_32 && Pow256(8) == TWO_TO_THE_64
  {
    assert Pow256(8) == 0x100 * 0x100 * 0x100 * 0x100 * Pow256(4);
  }

  /** The length of the message whose header `bytes` starts with. */
  function MessageLength(bytes: seq<Byte>): (n: nat)
    requires |bytes| >= HEADER_SIZE
    ensures n >= HEADER_SIZE
  {
    HEADER_SIZE + Decode(bytes[..HEADER_SIZE]).payloadSize
  }

  /** Whatever the padding holds, the receiver sees the header that was sent. */
  lemma DecodeEncode(h: Header, padding: Padding)
    requires h.Fits()
    ensures Decode(Encode(h, padding)) == h
  {
    FieldWidths();
    var b := Encode(h, padding);
    UnpackPack(b, 0, h.magic, 4);
    UnpackPack(b, 4, h.version, 2);
    UnpackPack(b, 6, h.kind, 2);
    UnpackPack(b, 8, h.payloadSize, 4);
    UnpackPack(b, 16, h.requestId, 8);
  }

  /** The places of the fields in `graft_msg_header`, padding included. */
  lemma EncodeStores(h: Header, padding: Padding)
    requires h.Fits()
    ensures var b := Encode(h, padding);
            && Stores(b, 0, h.magic, 4) && Stores(b, 4, h.version, 2) && Stores(b, 6, h.kind, 2)
            && Stores(b, 8, h.payloadSize, 4) && b[12..16] == padding && Stores(b, 16, h.requestId, 8)
  {
    FieldWidths();
    PartsOfSix(LittleEndian(h.magic, 4), LittleEndian(h.version, 2), LittleEndian(h.kind, 2),
               LittleEndian(h.payloadSize, 4), padding, LittleEndian(h.requestId, 8));
  }

  lemma PartsOfSix(a: seq<Byte>, b: seq<Byte>, c: seq<Byte>, d: seq<Byte>, e: seq<Byte>, f: seq<Byte>)
    requires |a| == 4 && |b| == 2 && |c| == 2 && |d| == 4 && |e| == 4 && |f| == 8
    ensures var s := a + b + c + d + e + f;
            && |s| == 24 && s[0..4] == a && s[4..6] == b && s[6..8] == c && s[8..12] == d && s[12..16] == e
            && s[16..24] == f
  {
  }

  /** Every 24 bytes are the encoding of the header they decode to. */
  lemma EncodeDecode(b: seq<Byte>)
    requires |b| == HEADER_SIZE
    ensures Encode(Decode(b), b[12..16]) == b
  {
    PackUnpack(b, 0, 4);
    PackUnpack(b, 4, 2);
    PackUnpack(b, 6, 2);
    PackUnpack(b, 8, 4);
    PackUnpack(b, 16, 8);
    SixParts(b);
  }

  lemma SixParts(b: seq<Byte>)
    requires |b| == HEADER_SIZE
    ensures b == b[0..4] + b[4..6] + b[6..8] + b[8..12] + b[12..16] + b[16..24]
  {
    assert b == b[0..4] + b[4..6] + b[6..8] + b[8..12] + b[12..16] + b[16..24];
  }

  /** `graft_ipc_encode_header`: an invalid header leaves the caller's buffer alone. */
  method EncodeHeader(h: Header, padding: Padding, out: array<Byte>) returns (ok: bool)
    requires h.Fits() && out.Length == HEADER_SIZE
    modifies out
    ensures ok <==> h.magic == 0x47524654 && h.version == 1 && h.payloadSize <= 64 * 1024
    ensures ok ==> Decode(out[..]) == h
    ensures !ok ==> out[..] == old(out[..])
  {
    if !h.Valid() {
      return false;
    }
    var image := Encode(h, padding);
    forall i | 0 <= i < HEADER_SIZE {
      out[i] := image[i];
    }
    assert out[..] == image;
    DecodeEncode(h, padding);
    return true;
  }

  /** `graft_ipc_decode_header`: the header is copied out first and judged afterwards. */
  method DecodeHeader(bytes: array<Byte>) returns (ok: bool, h: Header)
    requires bytes.Length == HEADER_SIZE
    ensures h.Fits() && Encode(h, bytes[12..16]) == bytes[..]
    ensures ok <==> h.magic == 0x47524654 && h.version == 1 && h.payloadSize <= 64 * 1024
  {
    h := Decode(bytes[..]);
    EncodeDecode(bytes[..]);
    assert bytes[..][12..16] == bytes[12..16];
    ok := h.Valid();
  }

  // ---- The HELLO payload ----

  datatype HelloPayload = HelloPayload(pid: int, pageSize: int, nonce: int) {
    predicate Fits() {
      && 0 <= pid < TWO_TO_THE_64 / 2
      && 0 <= pageSize < TWO_TO_THE_64
      && 0 <= nonce < TWO_TO_THE_64
    }
  }

  const HELLO_SIZE: nat := 24

  function EncodeHello(p: HelloPayload): (b: seq<Byte>)
    requires p.Fits()
    ensures |b| == HELLO_SIZE
  {
    LittleEndian(p.pid, 8) + LittleEndian(p.pageSize, 8) + LittleEndian(p.nonce, 8)
  }

  /** The process id is a signed 64-bit field. */
  function DecodeHello(b: seq<Byte>): HelloPayload
    requires |b| == HELLO_SIZE
  {
    var pid := U64(b, 0);
    HelloPayload(if pid < TWO_TO_THE_64 / 2 then pid else pid - TWO_TO_THE_64, U64(b, 8), U64(b, 16))
  }

  /** The places of the fields in `graft_helper_hello_payload`. */
  lemma HelloStores(p: HelloPayload)
    requires p.Fits()
    ensures var b := EncodeHello(p);
            Stores(b, 0, p.pid, 8) && Stores(b, 8, p.pageSize, 8) && Stores(b, 16, p.nonce, 8)
  {
    FieldWidths();
  }

  /** Any 24 bytes read as a process id with a sign and two numbers without. */
  lemma HelloReads(b: seq<Byte>, word: int, pageSize: int, nonce: int)
    requires |b| == 24 && Stores(b, 0, word, 8) && Stores(b, 8, pageSize, 8) && Stores(b, 16, nonce, 8)
    ensures DecodeHello(b).pid == if word < 0x8000_0000_0000_0000 then word else word - 0x1_0000_0000_0000_0000
    ensures DecodeHello(b).pageSize == pageSize && DecodeHello(b).nonce == nonce
  {
    StoredIsRead(b, 0, word);
    StoredIsRead(b, 8, pageSize);
    StoredIsRead(b, 16, nonce);
  }

  lemma DecodeEncodeHello(p: HelloPayload)
    requires p.Fits()
    ensures DecodeHello(EncodeHello(p)) == p
  {
    FieldWidths();
    var b := EncodeHello(p);
    UnpackPack(b, 0, p.pid, 8);
    UnpackPack(b, 8, p.pageSize, 8);
    UnpackPack(b, 16, p.nonce, 8);
  }
}
