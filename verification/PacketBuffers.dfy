/** pkt_encode, pkt_decode and the varuint helpers of src/packet_implem.c as they run: a
    cursor over a byte buffer, and a packet structure filled field by field.  They are proved
    against the functions of Codec.dfy.  send_pkt and receive_pkt of src/packet_utils.c sit
    on top. */
module PacketBuffers {
  import opened Wrappers
  import opened Crc32
  import opened Packet
  import opened Codec

  /** `written`, followed by what the buffer held before. */
  ghost predicate Holds(buf: array<byte>, written: seq<byte>, was: seq<byte>)
    reads buf
  {
    |written| <= |was| == buf.Length && buf[..] == written + was[|written|..]
  }

  lemma HoldsNothing(buf: array<byte>)
    ensures Holds(buf, [], buf[..])
  {
  }

  lemma Extended(written: seq<byte>, was: seq<byte>, src: seq<byte>, before: seq<byte>, after: seq<byte>)
    requires |written| + |src| <= |was| && before == written + was[|written|..]
    requires after == before[..|written|] + src + before[|written| + |src|..]
    ensures after == written + src + was[|written + src|..]
  {
  }

  /** memcpy at the cursor, which moves past the copied bytes. */
  method Append(buf: array<byte>, at: nat, src: seq<byte>, ghost written: seq<byte>, ghost was: seq<byte>)
    returns (n: nat)
    requires at == |written| && at + |src| <= buf.Length && Holds(buf, written, was)
    modifies buf
    ensures n == at + |src|
    ensures Holds(buf, written + src, was)
  {
    ghost var before := buf[..];
    forall k | 0 <= k < |src| {
      buf[at + k] := src[k];
    }
    assert buf[..] == before[..at] + src + before[at + |src|..];
    Extended(written, was, src, before, buf[..]);
    n := at + |src|;
  }

  /** varuint_decode.  Returns the number of bytes, or -1 if `len` is too short; a two-byte
      integer is also put into host order in the buffer it was read from. */
  method VaruintDecode(data: array<byte>, len: nat) returns (n: int, val: uint16)
    requires 1 <= data.Length && (data[0] >= 0x80 && len >= 2 ==> data.Length >= 2)
    modifies data
    ensures n == if len < VaruintLen(old(data[0])) then -1 else VaruintLen(old(data[0]))
    ensures n == 1 ==> val == old(data[0])
    ensures n == 2 ==> val == VaruintValue(old(data[0]), old(data[1]))
    ensures n == 2 ==> data[0] == old(data[1]) && data[1] == old(data[0]) && data[2..] == old(data[2..])
    ensures n != 2 ==> data[..] == old(data[..])
  {
    var nbBytes := VaruintLen(data[0]);
    if len < nbBytes {
      return -1, 0;
    } else if nbBytes == 1 {
      return 1, data[0] % 0x80;
    } else {
      data[0], data[1] := data[1], data[0];
      var tmp: int := 0x100 * (data[1] as int) + (data[0] as int);
      return 2, tmp % 0x8000;
    }
  }

  /** varuint_encode into `len` bytes, of which only one or two are ever written. */
  method VaruintEncode(val: uint16, data: array<byte>, len: int) returns (n: int)
    requires val < 0x8000 && 1 <= len <= 2 ==> data.Length >= len
    modifies data
    ensures n == if val >= 0x8000 then -1 else len
    ensures val < 0x8000 && len == 1 ==> data[..1] == [val % 0x100] && data[1..] == old(data[1..])
    ensures val < 0x8000 && len == 2 ==>
              data[..2] == [0x80 + val / 0x100, val % 0x100] && data[2..] == old(data[2..])
    ensures val >= 0x8000 || !(1 <= len <= 2) ==> data[..] == old(data[..])
  {
    if val >= 0x8000 {
      return -1;
    }
    if len == 1 {
      data[0] := val % 0x100;
    } else if len == 2 {
      var tmp: int := 0x8000 + val;
      data[0], data[1] := tmp / 0x100, tmp % 0x100;
    }
    return len;
  }

  /** The length field of pkt_encode, by way of a buffer of two bytes. */
  method AppendVaruint(val: uint16, buf: array<byte>, at: nat, ghost written: seq<byte>, ghost was: seq<byte>)
    returns (l: int, n: nat)
    requires at == |written| && Holds(buf, written, was)
    requires val < 0x8000 ==> at + |VaruintBytes(val)| <= buf.Length
    modifies buf
    ensures l == if val < 0x8000 then PredictLen(val) else -1
    ensures val >= 0x8000 ==> n == at && Holds(buf, written, was)
    ensures val < 0x8000 ==> n == at + |VaruintBytes(val)| && Holds(buf, written + VaruintBytes(val), was)
  {
    var varLength := new byte[2];
    l := VaruintEncode(val, varLength, PredictLen(val));
    n := at;
    if l != -1 {
      assert varLength[..l] == VaruintBytes(val);
      n := Append(buf, at, varLength[..l], written, was);
    }
  }

  /** The fields of the header, which pkt_encode writes first. */
  method EncodeFields(pkt: Pkt, buf: array<byte>) returns (l: int, n: nat)
    requires buf.Length >= if pkt.length < 0x8000 then |Header(pkt.Value())| else 1
    modifies buf
    ensures l == if pkt.length < 0x8000 then PredictLen(pkt.length) else -1
    ensures l == -1 ==> n == 1 && Holds(buf, [Byte0(pkt.Value())], old(buf[..]))
    ensures l != -1 ==> n == |Header(pkt.Value())| && Holds(buf, Header(pkt.Value()), old(buf[..]))
  {
    hide Raw, Holds, Pack, VaruintBytes;
    ghost var was := buf[..];
    var first := Pack(pkt.ptype, pkt.tr, pkt.window);
    HoldsNothing(buf);
    n := Append(buf, 0, [first], [], was);
    ghost var w: seq<byte> := [first];
    assert [] + [first] == w;
    l, n := AppendVaruint(pkt.length, buf, n, w, was);
    if l == -1 {
      return;
    }
    w := w + VaruintBytes(pkt.length);
    n := Append(buf, n, [pkt.seqnum], w, was);
    w := w + [pkt.seqnum];
    n := Append(buf, n, Raw(pkt.timestamp), w, was);
  }

  /** The header of pkt_encode, from byte 0 up to the first checksum. */
  method EncodeHeader(pkt: Pkt, buf: array<byte>) returns (status: Status, n: nat)
    requires buf.Length >= if pkt.length < 0x8000 then |Header(pkt.Value())| + 4 else 1
    modifies buf
    ensures status == if pkt.length < 0x8000 then PKT_OK else E_LENGTH
    ensures status == E_LENGTH ==> n == 1 && Holds(buf, [Byte0(pkt.Value())], old(buf[..]))
    ensures status == PKT_OK ==>
      var h := Header(pkt.Value());
      n == |h| + 4 && Holds(buf, h + Network(Crc(Masked(h))), old(buf[..]))
  {
    hide Crc, Network, Masked;
    ghost var was := buf[..];
    var l;
    l, n := EncodeFields(pkt, buf);
    if l == -1 {
      return E_LENGTH, n;
    }
    ghost var h := Header(pkt.Value());
    assert buf[..n] == h;
    n := Append(buf, n, Network(Crc(Masked(buf[..n]))), h, was);
    status := PKT_OK;
  }

  /** pkt_encode: `n` is the value left in `*len`.  The buffer has to be as long as the caller
      says, and to hold the frame: the space checked leaves out the checksum of a payload that
      is present but empty. */
  method Encode(pkt: Pkt, buf: array<byte>, len: nat) returns (status: Status, n: nat)
    requires Encodable(pkt.Value()) && len <= buf.Length
    requires EncodeStatus(pkt.Value(), len) == PKT_OK ==> |Frame(pkt.Value())| <= buf.Length
    modifies buf
    ensures status == EncodeStatus(pkt.Value(), len)
    ensures status == PKT_OK ==> n == |Frame(pkt.Value())| && Holds(buf, Frame(pkt.Value()), old(buf[..]))
    ensures status == E_NOMEM || status == E_TR ==> n == len && buf[..] == old(buf[..])
    ensures status == E_TYPE ==> n == 0 && buf[..] == old(buf[..])
    ensures status == E_LENGTH ==> n == 1 && Holds(buf, [Byte0(pkt.Value())], old(buf[..]))
  {
    hide Crc, Network, Masked, Header, Holds;
    ghost var p := pkt.Value();
    ghost var was := buf[..];
    var tailleCrc2 := 0;
    if pkt.tr == 0 && pkt.length != 0 {
      tailleCrc2 := 4;
    }
    n := len;
    if AsInt(len) < 6 + PredictLen(pkt.length) + 4 + pkt.length + tailleCrc2 {
      return E_NOMEM, n;
    }
    if pkt.ptype != PTYPE_DATA && pkt.tr != 0 {
      return E_TR, n;
    }
    if pkt.ptype == 0 {
      return E_TYPE, 0;
    }
    status, n := EncodeHeader(pkt, buf);
    if status != PKT_OK {
      return;
    }
    ghost var w := Header(p) + Network(Crc(Masked(Header(p))));
    assert Frame(p) == w + PayloadPart(p);
    if pkt.payload.Some? {
      n := EncodePayload(pkt, buf, n, w, was);
    } else {
      assert w == Frame(p);
    }
  }

  /** The payload and its checksum, behind the header. */
  method EncodePayload(pkt: Pkt, buf: array<byte>, at: nat, ghost written: seq<byte>, ghost was: seq<byte>)
    returns (n: nat)
    requires Encodable(pkt.Value()) && pkt.payload.Some?
    requires at == |written| && Holds(buf, written, was)
    requires at + |PayloadPart(pkt.Value())| <= buf.Length
    modifies buf
    ensures n == at + |PayloadPart(pkt.Value())|
    ensures Holds(buf, written + PayloadPart(pkt.Value()), was)
  {
    hide Crc;
    var data := pkt.payload.value[..pkt.length];
    n := Append(buf, at, data, written, was);
    if pkt.tr == 0 {
      assert buf[n - pkt.length..n] == data;
      n := Append(buf, n, Network(Crc(buf[n - pkt.length..n])), written + data, was);
      assert written + data + Network(Crc(data)) == written + PayloadPart(pkt.Value());
    }
  }

  /** pkt_decode */
  method Decode(data: array<byte>, len: nat, pkt: Pkt, memory: bool) returns (status: Status)
    requires Readable(data[..], len)
    modifies pkt
    ensures Decoded(status, pkt.Value()) == Codec.Decode(data[..], len, old(pkt.Value()), memory)
  {
    hide Crc;
    ghost var mem, p := data[..], pkt.Value();
    if len < 7 {
      return E_NOHEADER;
    } else if len < 11 {
      return E_UNCONSISTENT;
    }
    var ptr := 0;
    pkt.ptype, pkt.tr, pkt.window := TypeOf(data[0]), TrOf(data[0]), WindowOf(data[0]);
    if pkt.ptype == 0 {
      return E_TYPE;
    } else if pkt.ptype == PTYPE_DATA && pkt.tr != 0 {
      return E_TR;
    }
    ptr := ptr + 1;
    var leng;
    status, ptr, leng := DecodeFields(data, ptr, pkt);
    if status != PKT_OK {
      return;
    }
    if pkt.ptype == PTYPE_DATA && pkt.tr == 0 {
      status := DecodeBody(data, ptr, leng, pkt, memory);
      return;
    }
    return PKT_OK;
  }

  /** From the length field to the first checksum; the cursor ends behind the latter. */
  method DecodeFields(data: array<byte>, start: nat, pkt: Pkt) returns (status: Status, ptr: nat, leng: uint16)
    requires start == 1 && HasHeader(data[..])
    modifies pkt
    ensures pkt.Value() == DecodeHeader(data[..], old(pkt.Value()))
    ensures status == if HeaderChecks(data[..]) then PKT_OK else E_CRC
    ensures status == PKT_OK ==> ptr == HeaderSize(data[..]) + 4 && leng == LengthField(data[..])
  {
    hide Crc;
    ptr := start;
    var varLength := new byte[2];
    varLength[0], varLength[1] := data[ptr], data[ptr + 1];
    var l;
    l, leng := VaruintDecode(varLength, 2);
    if l == -1 {
      return E_LENGTH, ptr, leng;
    }
    var _ := pkt.SetLength(leng);
    ptr := ptr + l;
    var _ := pkt.SetSeqnum(data[ptr]);
    ptr := ptr + 1;
    var _ := pkt.SetTimestamp(FromRaw(data[ptr..ptr + 4]));
    ptr := ptr + 4;
    var crc1 := FromNetwork(data[ptr..ptr + 4]);
    var _ := pkt.SetCrc1(crc1);
    var crc1check := Crc(Masked(data[..ptr]));
    if crc1 != crc1check {
      return E_CRC, ptr, leng;
    }
    ptr := ptr + 4;
    status := PKT_OK;
  }

  lemma TailSlice(m: seq<byte>, a: nat, i: nat, j: nat)
    requires i <= j && a + j <= |m|
    ensures m[a..][i..j] == m[a + i..a + j]
  {
  }

  /** The payload part of pkt_decode. */
  method DecodeBody(data: array<byte>, start: nat, leng: uint16, pkt: Pkt, memory: bool) returns (status: Status)
    requires data.Length >= 11 && Readable(data[..], 11) && CarriesPayload(data[0])
    requires HasHeader(data[..]) && HeaderChecks(data[..])
    requires start == HeaderSize(data[..]) + 4 && leng == LengthField(data[..])
    modifies pkt
    ensures Decoded(status, pkt.Value()) == DecodePayload(data[..], old(pkt.Value()), memory)
  {
    hide Crc;
    ghost var body := data[..][start..];
    var ptr := start;
    status := pkt.SetPayload(Some(data[ptr..]), leng, memory);
    if status != PKT_OK {
      return;
    }
    assert data[ptr..][..leng] == body[..leng];
    ptr := ptr + leng;
    TailSlice(data[..], start, leng, leng + 4);
    var crc2 := FromNetwork(data[ptr..ptr + 4]);
    status := pkt.SetCrc2(crc2);
    var crc2check := if leng == 0 || pkt.payload.None? then 0 else Crc(pkt.payload.value[..leng]);
    if leng == 0 {
      CrcOfNothing();
      assert body[..leng] == [];
    } else {
      assert pkt.payload.value[..leng] == body[..leng];
    }
    if crc2 != crc2check {
      return E_CRC;
    }
    return PKT_OK;
  }

  // ---------- src/packet_utils.c ----------

  /** The allocation of send_pkt is never too small, neither for what pkt_encode asks nor for
      what it writes. */
  lemma SendSpaceSuffices(p: Packet)
    ensures PredictHeaderLength(p) + 8 + p.length >= 0
    ensures EncodeStatus(p, PredictHeaderLength(p) + 8 + p.length) != E_NOMEM
    ensures Encodable(p) && p.length < 0x8000 ==> |Frame(p)| <= PredictHeaderLength(p) + 8 + p.length
  {
    hide Crc;
    AsIntSmall(PredictHeaderLength(p) + 8 + p.length);
  }

  /** send_pkt: `memory` and `sent` are the outcomes of malloc and sendto; `datagram` is what
      was handed to sendto. */
  method SendPkt(pkt: Pkt, memory: bool, sent: bool) returns (rslt: int, datagram: Option<seq<byte>>)
    requires Encodable(pkt.Value())
    ensures
      var p := pkt.Value();
      var encodable := memory && p.ptype != 0 && (p.tr == 0 || p.ptype == PTYPE_DATA) && p.length < 0x8000;
      && rslt == (if encodable && sent then 1 else -1)
      && datagram == (if encodable then Some(Frame(p)) else None)
  {
    hide Crc, Frame;
    ghost var p := pkt.Value();
    SendSpaceSuffices(p);
    var len := 6 + PredictLen(pkt.length) + 4 + pkt.length + 4;
    if !memory {
      return -1, None;
    }
    var buf := new byte[len];
    var s, n := Encode(pkt, buf, len);
    if s != PKT_OK {
      return -1, None;
    }
    assert buf[..n] == Frame(p);
    datagram := Some(buf[..n]);
    rslt := if sent then 1 else -1;
  }

  /** receive_pkt on its buffer of 528 bytes; `len` is what recv returned, as a size_t, so that
      a failure is a length of 2^64 - 1.  EXIT_FAILURE is 1: the caller cannot tell a packet
      that did not decode, or did not arrive, from one that did. */
  method ReceivePkt(buf: array<byte>, len: nat, pkt: Pkt, memory: bool) returns (rslt: int)
    requires buf.Length == 528
    modifies pkt
    ensures rslt == 1
    ensures Readable(buf[..], len)
    ensures pkt.Value() == Codec.Decode(buf[..], len, old(pkt.Value()), memory).pkt
  {
    ReadsStayInBuffer(buf[..], len);
    var s := Decode(buf, len, pkt, memory);
    if s != PKT_OK {
      return 1;
    }
    return 1;
  }
}
