/** The packet structure of src/packet_implem.c, its setters, and the packet constructors of
    src/packet_utils.c.  The host is little-endian with the low bit field first, so that byte 0
    is `type << 6 | tr << 5 | window`. */
module Packet {
  import opened Crc32
  import opened Wrappers

  type uint16 = x: int | 0 <= x < 0x1_0000
  type bit = x: int | 0 <= x < 2
  type bits2 = x: int | 0 <= x < 4
  type bits5 = x: int | 0 <= x < 32

  const MAX_PAYLOAD_SIZE: int := 512
  const PTYPE_DATA: bits2 := 1
  const PTYPE_ACK: bits2 := 2
  const PTYPE_NACK: bits2 := 3

  datatype Status = PKT_OK | E_TYPE | E_TR | E_LENGTH | E_CRC | E_WINDOW | E_SEQNUM
                  | E_NOMEM | E_NOHEADER | E_UNCONSISTENT

  /** The value of the structure; a null payload pointer is `None`. */
  datatype Packet = Packet(ptype: bits2, tr: bit, window: bits5, length: uint16, seqnum: byte,
                           timestamp: uint32, crc1: uint32, payload: Option<seq<byte>>, crc2: uint32)

  /** What calloc leaves in a new packet. */
  const BLANK: Packet := Packet(0, 0, 0, 0, 0, 0, 0, None, 0)

  /** Equal in everything the sender chose, that is, in all but the two checksum fields. */
  predicate SameContent(p: Packet, q: Packet) {
    p.(crc1 := 0, crc2 := 0) == q.(crc1 := 0, crc2 := 0)
  }

  /** A packet as the protocol sends it: TR clear, a payload exactly on DATA packets, of the
      size the length field says. */
  predicate Sendable(p: Packet) {
    && p.ptype != 0
    && p.tr == 0
    && (p.ptype == PTYPE_DATA ==> p.payload.Some? && 1 <= p.length <= MAX_PAYLOAD_SIZE && |p.payload.value| == p.length)
    && (p.ptype != PTYPE_DATA ==> p.payload.None? && p.length == 0)
  }

  // ---------- what the setters with conditions do ----------

  function WithLength(p: Packet, length: uint16): Packet {
    if length > MAX_PAYLOAD_SIZE then p else p.(length := length)
  }

  /** pkt_set_payload; `memory` is the outcome of its calloc. */
  function PayloadStatus(length: uint16, present: bool, memory: bool): Status {
    if length > MAX_PAYLOAD_SIZE then E_NOMEM
    else if !present || length == 0 || memory then PKT_OK
    else E_NOMEM
  }

  function WithPayload(p: Packet, data: Option<seq<byte>>, length: uint16, memory: bool): Packet
    requires data.Some? ==> |data.value| >= length || length > MAX_PAYLOAD_SIZE
  {
    if length > MAX_PAYLOAD_SIZE || data.None? || length == 0 then p
    else if memory then p.(payload := Some(data.value[..length]), length := length)
    else if p.payload.Some? then p.(payload := None, length := 0)
    else p
  }

  class Pkt {
    var ptype: bits2
    var tr: bit
    var window: bits5
    var length: uint16
    var seqnum: byte
    var timestamp: uint32
    var crc1: uint32
    var payload: Option<seq<byte>>
    var crc2: uint32

    ghost function Value(): Packet
      reads this
    {
      Packet(ptype, tr, window, length, seqnum, timestamp, crc1, payload, crc2)
    }

    /** pkt_new */
    constructor ()
      ensures Value() == BLANK
    {
      ptype, tr, window, length, seqnum := 0, 0, 0, 0, 0;
      timestamp, crc1, payload, crc2 := 0, 0, None, 0;
    }

    method SetType(t: int) returns (s: Status)
      modifies this
      ensures s == if 1 <= t <= 3 then PKT_OK else E_TYPE
      ensures Value() == if 1 <= t <= 3 then old(Value()).(ptype := t) else old(Value())
    {
      if t == PTYPE_DATA {
        ptype := 1;
        return PKT_OK;
      } else if t == PTYPE_ACK {
        ptype := 2;
        return PKT_OK;
      } else if t == PTYPE_NACK {
        ptype := 3;
        return PKT_OK;
      } else {
        return E_TYPE;
      }
    }

    /** The one-bit field keeps the low bit of its argument. */
    method SetTr(t: byte) returns (s: Status)
      modifies this
      ensures s == if ptype == PTYPE_DATA then PKT_OK else E_TR
      ensures Value() == if old(ptype) == PTYPE_DATA then old(Value()).(tr := t % 2) else old(Value())
    {
      if ptype != 1 {
        return E_TR;
      }
      tr := t % 2;
      return PKT_OK;
    }

    method SetWindow(w: byte) returns (s: Status)
      modifies this
      ensures s == if w > 31 then E_WINDOW else PKT_OK
      ensures Value() == if w > 31 then old(Value()) else old(Value()).(window := w)
    {
      if w > 31 {
        return E_WINDOW;
      }
      window := w;
      return PKT_OK;
    }

    method SetSeqnum(n: byte) returns (s: Status)
      modifies this
      ensures s == PKT_OK && Value() == old(Value()).(seqnum := n)
    {
      seqnum := n;
      return PKT_OK;
    }

    method SetLength(n: uint16) returns (s: Status)
      modifies this
      ensures s == if n > 512 then E_LENGTH else PKT_OK
      ensures Value() == WithLength(old(Value()), n)
      ensures Value() == if n > 512 then old(Value()) else old(Value()).(length := n)
    {
      if n > MAX_PAYLOAD_SIZE {
        return E_LENGTH;
      }
      length := n % 0x8000;
      return PKT_OK;
    }

    method SetTimestamp(t: uint32) returns (s: Status)
      modifies this
      ensures s == PKT_OK && Value() == old(Value()).(timestamp := t)
    {
      timestamp := t;
      return PKT_OK;
    }

    method SetCrc1(c: uint32) returns (s: Status)
      modifies this
      ensures s == PKT_OK && Value() == old(Value()).(crc1 := c)
    {
      crc1 := c;
      return PKT_OK;
    }

    method SetCrc2(c: uint32) returns (s: Status)
      modifies this
      ensures s == PKT_OK && Value() == old(Value()).(crc2 := c)
    {
      crc2 := c;
      return PKT_OK;
    }

    method SetPayload(data: Option<seq<byte>>, n: uint16, memory: bool) returns (s: Status)
      requires data.Some? ==> |data.value| >= n || n > MAX_PAYLOAD_SIZE
      modifies this
      ensures s == PayloadStatus(n, data.Some?, memory)
      ensures Value() == WithPayload(old(Value()), data, n, memory)
      ensures n > 512 ==> s == E_NOMEM && Value() == old(Value())
      ensures n <= 512 && (data.None? || n == 0) ==> s == PKT_OK && Value() == old(Value())
      ensures 0 < n <= 512 && data.Some? && memory ==>
                s == PKT_OK && Value() == old(Value()).(payload := Some(data.value[..n]), length := n)
      ensures 0 < n <= 512 && data.Some? && !memory ==>
                s == E_NOMEM && payload.None? && length == (if old(payload).Some? then 0 else old(length))
                && Value() == old(Value()).(payload := None, length := length)
    {
      if n > MAX_PAYLOAD_SIZE {
        return E_NOMEM;
      } else if data.None? || n == 0 {
        return PKT_OK;
      } else if payload.Some? {
        payload := None;
        length := 0;
      }
      if !memory {
        return E_NOMEM;
      }
      payload := Some(data.value[..n]);
      length := n;
      return PKT_OK;
    }

    /** create_data_pkt: 1 on success, -1 at the first setter that refuses. */
    method CreateData(t: byte, w: byte, n: uint16, number: byte, ts: uint32, data: Option<seq<byte>>, memory: bool)
      returns (rslt: int)
      requires data.Some? ==> |data.value| >= n || n > MAX_PAYLOAD_SIZE
      modifies this
      ensures rslt == if w <= 31 && PayloadStatus(n, data.Some?, memory) == PKT_OK then 1 else -1
      ensures rslt == 1 ==> (
        var header := old(Value()).(ptype := PTYPE_DATA, tr := t % 2, window := w, length := n,
                                    seqnum := number, timestamp := ts);
        Value() == WithPayload(header, data, n, memory))
      ensures rslt == 1 && t % 2 == 0 && n > 0 && data.Some? ==> Sendable(Value())
    {
      var s := SetType(PTYPE_DATA);
      if s != PKT_OK { return -1; }
      s := SetTr(t);
      if s != PKT_OK { return -1; }
      s := SetWindow(w);
      if s != PKT_OK { return -1; }
      s := SetLength(n);
      if s != PKT_OK { return -1; }
      s := SetSeqnum(number);
      if s != PKT_OK { return -1; }
      s := SetTimestamp(ts);
      if s != PKT_OK { return -1; }
      s := SetPayload(data, n, memory);
      if s != PKT_OK { return -1; }
      return 1;
    }

    /** create_ack_pkt: 11 on success (sic), -1 if the window does not fit. */
    method CreateAck(w: byte, number: byte, ts: uint32) returns (rslt: int)
      modifies this
      ensures rslt == if w <= 31 then 11 else -1
      ensures rslt == 11 ==> (
        Value() == old(Value()).(ptype := PTYPE_ACK, window := w, length := 0, seqnum := number, timestamp := ts))
      ensures rslt == 11 && old(tr) == 0 && old(payload).None? ==> Sendable(Value())
    {
      var s := SetType(PTYPE_ACK);
      if s != PKT_OK { return -1; }
      s := SetWindow(w);
      if s != PKT_OK { return -1; }
      s := SetLength(0);
      if s != PKT_OK { return -1; }
      s := SetSeqnum(number);
      if s != PKT_OK { return -1; }
      s := SetTimestamp(ts);
      if s != PKT_OK { return -1; }
      return 11;
    }
  }
}
