/**
 * The frames the host's YMODEM sender writes: the block-0 file-information
 * frame and the 128- and 1024-byte data frames, each a header of three
 * bytes (type, block number, its complement), a payload, and the
 * CRC-16/XMODEM of the payload, high byte first. The builders fill a
 * `bytearray` index by index; so do the methods here, and each is proved
 * equal to a declarative description of the frame.
 */
module YmodemFrames {
  import opened Wrappers
  import opened Bytes
  import opened Crc

  const SOH: byte := 0x01
  const STX: byte := 0x02
  const EOT: byte := 0x04
  const ACK: byte := 0x06
  const NAK: byte := 0x15
  const CA: byte := 0x18
  /** 'C', the receiver's request for CRC-16 mode. */
  const CRC16: byte := 0x43
  /** The padding byte of a short last block. */
  const PAD: byte := 0x1A

  function Zeros(n: nat): (r: seq<byte>)
    ensures |r| == n
    ensures forall i :: 0 <= i < n ==> r[i] == 0
  {
    seq(n, _ => 0)
  }

  // ---------------------------------------------------------------------------
  // Block 0: file name and size

  /** `filename.encode('ascii', 'ignore')`: the ASCII characters, the others dropped. */
  function AsciiBytes(name: string): (r: seq<byte>)
    ensures |r| <= |name|
    ensures forall i :: 0 <= i < |r| ==> r[i] < 0x80
  {
    if name == [] then []
    else
      var rest := AsciiBytes(name[1..]);
      if name[0] as int < 0x80 then [name[0] as int] + rest else rest
  }

  /**
   * The bytes the builder stores from offset 3 on: the name, a NUL, the
   * decimal size, and the NUL that ends the size.
   */
  function FileInfoFields(name: string, size: nat): (s: seq<byte>)
    ensures |s| == |AsciiBytes(name)| + |Decimal(size)| + 2
  {
    AsciiBytes(name) + [0] + Decimal(size) + [0]
  }

  /**
   * Block 0 as `send_file_header` builds it, or None when a store would fall
   * past the 133-byte buffer (Python raises `IndexError`). The fields are
   * zero-padded, but only the first 128 bytes form the payload: the bytes at
   * offsets 131 and 132 are overwritten by the CRC.
   */
  function FileInfoFrame(name: string, size: nat): (r: Option<seq<byte>>)
    ensures r.Some? <==> |AsciiBytes(name)| + |Decimal(size)| <= 128
    ensures r.Some? ==> |r.value| == 133
  {
    var s := FileInfoFields(name, size);
    if |s| > 130 then None
    else
      var payload := (s + Zeros(130 - |s|))[..128];
      Some([SOH, 0x00, 0xFF] + payload + Crc16Bytes(Crc16Value(payload)))
  }

  /** The buffer after storing `s` from offset 3 into a zeroed 133-byte frame. */
  function Stored(s: seq<byte>): (r: seq<byte>)
    requires |s| <= 130
    ensures |r| == 133
  {
    [SOH, 0x00, 0xFF] + s + Zeros(130 - |s|)
  }

  lemma StoredZero(s: seq<byte>)
    requires |s| < 130
    ensures Stored(s)[3 + |s| := 0] == Stored(s + [0])
  {
    assert Stored(s)[3 + |s| := 0] == Stored(s + [0]);
  }

  lemma StoredPayload(s: seq<byte>)
    requires |s| <= 130
    ensures Stored(s)[3..131] == (s + Zeros(130 - |s|))[..128]
    ensures Stored(s)[..131] == [SOH, 0x00, 0xFF] + Stored(s)[3..131]
  {
  }

  lemma StoredByte(s: seq<byte>, b: byte)
    requires |s| < 130
    ensures Stored(s)[3 + |s| := b] == Stored(s + [b])
  {
  }

  /**
   * One of the builder's store loops: the bytes go to consecutive offsets
   * from `index` on, and a store past offset 132 is an `IndexError`.
   */
  method StoreAll(header: array<byte>, index: nat, bytes: seq<byte>, ghost before: seq<byte>)
      returns (next: nat, ok: bool)
    requires header.Length == 133 && |before| <= 130
    requires index == 3 + |before| && header[..] == Stored(before)
    modifies header
    ensures ok <==> |before| + |bytes| <= 130
    ensures ok ==> next == index + |bytes| && header[..] == Stored(before + bytes)
  {
    next := index;
    for k := 0 to |bytes|
      invariant next == index + k && |before| + k <= 130
      invariant header[..] == Stored(before + bytes[..k])
    {
      if next >= 133 {
        return next, false;
      }
      StoredByte(before + bytes[..k], bytes[k]);
      assert before + bytes[..k] + [bytes[k]] == before + bytes[..k + 1];
      header[next] := bytes[k];
      next := next + 1;
    }
    assert bytes[..|bytes|] == bytes;
    ok := true;
  }

  /**
   * `send_file_header`'s frame construction, from the `bytearray(133)` to the
   * CRC stores.
   */
  method BuildFileInfoFrame(name: string, size: nat) returns (r: Option<seq<byte>>)
    ensures r == FileInfoFrame(name, size)
  {
    var nameBytes := AsciiBytes(name);
    var sizeStr := Decimal(size);
    var header := new byte[133](_ => 0);
    header[0] := SOH;
    header[1] := 0x00;
    header[2] := 0xFF;
    assert header[..] == Stored([]);
    var dataIndex, ok := StoreAll(header, 3, nameBytes, []);
    if !ok || dataIndex >= 133 {
      return None;
    }
    StoredZero(nameBytes);
    header[dataIndex] := 0x00;
    dataIndex := dataIndex + 1;
    var prefix := nameBytes + [0];
    dataIndex, ok := StoreAll(header, dataIndex, sizeStr, prefix);
    if !ok || dataIndex >= 133 {
      return None;
    }
    StoredZero(prefix + sizeStr);
    header[dataIndex] := 0x00;
    var fields := prefix + sizeStr + [0];
    assert fields == FileInfoFields(name, size);
    var frame := PadAndSeal(header, dataIndex, fields);
    FileInfoFrameOf(name, size, (fields + Zeros(130 - |fields|))[..128]);
    r := Some(frame);
  }

  /**
   * The end of `send_file_header`'s construction: zeros up to offset 130,
   * then the CRC of offsets 3 to 130 into the last two bytes.
   */
  method PadAndSeal(header: array<byte>, index: nat, ghost fields: seq<byte>) returns (frame: seq<byte>)
    requires header.Length == 133 && 1 <= |fields| <= 130
    requires index == 3 + |fields| - 1 && header[..] == Stored(fields)
    requires fields[|fields| - 1] == 0
    modifies header
    ensures var payload := (fields + Zeros(130 - |fields|))[..128];
      frame == [SOH, 0x00, 0xFF] + payload + Crc16Bytes(Crc16Value(payload))
  {
    var dataIndex := index;
    while dataIndex < 131
      invariant 3 <= dataIndex <= 133
      invariant header[..] == Stored(fields)
      invariant dataIndex < 131 ==> dataIndex >= index
    {
      assert Stored(fields)[dataIndex] == 0;
      header[dataIndex] := 0x00;
      dataIndex := dataIndex + 1;
    }
    StoredPayload(fields);
    frame := StoreCrc(header, 128);
  }

  lemma FileInfoFrameOf(name: string, size: nat, payload: seq<byte>)
    requires |FileInfoFields(name, size)| <= 130
    requires payload == (FileInfoFields(name, size) + Zeros(130 - |FileInfoFields(name, size)|))[..128]
    ensures FileInfoFrame(name, size) == Some([SOH, 0x00, 0xFF] + payload + Crc16Bytes(Crc16Value(payload)))
  {
  }

  // ---------------------------------------------------------------------------
  // Data blocks

  /** A block other than a 1 KB one: padded with 0x1A up to 128 bytes, or cut to 128. */
  function Block128(data: seq<byte>): (r: seq<byte>)
    ensures |r| == 128
  {
    if |data| < 128 then data + seq(128 - |data|, _ => PAD) else data[..128]
  }

  /** The payload `send_data_packet` puts in a frame: 1024 bytes exactly, or a 128-byte block. */
  function DataPayload(data: seq<byte>): (r: seq<byte>)
    ensures |r| == (if |data| == 1024 then 1024 else 128)
  {
    if |data| == 1024 then data else Block128(data)
  }

  /**
   * The frame `send_data_packet` writes for block `n`: STX for exactly 1024
   * bytes and SOH otherwise, the block number modulo 256 and its complement,
   * the payload, and the CRC of the payload alone.
   */
  function DataFrame(n: nat, data: seq<byte>): (r: seq<byte>)
  {
    var payload := DataPayload(data);
    [if |data| == 1024 then STX else SOH, n % 0x100, 0xFF - n % 0x100]
    + payload + Crc16Bytes(Crc16Value(payload))
  }

  /** `~n & 0xFF` on a Python integer is the complement of the block number's low byte. */
  lemma ComplementByte(n: nat)
    ensures (-(n as int) - 1) % 0x100 == 0xFF - n % 0x100
  {
  }

  /** The frame construction of `send_data_packet`. */
  method BuildDataFrame(n: nat, data: seq<byte>) returns (r: seq<byte>)
    ensures r == DataFrame(n, data)
  {
    var packetSize := |data|;
    var is1k := packetSize == 1024;
    var packet: array<byte>;
    var sizeToSend: nat;
    var padded := data;
    if is1k {
      packet := new byte[1029](_ => 0);
      packet[0] := STX;
      sizeToSend := 1024;
    } else {
      packet := new byte[133](_ => 0);
      packet[0] := SOH;
      sizeToSend := 128;
      if packetSize < 128 {
        padded := data + seq(128 - packetSize, _ => PAD);
      }
    }
    packet[1] := n % 0x100;
    ComplementByte(n);
    packet[2] := (-(n as int) - 1) % 0x100;
    var payload := padded[..sizeToSend];
    assert payload == DataPayload(data);
    ghost var head := packet[..3];
    assert head == [if is1k then STX else SOH, n % 0x100, 0xFF - n % 0x100];
    CopyPayload(packet, payload);
    ghost var body := packet[..3 + sizeToSend];
    r := StoreCrc(packet, sizeToSend);
    assert r == body + Crc16Bytes(Crc16Value(payload));
  }

  /** `packet[3:3+len(payload)] = payload`: the slice store of `send_data_packet`. */
  method CopyPayload(packet: array<byte>, payload: seq<byte>)
    requires packet.Length == |payload| + 5
    modifies packet
    ensures packet[..3 + |payload|] == old(packet[..3]) + payload
    ensures packet[3..3 + |payload|] == payload
  {
    ghost var head := packet[..3];
    for k := 0 to |payload|
      invariant packet[..3 + k] == head + payload[..k]
    {
      assert head + payload[..k] + [payload[k]] == head + payload[..k + 1];
      packet[3 + k] := payload[k];
    }
    assert payload[..|payload|] == payload;
  }

  /** The last two stores of both builders: the CRC of the payload, high byte first. */
  method StoreCrc(packet: array<byte>, size: nat) returns (frame: seq<byte>)
    requires packet.Length == size + 5
    modifies packet
    ensures frame == old(packet[..3 + size]) + Crc16Bytes(Crc16Value(old(packet[3..3 + size])))
  {
    ghost var body := packet[..3 + size];
    var crc := CalculateCrc(packet[3..3 + size]);
    packet[3 + size] := crc / 0x100;
    packet[3 + size + 1] := crc % 0x100;
    assert packet[..3 + size] == body;
    assert packet[..] == packet[..3 + size] + packet[3 + size..];
    frame := packet[..];
  }
  // ---------------------------------------------------------------------------
  // Properties of the frames

  /**
   * A data frame is 1029 bytes starting STX for a 1 KB block and 133 bytes
   * starting SOH otherwise; byte 1 is the block number modulo 256 and byte 2
   * its complement, so the two always add up to 255.
   */
  lemma DataFrameHeader(n: nat, data: seq<byte>)
    ensures var r := DataFrame(n, data);
      |r| == (if |data| == 1024 then 1029 else 133)
      && r[0] == (if |data| == 1024 then STX else SOH)
      && r[1] == n % 0x100
      && r[1] + r[2] == 0xFF
  {
  }

  /**
   * A block of at most 128 bytes, or of exactly 1024, travels unchanged right
   * after the three header bytes, followed by 0x1A padding up to the payload
   * size; a longer block is cut to its first 128 bytes.
   */
  lemma DataFrameCarriesData(n: nat, data: seq<byte>)
    ensures var r := DataFrame(n, data);
      var size := |DataPayload(data)|;
      (|data| <= 128 || |data| == 1024 ==>
        r[3..3 + |data|] == data
        && forall i :: 3 + |data| <= i < 3 + size ==> r[i] == PAD)
      && (|data| > 128 && |data| != 1024 ==> r[3..3 + size] == data[..128])
  {
    var r := DataFrame(n, data);
    var payload := DataPayload(data);
    assert r[3..3 + |payload|] == payload;
    if |data| < 128 {
      assert payload[..|data|] == data;
    }
  }

  /**
   * A receiver that runs the CRC over everything after the header, payload
   * and check bytes together, obtains 0.
   */
  lemma DataFrameCrcChecks(n: nat, data: seq<byte>)
    ensures var r := DataFrame(n, data); Crc16(r[3..]) == 0
  {
    var payload := DataPayload(data);
    var r := DataFrame(n, data);
    assert r[3..] == payload + Crc16Bytes(Crc16Value(payload));
    Crc16OfPayloadAndCrc(payload);
  }

  /**
   * When the name and the size leave room for both terminators, block 0
   * carries the ASCII name, a NUL, the decimal size and a NUL, then zeros up
   * to byte 130, and its CRC checks.
   */
  lemma FileInfoFrameFields(name: string, size: nat)
    requires |AsciiBytes(name)| + |Decimal(size)| <= 126
    ensures FileInfoFrame(name, size).Some?
    ensures var r := FileInfoFrame(name, size).value;
      var fields := FileInfoFields(name, size);
      r[..3] == [SOH, 0x00, 0xFF]
      && r[3..3 + |fields|] == AsciiBytes(name) + [0] + Decimal(size) + [0]
      && (forall i :: 3 + |fields| <= i < 131 ==> r[i] == 0)
      && Crc16(r[3..]) == 0
  {
    var fields := FileInfoFields(name, size);
    var payload := (fields + Zeros(130 - |fields|))[..128];
    assert FileInfoFrame(name, size) == Some([SOH, 0x00, 0xFF] + payload + Crc16Bytes(Crc16Value(payload)));
    PaddedFrame(fields);
  }

  /** Block 0 built around any fields of at most 128 bytes. */
  lemma PaddedFrame(fields: seq<byte>)
    requires |fields| <= 128
    ensures var payload := (fields + Zeros(130 - |fields|))[..128];
      var r := [SOH, 0x00, 0xFF] + payload + Crc16Bytes(Crc16Value(payload));
      r[..3] == [SOH, 0x00, 0xFF]
      && r[3..3 + |fields|] == fields
      && (forall i :: 3 + |fields| <= i < 131 ==> r[i] == 0)
      && Crc16(r[3..]) == 0
  {
    var payload := (fields + Zeros(130 - |fields|))[..128];
    PaddedFields(fields, Crc16Bytes(Crc16Value(payload)));
    Crc16OfPayloadAndCrc(payload);
  }

  /** Where the zero-padded fields and the check bytes sit in block 0, whatever the check bytes are. */
  lemma PaddedFields(fields: seq<byte>, tail: seq<byte>)
    requires |fields| <= 128
    ensures var payload := (fields + Zeros(130 - |fields|))[..128];
      var r := [SOH, 0x00, 0xFF] + payload + tail;
      r[..3] == [SOH, 0x00, 0xFF] && r[3..] == payload + tail
      && r[3..3 + |fields|] == fields
      && (forall i :: 3 + |fields| <= i < 131 ==> r[i] == 0)
  {
    var payload := (fields + Zeros(130 - |fields|))[..128];
    var r := [SOH, 0x00, 0xFF] + payload + tail;
    assert r[3..3 + |fields|] == payload[..|fields|] == fields;
    forall i | 3 + |fields| <= i < 131
      ensures r[i] == 0
    {
      assert r[i] == payload[i - 3] == Zeros(130 - |fields|)[i - 3 - |fields|];
    }
  }

  /**
   * When the name and the size fill 127 or 128 bytes the frame is still
   * sent, but its payload ends before the size's terminator: the stores at
   * offsets 131 and 132 were overwritten by the CRC.
   */
  lemma FileInfoFrameLosesTerminator(name: string, size: nat)
    requires 127 <= |AsciiBytes(name)| + |Decimal(size)| <= 128
    ensures FileInfoFrame(name, size).Some?
    ensures var r := FileInfoFrame(name, size).value;
      var fields := FileInfoFields(name, size);
      128 < |fields| && r[3..131] == fields[..128]
  {
    var fields := FileInfoFields(name, size);
    var payload := (fields + Zeros(130 - |fields|))[..128];
    var r := FileInfoFrame(name, size).value;
    assert r[3..131] == payload;
  }
}
