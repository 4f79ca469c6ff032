/** Packets of the fingerprint sensor: commands built into a buffer, responses parsed in place,
    template bytes read beyond an acknowledgement, and the chunked upload. */
module SensorPackets {
  import opened Options

  type byte = x: int | 0 <= x < 256

  // ----- Commands --------------------------------------------------------------------

  function Sum(s: seq<byte>): nat {
    if s == [] then 0 else Sum(s[..|s| - 1]) + s[|s| - 1]
  }

  /** The bytes that the checksum covers: type, length, command and data. */
  function Covered(cmd: byte, data: seq<byte>): seq<byte>
    requires |data| <= 244
  {
    [1, (3 + |data|) / 256, (3 + |data|) % 256, cmd] + data
  }

  function Packet(cmd: byte, data: seq<byte>): seq<byte>
    requires |data| <= 244
  {
    var sum := Sum(Covered(cmd, data)) % 0x1_0000;
    [0xEF, 0x01, 0, 0, 0, 0] + Covered(cmd, data) + [sum / 256, sum % 256]
  }

  function Word(high: int, low: int): int {
    high * 256 + low
  }

  /** What a receiver makes of a packet: header, its address 0, type, a length that fits, and the
      checksum. */
  function Unpacked(p: seq<byte>): Option<(byte, seq<byte>)> {
    if |p| < 12 || p[..7] != [0xEF, 0x01, 0, 0, 0, 0, 1] then None
    else if Word(p[7], p[8]) != |p| - 9 then None
    else if Sum(p[6..|p| - 2]) % 0x1_0000 != Word(p[|p| - 2], p[|p| - 1]) then None
    else Some((p[9], p[10..|p| - 2]))
  }

  /** A receiver gets back the command and the data, for every command the buffer holds. */
  lemma UnpackedPacket(cmd: byte, data: seq<byte>)
    requires |data| <= 244
    ensures Unpacked(Packet(cmd, data)) == Some((cmd, data))
  {
    var p := Packet(cmd, data);
    assert p[6..|p| - 2] == Covered(cmd, data);
    assert p[10..|p| - 2] == data;
  }

  method CalculateChecksum(packet: array<byte>, from: nat, to: nat) returns (checksum: nat)
    requires from <= to <= packet.Length
    ensures checksum == Sum(packet[from..to]) % 0x1_0000
  {
    checksum := 0;
    for i := from to to
      invariant checksum == Sum(packet[from..i]) % 0x1_0000
    {
      assert packet[from..i + 1][..i - from] == packet[from..i];
      checksum := (checksum + packet[i]) % 0x1_0000;
    }
  }

  /** memcpy into the packet. */
  method CopyInto(packet: array<byte>, at: nat, data: seq<byte>)
    requires at + |data| <= packet.Length
    modifies packet
    ensures packet[..at] == old(packet[..at]) && packet[at..at + |data|] == data
  {
    for k := 0 to |data|
      invariant packet[..at] == old(packet[..at])
      invariant forall j :: 0 <= j < k ==> packet[at + j] == data[j]
    {
      packet[at + k] := data[k];
    }
  }

  /** sendCommand up to the write: the packet in the 256-byte buffer and its length. */
  method BuildPacket(cmd: byte, data: seq<byte>) returns (packet: array<byte>, idx: nat)
    requires |data| <= 244
    ensures packet.Length == 256 && idx == 12 + |data| && packet[..idx] == Packet(cmd, data)
  {
    hide Sum;
    packet := new byte[256](_ => 0);
    packet[0], packet[1], packet[6] := 0xEF, 0x01, 1;
    var length := 3 + |data|;
    packet[7], packet[8], packet[9] := length / 256, length % 256, cmd;
    ghost var head := packet[..10];
    CopyInto(packet, 10, data);
    idx := 10 + |data|;
    assert packet[6..idx] == Covered(cmd, data) by {
      assert packet[6..10] == packet[..10][6..] == head[6..];
      assert packet[6..idx] == packet[6..10] + packet[10..idx];
    }
    var checksum := CalculateChecksum(packet, 6, idx);
    ghost var body := packet[..idx];
    assert body == [0xEF, 0x01, 0, 0, 0, 0] + Covered(cmd, data) by {
      assert packet[..6] == head[..6] == [0xEF, 0x01, 0, 0, 0, 0];
      assert body == packet[..6] + packet[6..idx];
    }
    packet[idx], packet[idx + 1] := checksum / 256, checksum % 256;
    idx := idx + 2;
    assert packet[..idx] == body + [checksum / 256, checksum % 256];
  }

  // ----- Responses ---------------------------------------------------------------------

  predicate HeaderAt(r: seq<byte>, i: nat) {
    i + 12 <= |r| && r[i] == 0xEF && r[i + 1] == 0x01
  }

  /** The first header that leaves room for a packet, or |r|. */
  function FirstHeader(r: seq<byte>, from: nat): (i: nat)
    requires from <= |r|
    ensures from <= i <= |r| && (i < |r| ==> HeaderAt(r, i))
    ensures forall j :: from <= j < i ==> !HeaderAt(r, j)
    decreases |r| - from
  {
    if from == |r| || HeaderAt(r, from) then from else FirstHeader(r, from + 1)
  }

  /** What receiveResponse makes of the bytes read: those from the confirmation code on. */
  function Payload(r: seq<byte>): (p: Option<seq<byte>>)
    ensures p.Some? ==> |p.value| >= 3
  {
    var h := FirstHeader(r, 0);
    if h < |r| then Some(r[h + 9..]) else None
  }

  /** Two bytes EF 01 with room for a packet. */
  lemma HeaderBytes(r: seq<byte>, i: nat)
    ensures HeaderAt(r, i) <==> i + 12 <= |r| && r[i..i + 2] == [0xEF, 0x01]
  {}

  /** What is received is what stands from nine bytes behind the first header on, or nothing. */
  lemma PayloadExact(r: seq<byte>, h: nat)
    requires h + 12 > |r| || r[h..h + 2] == [0xEF, 0x01]
    requires forall j {:trigger r[j..j + 2]} :: 0 <= j < h && j + 12 <= |r| ==> r[j..j + 2] != [0xEF, 0x01]
    ensures Payload(r) == if h + 12 <= |r| then Some(r[h + 9..]) else None
  {
    var i := FirstHeader(r, 0);
    HeaderBytes(r, i);
    HeaderBytes(r, h);
  }

  /** Noise without a header in front of a packet does not change what is received of it. */
  lemma NoiseIsSkipped(noise: seq<byte>, packet: seq<byte>)
    requires |packet| >= 12 && packet[0] == 0xEF && packet[1] == 0x01
    requires forall j {:trigger (noise + packet)[j..j + 2]} :: 0 <= j < |noise| ==> (noise + packet)[j..j + 2] != [0xEF, 0x01]
    ensures Payload(noise + packet) == Payload(packet) == Some(packet[9..])
  {
    PayloadExact(noise + packet, |noise|);
    PayloadExact(packet, 0);
    assert (noise + packet)[|noise| + 9..] == packet[9..];
  }

  /** memmove(response, &response[from], m). */
  method MoveToFront(response: array<byte>, from: nat, m: nat)
    requires from + m <= response.Length
    modifies response
    ensures response[..m] == old(response[from..from + m]) && response[m..] == old(response[m..])
  {
    for j := 0 to m
      invariant forall k :: 0 <= k < response.Length ==>
                  response[k] == if k < j then old(response[k + from]) else old(response[k])
    {
      response[j] := response[j + from];
    }
  }

  /** The second half of receiveResponse: n bytes have been read into the buffer; find the
      header and move the rest to the front. */
  method ParseResponse(response: array<byte>, n: nat) returns (ok: bool, m: nat)
    requires n <= response.Length
    modifies response
    ensures ok <==> exists h: nat :: HeaderAt(old(response[..n]), h)
    ensures ok ==> exists h: nat ::
              && HeaderAt(old(response[..n]), h) && (forall j :: 0 <= j < h ==> !HeaderAt(old(response[..n]), j))
              && m == n - (h + 9) && response[..m] == old(response[h + 9..n])
    ensures ok == Payload(old(response[..n])).Some?
    ensures ok ==> m == |Payload(old(response[..n])).value| <= n && response[..m] == Payload(old(response[..n])).value
    ensures ok ==> response[m..] == old(response[m..])
    ensures !ok ==> response[..] == old(response[..])
  {
    ghost var r := response[..n];
    m := n;
    if n < 12 {
      return false, m;
    }
    var i := 0;
    while i + 12 <= n && !(response[i] == 0xEF && response[i + 1] == 0x01)
      invariant i <= n && forall j :: 0 <= j < i ==> !HeaderAt(r, j)
    {
      i := i + 1;
    }
    if i + 12 > n {
      assert forall j :: 0 <= j < n ==> !HeaderAt(r, j);
      return false, m;
    }
    assert HeaderAt(r, i) && FirstHeader(r, 0) == i;
    m := n - i - 9;
    MoveToFront(response, i + 9, m);
    assert old(response[i + 9..n]) == r[i + 9..];
    assert forall j :: 0 <= j < i ==> !HeaderAt(r, j);
    return true, m;
  }

  // ----- Reading a template ----------------------------------------------------------------

  const ACK_LENGTH := 12
  const MAX_TEMPLATE_SIZE := 650

  /** downloadFingerprintTemplate from the UpChar acknowledgement on: the first read filled the
      16-byte buffer with n bytes, the second read gives the bytes in rest. */
  method RecoverTemplate(response: array<byte>, n: nat, rest: seq<byte>) returns (ok: bool, template: seq<byte>)
    requires response.Length == 16 && n <= 16 && |rest| <= MAX_TEMPLATE_SIZE
    modifies response
    ensures var p := Payload(old(response[..n]));
            && ok == (p.Some? && p.value[0] == 0 && rest != [])
            && (ok ==> template == p.value[3..] + rest)
  {
    template := [];
    var m;
    ok, m := ParseResponse(response, n);
    if !ok || response[0] != 0 || rest == [] {
      return false, [];
    }
    var stolenBytesCount := m - 3;
    if stolenBytesCount > 0 {
      template := template + response[3..m];
    }
    template := template + rest;
  }

  /** No template byte is lost or duplicated.  The sensor sends a 12-byte acknowledgement and
      then the stream; the first read takes n bytes of it, the second the next k. */
  lemma TemplateIsPrefix(ack: seq<byte>, stream: seq<byte>, n: nat, k: nat)
    requires |ack| == ACK_LENGTH && ack[0] == 0xEF && ack[1] == 0x01
    requires ACK_LENGTH <= n && n + k <= ACK_LENGTH + |stream|
    ensures var sent := ack + stream;
            var p := Payload(sent[..n]);
            p.Some? && p.value[0] == ack[9] && p.value[3..] + sent[n..n + k] == stream[..n + k - ACK_LENGTH]
  {
    var sent := ack + stream;
    assert HeaderAt(sent[..n], 0);
    assert sent[..n][9..][3..] == sent[..n][12..];
    assert sent[..n][12..] + sent[n..n + k] == sent[12..n + k];
  }

  // ----- Sending a template ------------------------------------------------------------------

  const MAX_CHUNK := 139

  function Concat(chunks: seq<seq<byte>>): seq<byte> {
    if chunks == [] then [] else Concat(chunks[..|chunks| - 1]) + chunks[|chunks| - 1]
  }

  /** What uploadTemplateToSensor sends for a stored template: a template that lost its first
      four bytes gets them back. */
  function Repaired(template: seq<byte>): seq<byte> {
    if |template| >= 4 && template[0] == 0 && template[1] == 0 && template[2] == 8
    then [0xEF, 0x01, 0, 0] + template else template
  }

  /** The repair undoes the loss, and leaves whole templates alone. */
  lemma RepairRestores(stream: seq<byte>)
    requires |stream| >= 8 && stream[..7] == [0xEF, 0x01, 0, 0, 0, 0, 8]
    ensures Repaired(stream[4..]) == stream && Repaired(stream) == stream && [0xEF, 0x01] < stream
  {
    assert stream[4..][0] == stream[..7][4] && stream[4..][1] == stream[..7][5] && stream[4..][2] == stream[..7][6];
    assert stream[0] == stream[..7][0] && stream[1] == stream[..7][1];
    assert stream == stream[..7][..4] + stream[4..];
  }

  /** It touches nothing but templates that begin with what is left of the lost header. */
  lemma RepairExact(template: seq<byte>)
    ensures if |template| >= 4 && template[..3] == [0, 0, 8]
            then Repaired(template) == [0xEF, 0x01, 0, 0] + template else Repaired(template) == template
  {
    if |template| >= 4 {
      assert template[..3] == [template[0], template[1], template[2]];
    }
  }

  lemma ConcatSnoc(chunks: seq<seq<byte>>, chunk: seq<byte>)
    ensures Concat(chunks + [chunk]) == Concat(chunks) + chunk
  {
    assert (chunks + [chunk])[..|chunks|] == chunks;
  }

  lemma ChunkCount(size: nat, count: nat)
    requires MAX_CHUNK * (count - 1) < size <= MAX_CHUNK * count
    ensures count == (size + MAX_CHUNK - 1) / MAX_CHUNK
  {
  }

  /** The send loop.  accepts(i) says whether the i-th write takes its whole chunk. */
  method UploadTemplate(template: seq<byte>, accepts: nat -> bool) returns (ok: bool, chunks: seq<seq<byte>>)
    ensures forall c :: c in chunks ==> 0 < |c| <= 139
    ensures Concat(chunks) <= Repaired(template)
    ensures ok ==> [0xEF, 0x01] < Repaired(template) && Concat(chunks) == Repaired(template)
    ensures ok ==> |chunks| == (|Repaired(template)| + 138) / 139
    ensures !([0xEF, 0x01] < Repaired(template)) ==> !ok && chunks == []
    ensures [0xEF, 0x01] < Repaired(template) ==> ok == forall i :: 0 <= i < |chunks| ==> accepts(i)
  {
    var data := Repaired(template);
    chunks := [];
    if |data| <= 2 || data[0] != 0xEF || data[1] != 0x01 {
      return false, chunks;
    }
    assert |data| > 0 && data[..0] == [] == Concat(chunks);
    hide Repaired, Concat;
    var remaining, offset := |data|, 0;
    while remaining > 0
      invariant 0 <= offset <= |data| && remaining + offset == |data| && Concat(chunks) == data[..offset]
      invariant forall c :: c in chunks ==> 0 < |c| <= MAX_CHUNK
      invariant forall i :: 0 <= i < |chunks| ==> accepts(i)
      invariant if remaining > 0 then offset == MAX_CHUNK * |chunks|
                else MAX_CHUNK * (|chunks| - 1) < |data| <= MAX_CHUNK * |chunks|
    {
      var chunkSize := if remaining < MAX_CHUNK then remaining else MAX_CHUNK;
      var chunk := data[offset..offset + chunkSize];
      var sent := accepts(|chunks|);
      ConcatSnoc(chunks, chunk);
      assert data[..offset] + chunk == data[..offset + chunkSize];
      chunks := chunks + [chunk];
      if !sent {
        assert !accepts(|chunks| - 1);
        return false, chunks;
      }
      offset := offset + chunkSize;
      remaining := remaining - chunkSize;
    }
    assert data[..offset] == data;
    ChunkCount(|data|, |chunks|);
    return true, chunks;
  }
}
