/**
  The reply to the receiver-channel status request: one five-byte record per
  channel (system, satellite number, SNR, channel status, pseudorange sign),
  with GLONASS satellite numbers above 128 read as negative carrier slots.
*/
module ReceiverChannels {
  import opened Framing

  /** One channel record of the reply. */
  datatype ChannelStatus = ChannelStatus(system: int, number: int, snr: int, status: int, pseudorangeSign: int)

  /** The satellite number as reported: for GLONASS (system 2) a byte above 128
      is read as that byte minus 256, any other number as it stands. */
  function SlotNumber(system: byte, number: byte): (r: int)
    ensures r == number || r == number - 256
    ensures r < 0 <==> system == 2 && number > 128
    ensures system == 2 ==> -127 <= r <= 128
  {
    if system == 2 && number > 128 then (256 - number) * -1 else number
  }

  /** The record that starts at byte `5 * i`. */
  function ChannelAt(data: seq<byte>, i: nat): (r: ChannelStatus)
    requires 5 * i + 5 <= |data|
    ensures [r.system, r.snr, r.status, r.pseudorangeSign] == [data[5 * i], data[5 * i + 2], data[5 * i + 3], data[5 * i + 4]]
    ensures r.number % 256 == data[5 * i + 1]
    ensures r.number < 0 <==> r.system == 2 && data[5 * i + 1] > 128
  {
    ChannelStatus(data[5 * i], SlotNumber(data[5 * i], data[5 * i + 1]), data[5 * i + 2], data[5 * i + 3], data[5 * i + 4])
  }

  /** The first `count` records of `data`. */
  function Channels(data: seq<byte>, count: nat): (r: seq<ChannelStatus>)
    requires 5 * count <= |data|
    ensures |r| == count
    ensures forall i :: 0 <= i < count ==> r[i] == ChannelAt(data, i)
  {
    if count == 0 then [] else Channels(data, count - 1) + [ChannelAt(data, count - 1)]
  }

  /** Both record counts stay inside the data. */
  lemma CountsFit(n: nat)
    ensures 5 * (n / 6) <= n && 5 * (n / 5) <= n
  {
    assert n == 6 * (n / 6) + n % 6;
    assert n == 5 * (n / 5) + n % 5;
  }

  /** The loop of the decoder: appends the records 0 .. numChannels - 1. */
  method ReadChannels(data: seq<byte>, numChannels: nat) returns (receiverChannels: seq<ChannelStatus>)
    requires 5 * numChannels <= |data|
    ensures receiverChannels == Channels(data, numChannels)
  {
    receiverChannels := [];
    for i := 0 to numChannels
      invariant receiverChannels == Channels(data, i)
    {
      var system := data[0 + i * 5];
      var number: int := data[1 + i * 5];
      if system == 2 {
        if number > 128 {
          number := (256 - number) * -1;
        }
      }
      var snr := data[2 + i * 5];
      var chStatus := data[3 + i * 5];
      var pseudoStatus := data[4 + i * 5];
      receiverChannels := receiverChannels + [ChannelStatus(system, number, snr, chStatus, pseudoStatus)];
    }
  }

  /** The decoder as written: it takes the number of channels to be the data
      length divided by six, and reads records five bytes apart. */
  method ProcessStatusOfReceiverChannels(data: seq<byte>) returns (receiverChannels: seq<ChannelStatus>)
    ensures receiverChannels == Channels(data, |data| / 6)
    ensures |receiverChannels| == |data| / 6
  {
    CountsFit(|data|);
    receiverChannels := ReadChannels(data, |data| / 6);
  }

  /** The decoder as evidently intended: one record per five bytes. */
  method ProcessStatusOfReceiverChannelsCorrected(data: seq<byte>) returns (receiverChannels: seq<ChannelStatus>)
    ensures receiverChannels == Channels(data, |data| / 5)
    ensures |receiverChannels| == |data| / 5
  {
    CountsFit(|data|);
    receiverChannels := ReadChannels(data, |data| / 5);
  }

  /** A record the receiver can send: every field a byte, and a GLONASS number
      in the range the decoder can give back. */
  predicate Encodable(c: ChannelStatus)
  {
    0 <= c.system < 256 && 0 <= c.snr < 256 && 0 <= c.status < 256 && 0 <= c.pseudorangeSign < 256 &&
    if c.system == 2 then -127 <= c.number <= 128 else 0 <= c.number < 256
  }

  predicate AllEncodable(cs: seq<ChannelStatus>)
  {
    forall i :: 0 <= i < |cs| ==> Encodable(cs[i])
  }

  /** The byte the receiver sends for a record's satellite number. */
  function NumberByte(c: ChannelStatus): (r: byte)
    requires Encodable(c)
    ensures SlotNumber(c.system, r) == c.number
  {
    if c.number < 0 then c.number + 256 else c.number
  }

  /** The reply bytes for a list of records, five bytes per record. */
  function ChannelBytes(cs: seq<ChannelStatus>): (r: seq<byte>)
    requires AllEncodable(cs)
    ensures |r| == 5 * |cs|
  {
    if cs == [] then []
    else
      var c := cs[|cs| - 1];
      ChannelBytes(cs[..|cs| - 1]) + [c.system, NumberByte(c), c.snr, c.status, c.pseudorangeSign]
  }

  /** Reading record `i` of the reply bytes gives record `i` back. */
  lemma {:induction false} ChannelAtBytes(cs: seq<ChannelStatus>, i: nat)
    requires AllEncodable(cs) && i < |cs|
    ensures 5 * i + 5 <= |ChannelBytes(cs)| && ChannelAt(ChannelBytes(cs), i) == cs[i]
    decreases |cs|
  {
    var init := cs[..|cs| - 1];
    assert AllEncodable(init) by {
      forall j | 0 <= j < |init| ensures Encodable(init[j]) { assert init[j] == cs[j]; }
    }
    var prefix := ChannelBytes(init);
    var whole := ChannelBytes(cs);
    if i < |cs| - 1 {
      ChannelAtBytes(init, i);
      assert whole[5 * i..5 * i + 5] == prefix[5 * i..5 * i + 5];
    }
  }

  /** The first `k` records read from the reply bytes are the first `k` records sent. */
  lemma ChannelsRoundTrip(cs: seq<ChannelStatus>, k: nat)
    requires AllEncodable(cs) && k <= |cs|
    ensures 5 * k <= |ChannelBytes(cs)| && Channels(ChannelBytes(cs), k) == cs[..k]
  {
    var r := Channels(ChannelBytes(cs), k);
    forall i | 0 <= i < k
      ensures r[i] == cs[i]
    {
      ChannelAtBytes(cs, i);
    }
  }

  /** As written, a reply of n records decodes to only its first 5n/6 records:
      every non-empty reply loses at least one record. */
  lemma StatusLosesRecords(cs: seq<ChannelStatus>)
    requires AllEncodable(cs)
    ensures var n := |ChannelBytes(cs)| / 6;
      n == (5 * |cs|) / 6 && Channels(ChannelBytes(cs), n) == cs[..n]
    ensures |cs| > 0 ==> (5 * |cs|) / 6 < |cs|
  {
    ChannelsRoundTrip(cs, (5 * |cs|) / 6);
  }

  /** The corrected decoder gives back every record sent. */
  lemma CorrectedStatusRoundTrip(cs: seq<ChannelStatus>)
    requires AllEncodable(cs)
    ensures Channels(ChannelBytes(cs), |ChannelBytes(cs)| / 5) == cs
  {
    ChannelsRoundTrip(cs, |cs|);
  }

  /** Two GPS records: the decoder as written gives one record. */
  lemma TwoRecordsDecodeToOne()
    ensures var data: seq<byte> := [0x01, 0x0A, 0x03, 0x00, 0x01, 0x01, 0x0C, 0x00, 0x00, 0x01];
      |Channels(data, |data| / 6)| == 1 && |Channels(data, |data| / 5)| == 2
  {
  }

  /** A GLONASS number byte of exactly 128 is kept as 128, where a signed-byte
      reading would give -128. */
  lemma Glonass128IsKept()
    ensures SlotNumber(2, 128) == 128 && SlotNumber(2, 129) == -127 && SlotNumber(1, 249) == 249
  {
  }

  /** The channel status reply of the decoder test, 162 bytes, in two parts:
      its first six records and the rest. The decoder as written reports 27
      channels, the first being GLONASS slot -7 with SNR 0, automatic status
      and pseudorange sign 1, and the sixth GLONASS again. */
  const ReplyHead: seq<byte> := [
    0x02, 0xF9, 0x00, 0x00, 0x01, 0x02, 0x06, 0x00, 0x00, 0x01,
    0x02, 0x05, 0x00, 0x00, 0x01, 0x02, 0x03, 0x00, 0x00, 0x01,
    0x02, 0x02, 0x00, 0x00, 0x01, 0x02, 0x04, 0x00, 0x00, 0x01
  ]

  const ReplyTail: seq<byte> := [
    0x02, 0x00, 0x00, 0x00, 0x01, 0x02, 0x01, 0x00, 0x00, 0x01,
    0x02, 0xFF, 0x03, 0x00, 0x01, 0x02, 0xFC, 0x00, 0x00, 0x01,
    0x02, 0xFE, 0x18, 0x00, 0x02, 0x02, 0xFD, 0x00, 0x00, 0x01,
    0x02, 0xFB, 0x00, 0x00, 0x01, 0x02, 0xFA, 0x00, 0x00, 0x01,
    0x01, 0x0A, 0x03, 0x00, 0x01, 0x01, 0x12, 0x10, 0x10, 0x00,
    0x00, 0x01, 0x0C, 0x00, 0x00, 0x01, 0x01, 0x0B, 0x1D, 0x00,
    0x00, 0x01, 0x0E, 0x00, 0x00, 0x01, 0x01, 0x0F, 0x00, 0x00,
    0x01, 0x01, 0x13, 0x00, 0x00, 0x01, 0x01, 0x03, 0x1B, 0x00,
    0x02, 0x01, 0x10, 0x10, 0x00, 0x00, 0x01, 0x01, 0x11, 0x00,
    0x00, 0x01, 0x01, 0x14, 0x00, 0x00, 0x01, 0x01, 0x15, 0x00,
    0x00, 0x01, 0x01, 0x16, 0x00, 0x00, 0x01, 0x01, 0x08, 0x0D,
    0x00, 0x01, 0x01, 0x09, 0x01, 0x00, 0x01, 0x01, 0x0D, 0x00,
    0x00, 0x01, 0x05, 0xFA, 0x1E, 0x03, 0x01, 0x12, 0x00, 0x22,
    0x03, 0x01
  ]

  lemma ChannelReplyExampleDecodes()
    ensures |ReplyHead + ReplyTail| == 162
    ensures var r := Channels(ReplyHead + ReplyTail, |ReplyHead + ReplyTail| / 6);
      |r| == 27 && r[0] == ChannelStatus(2, -7, 0, 0, 1) && r[5].system == 2
  {
    var data := ReplyHead + ReplyTail;
    assert |ReplyTail| == 132;
    ReplyOf162Bytes(data);
    assert data[0] == ReplyHead[0] && data[1] == ReplyHead[1] && data[2] == ReplyHead[2];
    assert data[3] == ReplyHead[3] && data[4] == ReplyHead[4] && data[25] == ReplyHead[25];
  }

  lemma ReplyOf162Bytes(data: seq<byte>)
    requires |data| == 162
    ensures var r := Channels(data, |data| / 6);
      |r| == 27 && r[0] == ChannelAt(data, 0) && r[5] == ChannelAt(data, 5)
  {
  }
}
