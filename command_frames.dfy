/**
  What the scanner makes of the command packets: each packet is one frame
  whose type byte and payload come back unchanged, except where a payload
  byte is DLE (no byte stuffing is applied), and the concrete packets of the
  encoder tests.
*/
module CommandFrames {
  import opened Framing
  import opened Commands

  lemma RebootScans(erase: bool)
    ensures Scan(Reboot(erase)) == Found(Frame(0x01, [0x00, 0x01, 0x21, 0x01, 0x00, if erase then 0x00 else 0x01]), [])
  {
    var payload := [0x00, 0x01, 0x21, 0x01, 0x00, if erase then 0x00 else 0x01];
    FramedRoundTrip(0x01, payload, []);
    assert FrameBytes(0x01, payload) + [] == Reboot(erase);
  }

  lemma CoordinateSystemScans(coordinateSystem: int)
    requires WGS84 <= coordinateSystem <= PZ90_2
    ensures Scan(SetCoordinateSystem(coordinateSystem).packet) == Found(Frame(0x0D, [0x01, coordinateSystem]), [])
  {
    FramedRoundTrip(0x0D, [0x01, coordinateSystem], []);
    assert FrameBytes(0x0D, [0x01, coordinateSystem]) + [] == SetCoordinateSystem(coordinateSystem).packet;
  }

  lemma NavigationSystemScans(navigationSystem: int)
    requires navigationSystem in {0, 1, 2, 3, 10, 11, 12}
    ensures Scan(SetNavigationSystem(navigationSystem).packet) == Found(Frame(0x0D, [0x02, navigationSystem]), [])
  {
    FramedRoundTrip(0x0D, [0x02, navigationSystem], []);
    assert FrameBytes(0x0D, [0x02, navigationSystem]) + [] == SetNavigationSystem(navigationSystem).packet;
  }

  /** The PVT packet scans back whenever none of its data bytes is a DLE. */
  lemma PvtSettingScans(minSatElevMask: int, minSnr: int, maxRmsError: int)
    requires SetPvtSetting(minSatElevMask, minSnr, maxRmsError).Packet?
    requires minSatElevMask != DLE && minSnr != DLE
    requires maxRmsError % 256 != DLE && (maxRmsError / 256) % 256 != DLE
    ensures var payload := [0x03, minSatElevMask, minSnr, maxRmsError % 256, (maxRmsError / 256) % 256];
      Scan(SetPvtSetting(minSatElevMask, minSnr, maxRmsError).packet) == Found(Frame(0x0D, payload), [])
  {
    var payload := [0x03, minSatElevMask, minSnr, maxRmsError % 256, (maxRmsError / 256) % 256];
    FramedRoundTrip(0x0D, payload, []);
    assert FrameBytes(0x0D, payload) + [] == SetPvtSetting(minSatElevMask, minSnr, maxRmsError).packet;
  }

  /** The PVT packet element by element. */
  lemma PvtPacket(minSatElevMask: int, minSnr: int, maxRmsError: int)
    requires 0 <= minSatElevMask <= 90 && 0 <= minSnr <= 39 && maxRmsError >= 0
    ensures SetPvtSetting(minSatElevMask, minSnr, maxRmsError) ==
      Packet([0x10, 0x0D, 0x03, minSatElevMask, minSnr, maxRmsError % 256, (maxRmsError / 256) % 256, 0x10, 0x03])
  {
  }

  /** An rms error whose second byte is DLE, such as 0x1000, with no other
      DLE in the payload, puts a DLE right before the closing DLE ETX: the
      scanner rejects that DLE as a candidate, then skips the real one, and
      finds no message. */
  lemma PvtHighByteDleIsLost(minSatElevMask: int, minSnr: int, maxRmsError: int)
    requires SetPvtSetting(minSatElevMask, minSnr, maxRmsError).Packet?
    requires minSatElevMask != DLE && minSnr != DLE && maxRmsError % 256 != DLE
    requires (maxRmsError / 256) % 256 == DLE
    ensures Scan(SetPvtSetting(minSatElevMask, minSnr, maxRmsError).packet) == Failed(NoMessage)
  {
    var payload := [0x03, minSatElevMask, minSnr, maxRmsError % 256];
    assert [0x03, minSatElevMask, minSnr, maxRmsError % 256, (maxRmsError / 256) % 256] == payload + [DLE];
    PayloadEndingInDleIsLost(0x0D, payload);
  }

  lemma FiltrationFactorScans(factor: int)
    requires 0 <= factor <= 10
    ensures Scan(SetFiltrationFactor(factor).packet) == Found(Frame(0x0D, [0x04, 0x00, 0x00, 0x00, 32 * factor]), [])
  {
    var payload := [0x04, 0x00, 0x00, 0x00, 32 * factor];
    FramedRoundTrip(0x0D, payload, []);
    assert FrameBytes(0x0D, payload) + [] == SetFiltrationFactor(factor).packet;
  }

  lemma CancelRequestsScans()
    ensures Scan(CancelRequests()) == Found(Frame(0x0E, []), [])
  {
    FramedRoundTrip(0x0E, [], []);
    assert FrameBytes(0x0E, []) + [] == CancelRequests();
  }

  lemma ChannelStatusRequestScans()
    ensures Scan(RequestStatusOfReceiverChannels()) == Found(Frame(0x17, []), [])
  {
    FramedRoundTrip(0x17, [], []);
    assert FrameBytes(0x17, []) + [] == RequestStatusOfReceiverChannels();
  }

  /** Every accepted satellite, satellite 16 included, scans back: the state
      byte after it is never ETX. */
  lemma EnableSatScans(satSystem: int, satNo: int, state: bool)
    requires EnableSat(satSystem, satNo, state).Packet?
    ensures Scan(EnableSat(satSystem, satNo, state).packet) == Found(Frame(0x12, [satSystem, satNo, if state then 1 else 2]), [])
  {
    var payload := [satSystem, satNo, if state then 1 else 2];
    FramedRoundTrip(0x12, payload, []);
    assert FrameBytes(0x12, payload) + [] == EnableSat(satSystem, satNo, state).packet;
  }

  /** The reference-coordinates packet scans back when its packed values put
      no DLE right before an ETX nor at the very end. */
  lemma RefCoordinatesScan(lat: Packed, lon: Packed, height: Packed)
    requires DlesFollowed([0x0F, 0x03] + lat + lon + height)
    ensures Scan(FrameBytes(0x0F, [0x03] + lat + lon + height)) == Found(Frame(0x0F, [0x03] + lat + lon + height), [])
  {
    var payload := [0x03] + lat + lon + height;
    assert [0x0F] + payload == [0x0F, 0x03] + lat + lon + height;
    FramedRoundTrip(0x0F, payload, []);
    assert FrameBytes(0x0F, payload) + [] == FrameBytes(0x0F, payload);
  }

  /** An ephemeris request whose satellite number and carrier element are not
      DLE scans back. */
  lemma EphemerisRequestScans(satSystem: int, satNo: int, carrier: Option<int>)
    requires EphemerisTarget(satSystem, satNo) && satNo != DLE && DLE !in CarrierSuffix(carrier)
    ensures var payload := [satSystem, satNo] + CarrierSuffix(carrier);
      Scan(FrameBytes(0x19, payload)) == Found(Frame(0x19, payload), [])
  {
    var payload := [satSystem, satNo] + CarrierSuffix(carrier);
    assert DLE !in payload;
    ResyncRoundTrip([], 0x19, payload, []);
    assert [] + FrameBytes(0x19, payload) + [] == FrameBytes(0x19, payload);
  }

  /** The request for GPS satellite 16 without a carrier ends its payload with
      a DLE, and the scanner does not find it. */
  lemma EphemerisRequestForSatellite16IsLost()
    ensures Scan(FrameBytes(0x19, [GPS, 16] + CarrierSuffix(None))) == Failed(NoMessage)
  {
    PayloadEndingInDleIsLost(0x19, [GPS]);
    assert [GPS, 16] + CarrierSuffix(None) == [GPS] + [DLE];
  }

  lemma RebootVectors()
    ensures Reboot() == [0x10, 0x01, 0x00, 0x01, 0x21, 0x01, 0x00, 0x01, 0x10, 0x03]
    ensures Reboot(true) == [0x10, 0x01, 0x00, 0x01, 0x21, 0x01, 0x00, 0x00, 0x10, 0x03]
  {
  }

  lemma CoordinateSystemVectors()
    ensures SetCoordinateSystem(WGS84) == Packet([0x10, 0x0D, 0x01, 0x00, 0x10, 0x03])
    ensures SetCoordinateSystem(PZ90) == Packet([0x10, 0x0D, 0x01, 0x01, 0x10, 0x03])
    ensures SetCoordinateSystem(5).Invalid? && SetCoordinateSystem(-1).Invalid?
  {
  }

  lemma NavigationSystemVectors()
    ensures SetNavigationSystem(0) == Packet([0x10, 0x0D, 0x02, 0x00, 0x10, 0x03])
    ensures SetNavigationSystem(-1).Invalid?
  {
  }

  lemma RmsBytesOf20001(x: int)
    requires x == 20001
    ensures x % 256 == 0x21 && (x / 256) % 256 == 0x4E
  {
  }

  lemma PvtSettingVector()
    ensures SetPvtSetting(5, 30, 20001) == Packet([0x10, 0x0D, 0x03, 0x05, 0x1E, 0x21, 0x4E, 0x10, 0x03])
  {
    PvtPacket(5, 30, 20001);
    RmsBytesOf20001(20001);
  }

  lemma PvtSettingRejections()
    ensures SetPvtSetting(-1, 30, 20001) == Invalid(ElevationMask, -1)
    ensures SetPvtSetting(91, 30, 20001) == Invalid(ElevationMask, 91)
    ensures SetPvtSetting(5, -1, 20001) == Invalid(MinSnr, -1)
    ensures SetPvtSetting(5, 40, 20001) == Invalid(MinSnr, 40)
    ensures SetPvtSetting(5, 30, -1) == Invalid(MaxRmsError, -1)
  {
  }

  lemma FiltrationFactorVectors()
    ensures SetFiltrationFactor(2) == Packet([0x10, 0x0D, 0x04, 0x00, 0x00, 0x00, 0x40, 0x10, 0x03])
    ensures SetFiltrationFactor(-1).Invalid? && SetFiltrationFactor(11).Invalid?
  {
  }

  lemma RequestVectors()
    ensures CancelRequests() == [0x10, 0x0E, 0x10, 0x03]
    ensures RequestStatusOfReceiverChannels() == [0x10, 0x17, 0x10, 0x03]
  {
  }

  lemma RefCoordinatesVector()
    ensures var lat := [0x1D, 0xDC, 0x9F, 0x23, 0xE5, 0xFC, 0xE0, 0x3F];
      var lon := [0x1D, 0xDC, 0x9F, 0x23, 0xE5, 0xFC, 0xF0, 0x3F];
      var height := [0x33, 0x33, 0x33, 0x33, 0x33, 0x93, 0x66, 0x40];
      FrameBytes(0x0F, [0x03] + lat + lon + height) ==
        [0x10, 0x0F, 0x03, 0x1D, 0xDC, 0x9F, 0x23, 0xE5, 0xFC, 0xE0, 0x3F, 0x1D, 0xDC, 0x9F,
         0x23, 0xE5, 0xFC, 0xF0, 0x3F, 0x33, 0x33, 0x33, 0x33, 0x33, 0x93, 0x66, 0x40, 0x10, 0x03]
  {
  }

  lemma EnableSatVectors()
    ensures EnableSat(GPS, 10, false) == Packet([0x10, 0x12, 0x01, 0x0A, 0x02, 0x10, 0x03])
    ensures EnableSat(3, 0x0A, false) == Invalid(SatSystem, 3)
    ensures EnableSat(GPS, 33, false) == Invalid(SatNumber, 33)
    ensures EnableSat(GLONASS, 25, false) == Invalid(SatNumber, 25)
    ensures EnableSat(GPS, 10) == Packet([0x10, 0x12, 0x01, 0x0A, 0x01, 0x10, 0x03])
  {
  }

  lemma EphemerisRequestVectors()
    ensures FrameBytes(0x19, [GPS, 2] + CarrierSuffix(None)) == [0x10, 0x19, 0x01, 0x02, 0x10, 0x03]
    ensures FrameBytes(0x19, [GLONASS, 0] + CarrierSuffix(Some(-2))) == [0x10, 0x19, 0x02, 0x00, 0xFE, 0x10, 0x03]
    ensures !EphemerisTarget(-1, 2) && !EphemerisTarget(3, 2) && !EphemerisTarget(GPS, -1)
  {
  }
}
