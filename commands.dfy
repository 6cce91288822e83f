/**
  The BINR command encoders. Each one checks its arguments in order, fails on
  the first one out of range (a ValueError naming that argument and its
  value), and otherwise returns the command packet as a list of ints: DLE, the
  type byte, the payload, DLE, ETX. A packet element is not always a byte:
  the filtration factor and the carrier number can put values of 256 and
  more into it.
*/
module Commands {
  import opened Framing

  const WGS84: int := 0
  const PZ90: int := 1
  const SK42: int := 2
  const SK95: int := 3
  const PZ90_2: int := 4
  const GPS: int := 1
  const GLONASS: int := 2

  /** The argument a failed range check names. */
  datatype Argument =
    | CoordinateSystem | NavigationSystem | ElevationMask | MinSnr | MaxRmsError
    | FiltrationFactor | SatSystem | SatNumber

  /** A packet, or the ValueError raised instead. */
  datatype Encoding = Packet(packet: seq<int>) | Invalid(arg: Argument, value: int)

  /** Every element of `s` fits in one byte on the wire. */
  predicate AllBytes(s: seq<int>)
  {
    forall i :: 0 <= i < |s| ==> 0 <= s[i] < 256
  }

  /** Python's `&` on non-negative ints, bit by bit from the least significant. */
  function BitAnd(a: nat, b: nat): (r: nat)
    ensures r <= a && r <= b
    decreases a
  {
    if a == 0 || b == 0 then 0
    else 2 * BitAnd(a / 2, b / 2) + (if a % 2 == 1 && b % 2 == 1 then 1 else 0)
  }

  function Pow2(k: nat): (r: nat)
    ensures r >= 1
  {
    if k == 0 then 1 else 2 * Pow2(k - 1)
  }

  lemma MulAtLeast(d: int, k: int)
    requires d > 0 && k >= 1
    ensures d * k >= d
  {
    assert d * k == d * (k - 1) + d;
    assert d * (k - 1) >= 0;
  }

  /** Quotient and remainder are the only pair with `a == d * q + m, 0 <= m < d`. */
  lemma DivModUnique(a: int, d: int, q: int, m: int)
    requires d > 0 && a == d * q + m && 0 <= m < d
    ensures a / d == q && a % d == m
  {
    var q' := a / d;
    var m' := a % d;
    assert a == d * q' + m';
    assert d * (q - q') == m' - m;
    if q > q' {
      MulAtLeast(d, q - q');
    } else if q < q' {
      MulAtLeast(d, q' - q);
    }
  }

  /** Splitting off the lowest bit before dividing by `2 * p`. */
  lemma HalveModDiv(a: nat, p: nat)
    requires p >= 1
    ensures a % (2 * p) == 2 * ((a / 2) % p) + a % 2
    ensures a / (2 * p) == (a / 2) / p
  {
    var x := (a / 2) / p;
    var y := (a / 2) % p;
    assert a / 2 == p * x + y;
    assert a == (2 * p) * x + (2 * y + a % 2);
    DivModUnique(a, 2 * p, x, 2 * y + a % 2);
  }

  /** Masking with k low one-bits is the remainder modulo 2^k. */
  lemma {:induction false} LowMask(a: nat, k: nat)
    ensures BitAnd(a, Pow2(k) - 1) == a % Pow2(k)
    decreases k
  {
    if k == 0 {
      assert Pow2(k) == 1;
      assert BitAnd(a, 0) == 0;
    } else if a == 0 {
      assert BitAnd(0, Pow2(k) - 1) == 0;
      DivModUnique(0, Pow2(k), 0, 0);
    } else {
      var p := Pow2(k - 1);
      LowMask(a / 2, k - 1);
      MaskStep(a, p);
      assert Pow2(k) == 2 * p;
    }
  }

  /** The inductive step of LowMask, for the mask 2p - 1 given the mask p - 1. */
  lemma MaskStep(a: nat, p: nat)
    requires a > 0 && p >= 1
    requires BitAnd(a / 2, p - 1) == (a / 2) % p
    ensures BitAnd(a, 2 * p - 1) == a % (2 * p)
  {
    OddMask(a, p);
    HalveModDiv(a, p);
  }

  /** Masking with an odd mask keeps the lowest bit and masks the rest. */
  lemma OddMask(a: nat, p: nat)
    requires a > 0 && p >= 1
    ensures BitAnd(a, 2 * p - 1) == 2 * BitAnd(a / 2, p - 1) + a % 2
  {
    var b := 2 * p - 1;
    assert b / 2 == p - 1 && b % 2 == 1;
  }

  /** Masking with an even mask shifts the masked half back by one bit. */
  lemma EvenMask(a: nat, b: nat)
    ensures BitAnd(a, 2 * b) == 2 * BitAnd(a / 2, b)
  {
    if a > 0 && b > 0 {
      assert (2 * b) / 2 == b && (2 * b) % 2 == 0;
    }
  }

  /** The two masks of the maximum rms error: its low byte, and its second byte
      shifted back into place. */
  lemma RmsMasks(rms: nat)
    ensures BitAnd(rms, 0x00FF) == rms % 256
    ensures BitAnd(rms, 0xFF00) == 256 * ((rms / 256) % 256)
  {
    assert Pow2(8) == 256;
    LowMask(rms, 8);
    var a1 := rms / 2;
    var a2 := a1 / 2;
    var a3 := a2 / 2;
    var a4 := a3 / 2;
    var a5 := a4 / 2;
    var a6 := a5 / 2;
    var a7 := a6 / 2;
    var a8 := a7 / 2;
    EvenMask(rms, 0x7F80);
    EvenMask(a1, 0x3FC0);
    EvenMask(a2, 0x1FE0);
    EvenMask(a3, 0x0FF0);
    EvenMask(a4, 0x07F8);
    EvenMask(a5, 0x03FC);
    EvenMask(a6, 0x01FE);
    EvenMask(a7, 0x00FF);
    assert a8 == rms / 256;
    LowMask(a8, 8);
  }

  /** The reboot command. With `erase` the data byte is 0x00, otherwise 0x01. */
  function Reboot(erase: bool := false): (r: seq<int>)
    ensures r == FrameBytes(0x01, [0x00, 0x01, 0x21, 0x01, 0x00, if erase then 0x00 else 0x01])
    ensures |r| == 10 && AllBytes(r)
  {
    var eraseValue := if erase then 0x00 else 0x01;
    [0x10, 0x01, 0x00, 0x01, 0x21, 0x01, 0x00, eraseValue, 0x10, 0x03]
  }

  /** Selects the coordinate system, one of WGS84 .. PZ90_2. */
  function SetCoordinateSystem(coordinateSystem: int): (r: Encoding)
    ensures r.Packet? <==> WGS84 <= coordinateSystem <= PZ90_2
    ensures r.Invalid? ==> r == Invalid(CoordinateSystem, coordinateSystem)
    ensures r.Packet? ==> r.packet == FrameBytes(0x0D, [0x01, coordinateSystem]) && AllBytes(r.packet)
  {
    if coordinateSystem > 4 || coordinateSystem < 0 then Invalid(CoordinateSystem, coordinateSystem)
    else Packet([0x10, 0x0D, 0x01, coordinateSystem, 0x10, 0x03])
  }

  /** Selects the constellations used: 0 .. 3, or 10 .. 12 with SBAS. */
  function SetNavigationSystem(navigationSystem: int): (r: Encoding)
    ensures r.Packet? <==> navigationSystem in {0, 1, 2, 3, 10, 11, 12}
    ensures r.Invalid? ==> r == Invalid(NavigationSystem, navigationSystem)
    ensures r.Packet? ==> r.packet == FrameBytes(0x0D, [0x02, navigationSystem]) && AllBytes(r.packet)
  {
    if navigationSystem < 0 || (navigationSystem > 3 && navigationSystem < 10) || navigationSystem > 12 then
      Invalid(NavigationSystem, navigationSystem)
    else Packet([0x10, 0x0D, 0x02, navigationSystem, 0x10, 0x03])
  }

  /** The PVT settings: elevation mask in 0..90 degrees, SNR in 0..39, and a
      non-negative maximum rms error sent as its two low bytes, low first. */
  function SetPvtSetting(minSatElevMask: int, minSnr: int, maxRmsError: int): (r: Encoding)
    ensures r.Packet? <==> 0 <= minSatElevMask <= 90 && 0 <= minSnr <= 39 && maxRmsError >= 0
    ensures !(0 <= minSatElevMask <= 90) ==> r == Invalid(ElevationMask, minSatElevMask)
    ensures 0 <= minSatElevMask <= 90 && !(0 <= minSnr <= 39) ==> r == Invalid(MinSnr, minSnr)
    ensures 0 <= minSatElevMask <= 90 && 0 <= minSnr <= 39 && maxRmsError < 0 ==> r == Invalid(MaxRmsError, maxRmsError)
    ensures r.Packet? ==>
      r.packet == FrameBytes(0x0D, [0x03, minSatElevMask, minSnr, maxRmsError % 256, (maxRmsError / 256) % 256])
      && AllBytes(r.packet)
  {
    if minSatElevMask < 0 || minSatElevMask > 90 then Invalid(ElevationMask, minSatElevMask)
    else if minSnr < 0 || minSnr > 39 then Invalid(MinSnr, minSnr)
    else if maxRmsError < 0 then Invalid(MaxRmsError, maxRmsError)
    else
      RmsMasks(maxRmsError);
      Packet([0x10, 0x0D, 0x03, minSatElevMask, minSnr,
              BitAnd(maxRmsError, 0x00FF), BitAnd(maxRmsError, 0xFF00) / 256, 0x10, 0x03])
  }

  /** The two rms bytes carry the rms error modulo 2^16: larger values wrap. */
  lemma PvtRmsWraps(minSatElevMask: int, minSnr: int, maxRmsError: int)
    requires SetPvtSetting(minSatElevMask, minSnr, maxRmsError).Packet?
    ensures var p := SetPvtSetting(minSatElevMask, minSnr, maxRmsError).packet;
      p[5] + 256 * p[6] == maxRmsError % 65536
  {
    var p := SetPvtSetting(minSatElevMask, minSnr, maxRmsError).packet;
    HalveModDiv(maxRmsError, 1);
    var q := maxRmsError / 256;
    assert maxRmsError == 256 * q + maxRmsError % 256;
    assert q == 256 * (q / 256) + q % 256;
    assert maxRmsError == 65536 * (q / 256) + (maxRmsError % 256 + 256 * (q % 256));
    DivModUnique(maxRmsError, 65536, q / 256, maxRmsError % 256 + 256 * (q % 256));
  }

  /** The coordinate filtration factor, 0..10, sent as 32 times the factor. */
  function SetFiltrationFactor(factor: int): (r: Encoding)
    ensures r.Packet? <==> 0 <= factor <= 10
    ensures r.Invalid? ==> r == Invalid(FiltrationFactor, factor)
    ensures r.Packet? ==> r.packet == FrameBytes(0x0D, [0x04, 0x00, 0x00, 0x00, 32 * factor])
  {
    if factor < 0 || factor > 10 then Invalid(FiltrationFactor, factor)
    else Packet([0x10, 0x0D, 0x04, 0x00, 0x00, 0x00, factor * 2 * 16, 0x10, 0x03])
  }

  /** Factors 8, 9 and 10 pass the range check but give an element of 256 or more. */
  lemma FiltrationFitsBytes(factor: int)
    requires 0 <= factor <= 10
    ensures AllBytes(SetFiltrationFactor(factor).packet) <==> factor <= 7
  {
    var p := SetFiltrationFactor(factor).packet;
    assert p[6] == 32 * factor;
  }

  /** Clears the list of output messages. */
  function CancelRequests(): (r: seq<int>)
    ensures r == FrameBytes(0x0E, [])
  {
    [0x10, 0x0E, 0x10, 0x03]
  }

  /** An IEEE-754 binary64 value packed little-endian; its bits are not modelled. */
  type Packed = s: seq<byte> | |s| == 8 witness [0, 0, 0, 0, 0, 0, 0, 0]

  /** The reference antenna coordinates for fixed-coordinate operation: the
      packed latitude, longitude and height, in that order. */
  method SetRefCoordinates(lat: Packed, lon: Packed, height: Packed) returns (packet: seq<int>)
    ensures packet == FrameBytes(0x0F, [0x03] + lat + lon + height)
    ensures |packet| == 29 && AllBytes(packet)
    ensures packet[3..11] == lat && packet[11..19] == lon && packet[19..27] == height
  {
    packet := [0x10, 0x0F, 0x03];
    packet := packet + lat;
    packet := packet + lon;
    packet := packet + height;
    packet := packet + [0x10, 0x03];
    assert packet[2..27] == [0x03] + lat + lon + height;
  }

  /** Enables (state 1) or disables (state 2) one GPS satellite, 1..32, or one
      GLONASS satellite, 1..24. */
  function EnableSat(satSystem: int, satNo: int, state: bool := true): (r: Encoding)
    ensures r.Packet? <==> (satSystem == GPS && 1 <= satNo <= 32) || (satSystem == GLONASS && 1 <= satNo <= 24)
    ensures satSystem != GPS && satSystem != GLONASS ==> r == Invalid(SatSystem, satSystem)
    ensures (satSystem == GPS || satSystem == GLONASS) && r.Invalid? ==> r == Invalid(SatNumber, satNo)
    ensures r.Packet? ==> r.packet == FrameBytes(0x12, [satSystem, satNo, if state then 1 else 2]) && AllBytes(r.packet)
  {
    if satSystem != GPS && satSystem != GLONASS then Invalid(SatSystem, satSystem)
    else if satSystem == GPS && (satNo < 1 || satNo > 32) then Invalid(SatNumber, satNo)
    else if satSystem == GLONASS && (satNo < 1 || satNo > 24) then Invalid(SatNumber, satNo)
    else
      var statePacket := if state then 1 else 2;
      var packet := [0x10, 0x12, satSystem, satNo, statePacket, 0x10, 0x03];
      assert packet == FrameBytes(0x12, [satSystem, satNo, statePacket]);
      assert AllBytes(packet);
      Packet(packet)
  }

  /** Requests the status of the receiver channels. */
  function RequestStatusOfReceiverChannels(): (r: seq<int>)
    ensures r == FrameBytes(0x17, [])
  {
    [0x10, 0x17, 0x10, 0x03]
  }

  /** The satellite checks of the ephemeris request: GPS 1..32, GLONASS 0..24. */
  predicate EphemerisTarget(satSystem: int, satNo: int)
    ensures EphemerisTarget(satSystem, satNo) ==> (satSystem == GPS || satSystem == GLONASS) && 0 <= satNo <= 32
    ensures EphemerisTarget(satSystem, satNo) && satNo == 0 ==> satSystem == GLONASS
    ensures satSystem == GLONASS && satNo == 0 ==> EphemerisTarget(satSystem, satNo)
  {
    (satSystem == GPS && 1 <= satNo <= 32) || (satSystem == GLONASS && 0 <= satNo <= 24)
  }

  /** The carrier element of the ephemeris request as written: 256 minus the
      carrier's negation, present exactly when a carrier is given. */
  function CarrierSuffix(carrier: Option<int>): (r: seq<int>)
    ensures carrier.None? <==> r == []
    ensures carrier.Some? ==> |r| == 1 && r[0] - carrier.value == 256
  {
    if carrier != None then [256 - carrier.value * -1] else []
  }

  /** Requests the ephemerides of one satellite, with an optional GLONASS
      carrier frequency number. */
  method RequestSvEphemeris(satSystem: int, satNo: int, carrier: Option<int> := None) returns (r: Encoding)
    ensures r.Packet? <==> EphemerisTarget(satSystem, satNo)
    ensures satSystem != GPS && satSystem != GLONASS ==> r == Invalid(SatSystem, satSystem)
    ensures (satSystem == GPS || satSystem == GLONASS) && r.Invalid? ==> r == Invalid(SatNumber, satNo)
    ensures r.Packet? ==>
      r.packet == FrameBytes(0x19, [satSystem, satNo] + CarrierSuffix(carrier))
    ensures r.Packet? ==> |r.packet| == (if carrier.Some? then 7 else 6)
  {
    if satSystem != GPS && satSystem != GLONASS {
      return Invalid(SatSystem, satSystem);
    }
    if satSystem == GPS {
      if satNo < 1 || satNo > 32 {
        return Invalid(SatNumber, satNo);
      }
    } else {
      if satNo < 0 || satNo > 24 {
        return Invalid(SatNumber, satNo);
      }
    }
    var packet := [0x10, 0x19, satSystem, satNo];
    if carrier != None {
      packet := packet + [256 - carrier.value * -1];
    }
    packet := packet + [0x10, 0x03];
    r := Packet(packet);
  }

  /** The signed value of a byte, as `struct.unpack('<b', ...)` reads it. */
  function ToSigned8(b: byte): (r: int)
    ensures -128 <= r < 128 && (r - b) % 256 == 0
  {
    if b < 128 then b else b - 256
  }

  /** A negative carrier number gives a byte that reads back as that carrier,
      while a carrier of 0 or more gives an element that is not a byte. */
  lemma CarrierElement(c: int)
    ensures -128 <= c < 0 ==> 0 <= CarrierSuffix(Some(c))[0] < 256 && ToSigned8(CarrierSuffix(Some(c))[0]) == c
    ensures c >= 0 ==> CarrierSuffix(Some(c))[0] >= 256
    ensures CarrierSuffix(Some(3)) == [259]
    ensures FrameBytes(0x19, [GLONASS, 1] + CarrierSuffix(Some(3))) == [0x10, 0x19, 0x02, 0x01, 259, 0x10, 0x03]
  {
  }

  /** The carrier element as evidently intended: the carrier's two's-complement byte. */
  function CarrierByte(c: int): (r: byte)
    ensures -128 <= c < 128 ==> ToSigned8(r) == c
    ensures -128 <= c < 0 ==> r == 256 + c
  {
    c % 256
  }

  /** The ephemeris request with the carrier sent as its two's-complement byte. */
  method RequestSvEphemerisCorrected(satSystem: int, satNo: int, carrier: Option<int>) returns (r: Encoding)
    ensures r.Packet? <==> EphemerisTarget(satSystem, satNo)
    ensures satSystem != GPS && satSystem != GLONASS ==> r == Invalid(SatSystem, satSystem)
    ensures (satSystem == GPS || satSystem == GLONASS) && r.Invalid? ==> r == Invalid(SatNumber, satNo)
    ensures r.Packet? ==>
      r.packet == FrameBytes(0x19, [satSystem, satNo] + (if carrier.Some? then [CarrierByte(carrier.value)] else []))
    ensures r.Packet? ==> AllBytes(r.packet)
    ensures r.Packet? && carrier.Some? && -128 <= carrier.value < 128 ==> ToSigned8(r.packet[4]) == carrier.value
  {
    if !EphemerisTarget(satSystem, satNo) {
      if satSystem != GPS && satSystem != GLONASS {
        return Invalid(SatSystem, satSystem);
      }
      return Invalid(SatNumber, satNo);
    }
    var packet := [0x10, 0x19, satSystem, satNo];
    if carrier != None {
      packet := packet + [CarrierByte(carrier.value)];
    }
    packet := packet + [0x10, 0x03];
    r := Packet(packet);
  }
}
