/**
  The reply to the ephemeris request. The first data byte names the
  satellite system. A GPS reply carries the on-board number, 21 packed IEEE-754
  values at fixed offsets, and two little-endian 16-bit integers (URA and
  IODE); a GLONASS reply carries the on-board number and the signed carrier
  frequency number. The packed values are kept as their raw bytes.
*/
module SvEphemeris {
  import opened Framing
  import opened Commands

  /** `struct.unpack('<f', ...)` reads 4 bytes, `'<d'` reads 8. */
  datatype FloatKind = Single | Double

  function Width(kind: FloatKind): (r: nat)
  {
    if kind == Single then 4 else 8
  }

  /** One packed value of the GPS reply: its key, first byte and width. */
  datatype Field = Field(name: string, offset: nat, kind: FloatKind)

  const GpsFloatLayout: seq<Field> := [
    Field("C_rs", 2, Single), Field("dn", 6, Single), Field("M_0", 10, Double),
    Field("C_uc", 18, Single), Field("e", 22, Double), Field("C_us", 30, Single),
    Field("sqrtA", 34, Double), Field("t_oe", 42, Double), Field("C_ic", 50, Single),
    Field("Omega_0", 54, Double), Field("C_is", 62, Single), Field("I_0", 66, Double),
    Field("C_rc", 74, Single), Field("w", 78, Double), Field("Omega_dot", 86, Double),
    Field("IDOT", 94, Double), Field("T_GD", 102, Single), Field("t_oc", 106, Double),
    Field("a_f2", 114, Single), Field("a_f1", 118, Single), Field("a_f0", 122, Single)]

  const UraOffset: nat := 126
  const IodeOffset: nat := 128
  /** The shortest GPS reply the decoder accepts. */
  const GpsLength: nat := 130

  /** The first byte after packed value `k`. */
  function FieldEnd(k: nat): (r: nat)
    requires k < |GpsFloatLayout|
  {
    GpsFloatLayout[k].offset + Width(GpsFloatLayout[k].kind)
  }

  /** The first byte of packed value `k`, and for `k == 21` the end of the last. */
  function FieldStart(k: nat): (r: nat)
    requires k <= |GpsFloatLayout|
  {
    if k == |GpsFloatLayout| then UraOffset else GpsFloatLayout[k].offset
  }

  /** The packed values lie end to end from byte 2 to byte 126, where URA begins. */
  lemma LayoutTiles()
    ensures |GpsFloatLayout| == 21 && FieldStart(0) == 2
    ensures forall k :: 0 <= k < |GpsFloatLayout| ==> FieldEnd(k) == FieldStart(k + 1)
  {
  }

  datatype GpsEphemeris = GpsEphemeris(system: int, prn: int, floats: seq<seq<byte>>, ura: int, iode: int)

  /** What the decoder returns: a GPS or GLONASS record, None for any other
      system, or the exception raised on a short reply. */
  datatype Ephemeris =
    | Gps(eph: GpsEphemeris)
    | Glonass(system: int, nA: int, hnA: int)
    | Unsupported
    | IndexError
    | StructError

  /** `struct.unpack('<H', ...)` of the two bytes at `offset`. */
  function U16(data: seq<byte>, offset: nat): (r: nat)
    requires offset + 2 <= |data|
    ensures r < 65536
  {
    data[offset] as int + 256 * (data[offset + 1] as int)
  }

  /** The raw bytes of the 21 packed values. */
  function FloatFields(data: seq<byte>): (r: seq<seq<byte>>)
    requires |data| >= UraOffset
    ensures |r| == |GpsFloatLayout|
    ensures forall k :: 0 <= k < |r| ==> r[k] == data[FieldStart(k)..FieldEnd(k)]
    ensures forall k :: 0 <= k < |r| ==> |r[k]| == Width(GpsFloatLayout[k].kind)
  {
    FieldsFit();
    seq(|GpsFloatLayout|, k requires 0 <= k < |GpsFloatLayout| => data[FieldStart(k)..FieldEnd(k)])
  }

  /** The decoder. An empty reply, or a GPS reply of one byte, fails on its
      first index; a GPS reply shorter than 130 bytes, or a GLONASS reply
      shorter than 3, fails inside `struct.unpack`. */
  function ProcessSvEphemeris(data: seq<byte>): (r: Ephemeris)
    ensures r == IndexError <==> |data| == 0 || (data[0] == GPS && |data| == 1)
    ensures r == StructError <==>
      |data| > 0 && ((data[0] == GPS && 2 <= |data| < GpsLength) || (data[0] == GLONASS && |data| < 3))
    ensures r == Unsupported <==> |data| > 0 && data[0] != GPS && data[0] != GLONASS
    ensures r.Gps? ==> |data| >= GpsLength && r.eph.system == GPS && r.eph.prn == data[1]
    ensures r.Gps? ==> r.eph.ura == data[UraOffset] as int + 256 * (data[UraOffset + 1] as int)
    ensures r.Gps? ==> r.eph.iode == data[IodeOffset] as int + 256 * (data[IodeOffset + 1] as int)
    ensures r.Gps? ==> r.eph.floats == FloatFields(data)
    ensures r.Glonass? ==> |data| >= 3 && r.system == GLONASS && r.nA == data[1] && r.hnA == ToSigned8(data[2])
  {
    if |data| == 0 then IndexError
    else
      var satSystem := data[0];
      if satSystem == GPS then
        if |data| < 2 then IndexError
        else if |data| < GpsLength then StructError
        else Gps(GpsEphemeris(satSystem, data[1], FloatFields(data), U16(data, UraOffset), U16(data, IodeOffset)))
      else if satSystem == GLONASS then
        if |data| < 3 then StructError
        else Glonass(satSystem, data[1], ToSigned8(data[2]))
      else Unsupported
  }

  /** The GLONASS carrier number always lies in -128..127. */
  lemma GlonassCarrierRange(data: seq<byte>)
    requires ProcessSvEphemeris(data).Glonass?
    ensures -128 <= ProcessSvEphemeris(data).hnA < 128
  {
  }

  /** Bytes after the last field the decoder reads do not change its result. */
  lemma TrailingBytesIgnored(data: seq<byte>, extra: seq<byte>)
    requires (|data| >= GpsLength && data[0] == GPS) || (|data| >= 3 && data[0] == GLONASS)
    ensures ProcessSvEphemeris(data + extra) == ProcessSvEphemeris(data)
  {
    var whole := data + extra;
    assert whole[..|data|] == data;
    if data[0] == GPS {
      FloatFieldsOfPrefix(data, whole);
      assert U16(whole, UraOffset) == U16(data, UraOffset);
      assert U16(whole, IodeOffset) == U16(data, IodeOffset);
    }
  }

  lemma FloatFieldsOfPrefix(data: seq<byte>, whole: seq<byte>)
    requires UraOffset <= |data| <= |whole| && whole[..|data|] == data
    ensures FloatFields(whole) == FloatFields(data)
  {
    var a := FloatFields(whole);
    var b := FloatFields(data);
    forall k | 0 <= k < |GpsFloatLayout|
      ensures a[k] == b[k]
    {
      FieldEndBound(k);
      var i := FieldStart(k);
      var j := FieldEnd(k);
      assert i <= j <= |data|;
      forall t | i <= t < j
        ensures whole[t] == data[t]
      {
        assert whole[t] == whole[..|data|][t];
      }
      assert whole[i..j] == data[i..j];
    }
  }

  lemma {:induction false} FieldEndBound(k: nat)
    requires k < |GpsFloatLayout|
    ensures FieldStart(k) < FieldEnd(k) <= UraOffset
    decreases |GpsFloatLayout| - k
  {
    LayoutTiles();
    if k + 1 < |GpsFloatLayout| {
      FieldEndBound(k + 1);
    }
  }

  /** Every packed value lies inside bytes 2..125. */
  lemma FieldsFit()
    ensures forall k :: 0 <= k < |GpsFloatLayout| ==> 2 <= FieldStart(k) < FieldEnd(k) <= UraOffset
  {
    forall k | 0 <= k < |GpsFloatLayout|
      ensures 2 <= FieldStart(k) < FieldEnd(k) <= UraOffset
    {
      FieldEndBound(k);
      FieldStartBound(k);
    }
  }

  lemma {:induction false} FieldStartBound(k: nat)
    requires k <= |GpsFloatLayout|
    ensures 2 <= FieldStart(k)
    decreases k
  {
    LayoutTiles();
    if k > 0 {
      FieldStartBound(k - 1);
      FieldEndBound(k - 1);
    }
  }

  /** Packed value `k` ends where value `k + 1` starts. */
  lemma Adjacent(k: nat)
    requires k < |GpsFloatLayout|
    ensures FieldEnd(k) == FieldStart(k + 1)
  {
    LayoutTiles();
  }

  /** The values laid end to end. */
  function Concat(parts: seq<seq<byte>>): (r: seq<byte>)
  {
    if parts == [] then [] else Concat(parts[..|parts| - 1]) + parts[|parts| - 1]
  }

  /** The packed values, in layout order, are exactly bytes 2..125 of the reply. */
  lemma FloatsTile(data: seq<byte>)
    requires |data| >= UraOffset
    ensures Concat(FloatFields(data)) == data[2..UraOffset]
  {
    TilePrefix(data, |GpsFloatLayout|);
    assert FloatFields(data)[..|GpsFloatLayout|] == FloatFields(data);
  }

  lemma {:induction false} TilePrefix(data: seq<byte>, n: nat)
    requires |data| >= UraOffset && n <= |GpsFloatLayout|
    ensures 2 <= FieldStart(n) <= UraOffset
    ensures Concat(FloatFields(data)[..n]) == data[2..FieldStart(n)]
  {
    var fs := FloatFields(data);
    if n == 0 {
      LayoutTiles();
      assert fs[..0] == [];
    } else {
      TilePrefix(data, n - 1);
      FieldEndBound(n - 1);
      Adjacent(n - 1);
      assert fs[..n][..n - 1] == fs[..n - 1];
      var a := FieldStart(n - 1);
      var b := FieldStart(n);
      assert fs[..n][n - 1] == data[a..b];
      SliceJoin(data, 2, a, b);
    }
  }

  lemma SliceJoin(s: seq<byte>, i: nat, j: nat, k: nat)
    requires i <= j <= k <= |s|
    ensures s[i..j] + s[j..k] == s[i..k]
  {
  }

  /** Two lists of parts of the same widths that concatenate to the same bytes
      are the same list. */
  lemma {:induction false} ConcatInjective(xs: seq<seq<byte>>, ys: seq<seq<byte>>)
    requires |xs| == |ys| && forall k :: 0 <= k < |xs| ==> |xs[k]| == |ys[k]|
    requires Concat(xs) == Concat(ys)
    ensures xs == ys
    decreases |xs|
  {
    if xs != [] {
      var n := |xs| - 1;
      var cx := Concat(xs[..n]);
      var cy := Concat(ys[..n]);
      ConcatLength(xs[..n], ys[..n]);
      assert cx + xs[n] == cy + ys[n];
      assert cx == (cx + xs[n])[..|cx|];
      assert cy == (cy + ys[n])[..|cy|];
      assert xs[n] == (cx + xs[n])[|cx|..];
      assert ys[n] == (cy + ys[n])[|cy|..];
      ConcatInjective(xs[..n], ys[..n]);
      assert xs == xs[..n] + [xs[n]] && ys == ys[..n] + [ys[n]];
    }
  }

  lemma {:induction false} ConcatLength(xs: seq<seq<byte>>, ys: seq<seq<byte>>)
    requires |xs| == |ys| && forall k :: 0 <= k < |xs| ==> |xs[k]| == |ys[k]|
    ensures |Concat(xs)| == |Concat(ys)|
    decreases |xs|
  {
    if xs != [] {
      var n := |xs| - 1;
      ConcatLength(xs[..n], ys[..n]);
    }
  }

  /** A GPS record the receiver can send: an on-board number byte, 21 values of
      the layout's widths, and URA and IODE within 16 bits. */
  predicate WellFormedGps(e: GpsEphemeris)
  {
    e.system == GPS && 0 <= e.prn < 256 && 0 <= e.ura < 65536 && 0 <= e.iode < 65536 &&
    |e.floats| == |GpsFloatLayout| &&
    forall k :: 0 <= k < |GpsFloatLayout| ==> |e.floats[k]| == Width(GpsFloatLayout[k].kind)
  }

  /** The little-endian bytes of a 16-bit value. */
  function U16Bytes(v: nat): (r: seq<byte>)
    requires v < 65536
    ensures |r| == 2 && r[0] as int + 256 * (r[1] as int) == v
  {
    [v % 256, v / 256]
  }

  /** The reply bytes of a GPS record. */
  function GpsReply(e: GpsEphemeris): (r: seq<byte>)
    requires WellFormedGps(e)
    ensures |r| == GpsLength
  {
    WidthsSumTo(e.floats);
    [GPS, e.prn] + Concat(e.floats) + U16Bytes(e.ura) + U16Bytes(e.iode)
  }

  /** Parts of the layout's widths add up to the 124 bytes from 2 to 126. */
  lemma WidthsSumTo(floats: seq<seq<byte>>)
    requires |floats| == |GpsFloatLayout|
    requires forall k :: 0 <= k < |GpsFloatLayout| ==> |floats[k]| == Width(GpsFloatLayout[k].kind)
    ensures |Concat(floats)| == UraOffset - 2
  {
    var zeros: seq<byte> := seq(UraOffset, i => 0);
    var fs := FloatFields(zeros);
    FloatsTile(zeros);
    forall k | 0 <= k < |GpsFloatLayout|
      ensures |fs[k]| == |floats[k]|
    {
      FieldEndBound(k);
    }
    ConcatLength(fs, floats);
  }

  /** Decoding the reply bytes of a GPS record gives the record back. */
  lemma GpsRoundTrip(e: GpsEphemeris)
    requires WellFormedGps(e)
    ensures ProcessSvEphemeris(GpsReply(e)) == Gps(e)
  {
    var data := GpsReply(e);
    WidthsSumTo(e.floats);
    var fs := FloatFields(data);
    FloatsTile(data);
    assert data[2..UraOffset] == Concat(e.floats);
    forall k | 0 <= k < |GpsFloatLayout|
      ensures |fs[k]| == |e.floats[k]|
    {
      FieldEndBound(k);
    }
    ConcatInjective(fs, e.floats);
    assert data[UraOffset..UraOffset + 2] == U16Bytes(e.ura);
    assert data[IodeOffset..IodeOffset + 2] == U16Bytes(e.iode);
  }

  /** The reply bytes of a GLONASS record; the carrier goes as its
      two's-complement byte. */
  function GlonassReply(nA: byte, hnA: int): (r: seq<byte>)
    requires -128 <= hnA < 128
    ensures |r| == 3 && r[0] == GLONASS
  {
    [GLONASS, nA, CarrierByte(hnA)]
  }

  lemma GlonassRoundTrip(nA: byte, hnA: int)
    requires -128 <= hnA < 128
    ensures ProcessSvEphemeris(GlonassReply(nA, hnA)) == Glonass(GLONASS, nA, hnA)
  {
  }
}
