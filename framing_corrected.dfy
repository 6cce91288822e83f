/**
  The frame scanner with the two corrections listed under Findings.

  After a rejected candidate DLE at `k`, the search resumes at the very next
  byte, `k + 1`, wherever the message begins. This follows plain DLE ETX
  framing: the first DLE ETX pair after the type byte closes the message.
  The code as written skips byte `k + 1` when the opening DLE is at index 0,
  and that skip is also consistent with deliberate DLE stuffing: the reply at
  test_binr.py:148 holds doubled 0x10 bytes. Either reading makes the restart
  independent of where the opening DLE is, which is what the code as written
  lacks.

  A buffer whose last byte is a candidate DLE is a message still arriving. It
  gives "no message", the ValueError that the docstring (binr.py:32-33)
  promises and that the callers' `except ValueError` handlers expect.

  The lemmas at the end show, on concrete buffers, where the scanner as
  written differs.
*/
module FramingCorrected {
  import opened Framing

  /** A DLE ETX pair starts at `j`. */
  predicate IsClosing(buf: seq<int>, j: int)
  {
    0 <= j && j + 1 < |buf| && buf[j] == DLE && buf[j + 1] == ETX
  }

  /** The first DLE ETX pair at or after `from`. */
  function CloseSearchFrom(buf: seq<int>, from: nat): (r: Search)
    ensures r.Closed? ==> from <= r.stop && IsClosing(buf, r.stop)
    ensures r.Closed? ==> forall j :: from <= j < r.stop ==> !IsClosing(buf, j)
    ensures r.Broken? ==> r.error == NoMessage && forall j :: from <= j ==> !IsClosing(buf, j)
    decreases |buf| - from
  {
    match IndexOf(buf, DLE, from)
    case None => Broken(NoMessage)
    case Some(k) =>
      if k + 1 >= |buf| then Broken(NoMessage)
      else if buf[k + 1] == ETX then Closed(k)
      else CloseSearchFrom(buf, k + 1)
  }

  /** The corrected scanner: the first DLE opens the message, the first DLE
      ETX pair after it closes it. It fails only with NoMessage. */
  function ScanCorrected(buf: seq<int>): (r: ScanResult)
    ensures r.Failed? ==> r.error == NoMessage
    ensures r.Found? ==> |r.rest| + 2 < |buf|
  {
    match IndexOf(buf, DLE, 0)
    case None => Failed(NoMessage)
    case Some(s) =>
      match CloseSearchFrom(buf, s + 1)
      case Broken(e) => Failed(e)
      case Closed(k) => Cut(buf, s, k)
  }

  /** No DLE ETX pair inside a message body. */
  ghost predicate NoClosingIn(body: seq<int>)
  {
    forall j :: 0 <= j < |body| - 1 ==> !(body[j] == DLE && body[j + 1] == ETX)
  }

  /** Noise without a DLE in front of a message is dropped, and the message
      comes back whole whatever DLEs its body holds, provided none of them is
      followed by ETX. */
  lemma CorrectedRoundTrip(garbage: seq<int>, id: int, payload: seq<int>, rest: seq<int>)
    requires DLE !in garbage && NoClosingIn([id] + payload)
    ensures ScanCorrected(garbage + FrameBytes(id, payload) + rest) == Found(Frame(id, payload), rest)
  {
    var g := |garbage|;
    var body := [id] + payload;
    var buf := garbage + FrameBytes(id, payload) + rest;
    var k := g + 1 + |body|;
    assert forall j :: 0 <= j < g ==> buf[j] == garbage[j];
    assert buf[g] == DLE;
    FirstDleAt(buf, g);
    assert forall j :: g + 1 <= j < k ==> buf[j] == body[j - g - 1];
    assert buf[k] == DLE && buf[k + 1] == ETX;
    assert IsClosing(buf, k);
    forall j | g + 1 <= j < k
      ensures !IsClosing(buf, j)
    {
      if j + 1 < k {
        assert buf[j] == body[j - g - 1] && buf[j + 1] == body[j - g];
      }
    }
    var c := CloseSearchFrom(buf, g + 1);
    assert c.Closed?;
    assert c.stop == k;
    FrameCut(garbage, id, payload, rest);
  }

  /** A message that is still arriving, including one whose closing DLE has
      arrived without its ETX, gives "no message", so the caller's
      `except ValueError` keeps accumulating bytes. */
  lemma CorrectedIncomplete(garbage: seq<int>, body: seq<int>)
    requires DLE !in garbage && NoClosingIn(body)
    ensures ScanCorrected(garbage + [DLE] + body) == Failed(NoMessage)
  {
    var g := |garbage|;
    var buf := garbage + [DLE] + body;
    assert forall j :: 0 <= j < g ==> buf[j] == garbage[j];
    assert buf[g] == DLE;
    FirstDleAt(buf, g);
    forall j | g + 1 <= j
      ensures !IsClosing(buf, j)
    {
      if j + 1 < |buf| {
        assert buf[j] == body[j - g - 1] && buf[j + 1] == body[j - g];
      }
    }
  }

  /** Finding: a leading noise byte loses a message whose payload holds a DLE.
      The scanner as written reports "no message" for 0x00 followed by the
      frame of type 0x21 with payload 0x10 0x05, and finds that frame without
      the 0x00; the corrected scanner finds it in both buffers. */
  lemma RestartOvershoot()
    ensures Scan([0x00] + FrameBytes(0x21, [0x10, 0x05])) == Failed(NoMessage)
    ensures Scan(FrameBytes(0x21, [0x10, 0x05])) == Found(Frame(0x21, [0x10, 0x05]), [])
    ensures ScanCorrected([0x00] + FrameBytes(0x21, [0x10, 0x05])) == Found(Frame(0x21, [0x10, 0x05]), [])
  {
    var buf := [0x00] + FrameBytes(0x21, [0x10, 0x05]);
    assert buf == [0x00, 0x10, 0x21, 0x10, 0x05, 0x10, 0x03];
    FirstDleAt(buf, 1);
    assert IndexOf(buf, DLE, 2) == Some(3);
    assert IndexOf(buf, DLE, 6) == None;
    assert CloseSearch(buf, 1, 4) == Broken(NoMessage);
    FramedRoundTrip(0x21, [0x10, 0x05], []);
    assert FrameBytes(0x21, [0x10, 0x05]) + [] == FrameBytes(0x21, [0x10, 0x05]);
    CorrectedRoundTrip([0x00], 0x21, [0x10, 0x05], []);
    assert [0x00] + FrameBytes(0x21, [0x10, 0x05]) + [] == buf;
  }

  /** Finding: a buffer that ends with the closing DLE of a message whose ETX
      has not arrived yet raises the IndexError, which escapes the callers'
      `except ValueError`; the corrected scanner reports "no message". */
  lemma TrailingDleEscapes()
    ensures Scan([0x10, 0x21, 0x10]) == Failed(IndexOutOfRange)
    ensures ScanCorrected([0x10, 0x21, 0x10]) == Failed(NoMessage)
  {
    TrailingDleIsIndexError([], 0x21, []);
    assert [] + [DLE, 0x21] + [] + [DLE] == [0x10, 0x21, 0x10];
    CorrectedIncomplete([], [0x21, 0x10]);
    assert [] + [DLE] + [0x21, 0x10] == [0x10, 0x21, 0x10];
  }

  /** The correction also changes frames at index 0, where the code as
      written skips byte `k + 1` after a rejected candidate at `k`. A payload
      ending in DLE is lost as written and found when corrected. A doubled
      DLE followed by ETX inside the payload is skipped over as written, and
      closes the message when corrected. */
  lemma CorrectionAtFront()
    ensures Scan(FrameBytes(0x21, [0x05, 0x10])) == Failed(NoMessage)
    ensures ScanCorrected(FrameBytes(0x21, [0x05, 0x10])) == Found(Frame(0x21, [0x05, 0x10]), [])
    ensures Scan([0x10, 0x2A, 0x12, 0x10, 0x10, 0x03, 0x00, 0x10, 0x03])
         == Found(Frame(0x2A, [0x12, 0x10, 0x10, 0x03, 0x00]), [])
    ensures ScanCorrected([0x10, 0x2A, 0x12, 0x10, 0x10, 0x03, 0x00, 0x10, 0x03])
         == Found(Frame(0x2A, [0x12, 0x10]), [0x00, 0x10, 0x03])
  {
    TrailingPayloadDleAtFront();
    StuffedPairAtFront();
  }

  lemma TrailingPayloadDleAtFront()
    ensures Scan(FrameBytes(0x21, [0x05, 0x10])) == Failed(NoMessage)
    ensures ScanCorrected(FrameBytes(0x21, [0x05, 0x10])) == Found(Frame(0x21, [0x05, 0x10]), [])
  {
    var a := FrameBytes(0x21, [0x05, 0x10]);
    assert a == [0x10, 0x21, 0x05, 0x10, 0x10, 0x03];
    assert IndexOf(a, DLE, 0) == Some(0);
    assert IndexOf(a, DLE, 1) == Some(3);
    assert IndexOf(a, DLE, 4) == Some(4);
    assert IndexOf(a, DLE, 5) == None;
    assert CloseSearch(a, 0, 0) == CloseSearch(a, 0, 4) == Broken(NoMessage);
    assert CloseSearchFrom(a, 1) == CloseSearchFrom(a, 4) == Closed(4);
    assert a[2..4] == [0x05, 0x10];
  }

  lemma StuffedPairAtFront()
    ensures Scan([0x10, 0x2A, 0x12, 0x10, 0x10, 0x03, 0x00, 0x10, 0x03])
         == Found(Frame(0x2A, [0x12, 0x10, 0x10, 0x03, 0x00]), [])
    ensures ScanCorrected([0x10, 0x2A, 0x12, 0x10, 0x10, 0x03, 0x00, 0x10, 0x03])
         == Found(Frame(0x2A, [0x12, 0x10]), [0x00, 0x10, 0x03])
  {
    var b := [0x10, 0x2A, 0x12, 0x10, 0x10, 0x03, 0x00, 0x10, 0x03];
    assert IndexOf(b, DLE, 0) == Some(0);
    assert IndexOf(b, DLE, 1) == Some(3);
    assert IndexOf(b, DLE, 4) == Some(4);
    assert IndexOf(b, DLE, 5) == Some(7);
    assert CloseSearch(b, 0, 0) == CloseSearch(b, 0, 4) == Closed(7);
    assert CloseSearchFrom(b, 1) == CloseSearchFrom(b, 4) == Closed(4);
    assert b[2..7] == [0x12, 0x10, 0x10, 0x03, 0x00];
    assert b[2..4] == [0x12, 0x10] && b[6..] == [0x00, 0x10, 0x03];
  }
}
