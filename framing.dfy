/**
  The BINR frame scanner: `<DLE><ID>[data]<DLE><ETX>`, with DLE = 0x10 and
  ETX = 0x03. The scanner takes one message off the front of an accumulating
  buffer and hands back the rest of the buffer. It works on the values of any
  list of integers, since callers pass a bytearray or a plain list of ints.
*/
module Framing {

  const DLE: int := 0x10
  const ETX: int := 0x03

  datatype Option<T> = None | Some(value: T)

  /** An element of a Python `bytes` object. */
  type byte = x: int | 0 <= x < 256

  /** One message: its type byte and the data bytes between the type byte and
      the closing DLE. */
  datatype Frame = Frame(id: int, data: seq<int>)

  /** NoMessage is the ValueError "Buffer did not contain message".
      IndexOutOfRange is the IndexError raised when a closing candidate DLE is
      the buffer's last byte: the handler for ValueError does not catch it. */
  datatype ScanError = NoMessage | IndexOutOfRange

  /** What a scan returns: the message and what is left of the buffer, or why
      there was none. */
  datatype ScanResult = Found(frame: Frame, rest: seq<int>) | Failed(error: ScanError)

  /** Where the search for a closing DLE ETX pair ended. */
  datatype Search = Closed(stop: nat) | Broken(error: ScanError)

  /** The wire form of a message, as every encoder builds it. */
  function FrameBytes(id: int, payload: seq<int>): (r: seq<int>)
    ensures |r| == |payload| + 4
    ensures r[0] == DLE && r[1] == id && r[|r| - 2] == DLE && r[|r| - 1] == ETX
    ensures r[2..|r| - 2] == payload
  {
    [DLE, id] + payload + [DLE, ETX]
  }

  /** `s[from:].index(x) + from`: the first position at or after `from` that
      holds `x`, or None where Python raises ValueError. */
  function IndexOf(s: seq<int>, x: int, from: nat): (r: Option<nat>)
    ensures r.Some? ==> from <= r.value < |s| && s[r.value] == x
    ensures r.Some? ==> forall j :: from <= j < r.value ==> s[j] != x
    ensures r.None? ==> forall j :: from <= j < |s| ==> s[j] != x
    decreases |s| - from
  {
    if from >= |s| then None
    else if s[from] == x then Some(from)
    else IndexOf(s, x, from + 1)
  }

  /** The `while searching` loop of the scanner, with the opening DLE at
      `start`. Each round searches from `start + 1 + offset`; a candidate DLE
      at `k` that is not followed by ETX sets the offset to `k + 1`, an
      absolute index, so the next round starts at `start + k + 2`. */
  function CloseSearch(buf: seq<int>, start: nat, offset: nat): (r: Search)
    ensures r.Closed? ==> start + 1 + offset <= r.stop && r.stop + 1 < |buf|
    ensures r.Closed? ==> buf[r.stop] == DLE && buf[r.stop + 1] == ETX
    ensures r == Broken(IndexOutOfRange) ==> |buf| > 0 && buf[|buf| - 1] == DLE
    decreases |buf| - offset
  {
    match IndexOf(buf, DLE, start + 1 + offset)
    case None => Broken(NoMessage)
    case Some(k) =>
      if k + 1 >= |buf| then Broken(IndexOutOfRange)
      else if buf[k + 1] == ETX then Closed(k)
      else CloseSearch(buf, start, k + 1)
  }

  /** `buf` is noise without a DLE, the opening DLE at `open`, the type byte,
      the data, the accepted DLE ETX pair at `close`, and then `rest`. When the
      type byte is itself the accepted DLE (`close == open + 1`) the data is
      empty. */
  ghost predicate SplitsAt(buf: seq<int>, open: nat, close: nat, f: Frame, rest: seq<int>)
  {
    && open < close && close + 1 < |buf|
    && buf[open] == DLE
    && (forall j :: 0 <= j < open ==> buf[j] != DLE)
    && f.id == buf[open + 1]
    && f.data == (if close == open + 1 then [] else buf[open + 2..close])
    && buf[close] == DLE && buf[close + 1] == ETX
    && rest == buf[close + 2..]
  }

  /** The message between the opening DLE at `s` and the accepted DLE at `k`,
      and what follows the DLE ETX pair. */
  function Cut(buf: seq<int>, s: nat, k: nat): (r: ScanResult)
    requires s < k && k + 1 < |buf|
    ensures r.Found? && r.frame.id == buf[s + 1] && |r.rest| == |buf| - k - 2
  {
    Found(Frame(buf[s + 1], if k == s + 1 then [] else buf[s + 2..k]), buf[k + 2..])
  }

  /** The scanner as a function of the buffer. */
  function Scan(buf: seq<int>): (r: ScanResult)
    ensures r.Found? ==> |r.rest| + 2 < |buf|
  {
    match IndexOf(buf, DLE, 0)
    case None => Failed(NoMessage)
    case Some(s) =>
      match CloseSearch(buf, s, 0)
      case Broken(e) => Failed(e)
      case Closed(k) => Cut(buf, s, k)
  }

  /** The IndexError escapes only from a buffer whose last byte is a DLE. */
  lemma IndexErrorOnlyAtTrailingDle(buf: seq<int>)
    ensures Scan(buf) == Failed(IndexOutOfRange) ==> |buf| > 0 && buf[|buf| - 1] == DLE
  {
    match IndexOf(buf, DLE, 0)
    case None =>
    case Some(s) =>
      var o := CloseSearch(buf, s, 0);
      ScanAfterOpening(buf, s, o);
  }

  /** A buffer without any DLE holds no message. */
  lemma NoDleIsNoMessage(buf: seq<int>)
    requires forall j :: 0 <= j < |buf| ==> buf[j] != DLE
    ensures Scan(buf) == Failed(NoMessage)
  {
  }

  /** A message the scanner finds is cut out of the buffer as SplitsAt says:
      the type byte right after the first DLE, the data strictly between the
      type byte and the accepted DLE, the rest exactly what follows the DLE
      ETX pair. */
  lemma ScanSplits(buf: seq<int>)
    ensures Scan(buf).Found? ==> exists open, close :: SplitsAt(buf, open, close, Scan(buf).frame, Scan(buf).rest)
  {
    if Scan(buf).Found? {
      var s := IndexOf(buf, DLE, 0).value;
      var k := CloseSearch(buf, s, 0).stop;
      assert SplitsAt(buf, s, k, Scan(buf).frame, Scan(buf).rest);
    }
  }

  /** process_msg: find the first DLE, search for the closing DLE ETX pair,
      and cut the message out of the buffer. */
  method ProcessMsg(buffer: seq<int>) returns (r: ScanResult)
    ensures r == Scan(buffer)
  {
    var first := IndexOf(buffer, DLE, 0);
    if first.None? {
      return Failed(NoMessage);
    }
    var startId := first.value;
    var stop := SearchStop(buffer, startId);
    ScanAfterOpening(buffer, startId, stop);
    if stop.Broken? {
      return Failed(stop.error);
    }
    var stopId := stop.stop;
    MessageCut(buffer, startId, stopId);
    var msg := buffer[startId..stopId + 2];
    var messageId := msg[1];
    // msg[2:-2] is empty when msg is just DLE, DLE, ETX
    var data := if |msg| < 4 then [] else msg[2..|msg| - 2];
    r := Found(Frame(messageId, data), buffer[stopId + 2..]);
  }

  /** The `while searching` loop of process_msg, from the opening DLE at
      `startId`: it returns the index of the accepted DLE, or the error that
      escapes the loop. */
  method SearchStop(buffer: seq<int>, startId: nat) returns (r: Search)
    ensures r == CloseSearch(buffer, startId, 0)
  {
    ghost var outcome := CloseSearch(buffer, startId, 0);
    var searching := true;
    var stopIdOffset: nat := 0;
    var stopId: nat := 0;
    while searching
      invariant stopIdOffset <= |buffer|
      invariant searching ==> CloseSearch(buffer, startId, stopIdOffset) == outcome
      invariant !searching ==> outcome == Closed(stopId)
      decreases searching, |buffer| - stopIdOffset
    {
      var candidate := IndexOf(buffer, DLE, startId + 1 + stopIdOffset);
      CloseSearchStep(buffer, startId, stopIdOffset);
      if candidate.None? {
        return Broken(NoMessage);
      }
      stopId := candidate.value;
      if stopId + 1 >= |buffer| {
        return Broken(IndexOutOfRange);
      }
      if buffer[stopId + 1] == ETX {
        searching := false;
      } else {
        stopIdOffset := stopId + 1;
      }
    }
    return Closed(stopId);
  }

  /** `buffer[start:stop+2]`, then its second element and `msg[2:-2]`. */
  lemma MessageCut(buffer: seq<int>, start: nat, stop: nat)
    requires start < stop && stop + 1 < |buffer|
    ensures var msg := buffer[start..stop + 2];
      && |msg| >= 3
      && Cut(buffer, start, stop) == Found(Frame(msg[1], if |msg| < 4 then [] else msg[2..|msg| - 2]), buffer[stop + 2..])
  {
    var msg := buffer[start..stop + 2];
    assert |msg| == stop + 2 - start;
    assert msg[1] == buffer[start + 1];
    if stop > start + 1 {
      var inner := msg[2..|msg| - 2];
      assert |inner| == stop - start - 2;
      assert forall i :: 0 <= i < |inner| ==> inner[i] == buffer[start + 2 + i];
      assert inner == buffer[start + 2..stop];
    }
  }

  /** One round of the search loop, for each way the round can end. */
  lemma CloseSearchStep(buf: seq<int>, start: nat, offset: nat)
    ensures IndexOf(buf, DLE, start + 1 + offset).None? ==> CloseSearch(buf, start, offset) == Broken(NoMessage)
    ensures IndexOf(buf, DLE, start + 1 + offset).Some? ==>
      var k := IndexOf(buf, DLE, start + 1 + offset).value;
      CloseSearch(buf, start, offset) ==
        if k + 1 >= |buf| then Broken(IndexOutOfRange)
        else if buf[k + 1] == ETX then Closed(k)
        else CloseSearch(buf, start, k + 1)
  {
  }

  /** What the scanner returns once the opening DLE is at `s` and the search
      from there ends in `o`. */
  lemma ScanAfterOpening(buf: seq<int>, s: nat, o: Search)
    requires IndexOf(buf, DLE, 0) == Some(s) && o == CloseSearch(buf, s, 0)
    ensures o.Broken? ==> Scan(buf) == Failed(o.error)
    ensures o.Closed? ==> Scan(buf) == Cut(buf, s, o.stop)
  {
    if o.Broken? {
      ScanBroken(buf, s, o.error);
    } else {
      ScanClosed(buf, s, o.stop);
    }
  }

  lemma ScanBroken(buf: seq<int>, s: nat, e: ScanError)
    requires IndexOf(buf, DLE, 0) == Some(s) && CloseSearch(buf, s, 0) == Broken(e)
    ensures Scan(buf) == Failed(e)
  {
  }

  lemma ScanClosed(buf: seq<int>, s: nat, k: nat)
    requires IndexOf(buf, DLE, 0) == Some(s) && CloseSearch(buf, s, 0) == Closed(k)
    ensures Scan(buf) == Cut(buf, s, k)
  {
  }

  /** Every DLE inside a message body is followed, still inside the body, by
      a byte other than ETX. */
  ghost predicate DlesFollowed(body: seq<int>)
  {
    forall j :: 0 <= j < |body| && body[j] == DLE ==> j + 1 < |body| && body[j + 1] != ETX
  }

  lemma FirstDleAt(buf: seq<int>, g: nat)
    requires g < |buf| && buf[g] == DLE
    requires forall j :: 0 <= j < g ==> buf[j] != DLE
    ensures IndexOf(buf, DLE, 0) == Some(g)
  {
  }

  /** With the message at the front of the buffer, every rejected candidate is
      a DLE of the body, and the search always comes back to the closing DLE. */
  lemma {:induction false} CloseFromFront(body: seq<int>, rest: seq<int>, offset: nat)
    requires |body| > 0 && DlesFollowed(body)
    requires offset <= |body|
    ensures CloseSearch([DLE] + body + [DLE, ETX] + rest, 0, offset) == Closed(|body| + 1)
    decreases |body| - offset
  {
    var buf := [DLE] + body + [DLE, ETX] + rest;
    assert buf[|body| + 1] == DLE && buf[|body| + 2] == ETX;
    var c := IndexOf(buf, DLE, 1 + offset);
    assert c.Some? && c.value <= |body| + 1;
    var k := c.value;
    if k < |body| + 1 {
      assert buf[k] == body[k - 1];
      assert buf[k + 1] == body[k];
      CloseFromFront(body, rest, k + 1);
    }
  }

  /** A message at the front of the buffer is recovered whole when every DLE
      in its body (type byte and payload) is followed by a byte other than
      ETX. */
  lemma FramedRoundTrip(id: int, payload: seq<int>, rest: seq<int>)
    requires DlesFollowed([id] + payload)
    ensures Scan(FrameBytes(id, payload) + rest) == Found(Frame(id, payload), rest)
  {
    var body := [id] + payload;
    var buf := FrameBytes(id, payload) + rest;
    assert buf == [DLE] + body + [DLE, ETX] + rest;
    FirstDleAt(buf, 0);
    CloseFromFront(body, rest, 0);
    assert buf[1] == id;
    assert buf[2..|body| + 1] == payload;
    assert buf[|body| + 3..] == rest;
  }

  /** Garbage without a DLE in front of a message is dropped: a message whose
      type byte is not DLE and whose payload holds no DLE comes back whole,
      and the rest of the buffer is exactly what followed it. */
  lemma ResyncRoundTrip(garbage: seq<int>, id: int, payload: seq<int>, rest: seq<int>)
    requires DLE !in garbage && id != DLE && DLE !in payload
    ensures Scan(garbage + FrameBytes(id, payload) + rest) == Found(Frame(id, payload), rest)
  {
    var g := |garbage|;
    var buf := garbage + FrameBytes(id, payload) + rest;
    var k := g + 2 + |payload|;
    ResyncOpens(garbage, id, payload, rest);
    ResyncCloses(garbage, id, payload, rest);
    FrameCut(garbage, id, payload, rest);
    ScanClosed(buf, g, k);
  }

  lemma ResyncOpens(garbage: seq<int>, id: int, payload: seq<int>, rest: seq<int>)
    requires DLE !in garbage
    ensures IndexOf(garbage + FrameBytes(id, payload) + rest, DLE, 0) == Some(|garbage|)
  {
    var buf := garbage + FrameBytes(id, payload) + rest;
    assert buf[|garbage|] == DLE;
    assert forall j :: 0 <= j < |garbage| ==> buf[j] == garbage[j];
    FirstDleAt(buf, |garbage|);
  }

  lemma ResyncCloses(garbage: seq<int>, id: int, payload: seq<int>, rest: seq<int>)
    requires id != DLE && DLE !in payload
    ensures CloseSearch(garbage + FrameBytes(id, payload) + rest, |garbage|, 0) == Closed(|garbage| + 2 + |payload|)
  {
    var g := |garbage|;
    var buf := garbage + FrameBytes(id, payload) + rest;
    var k := g + 2 + |payload|;
    assert buf[k] == DLE && buf[k + 1] == ETX;
    assert forall j :: g + 2 <= j < k ==> buf[j] == payload[j - g - 2];
    assert IndexOf(buf, DLE, g + 1) == Some(k);
  }

  /** The message cut out between the opening DLE in front of the frame and
      its closing DLE is the frame's own type byte and payload. */
  lemma FrameCut(garbage: seq<int>, id: int, payload: seq<int>, rest: seq<int>)
    ensures var buf := garbage + FrameBytes(id, payload) + rest;
      Cut(buf, |garbage|, |garbage| + 2 + |payload|) == Found(Frame(id, payload), rest)
  {
    var g := |garbage|;
    var buf := garbage + FrameBytes(id, payload) + rest;
    var k := g + 2 + |payload|;
    assert buf[g + 1] == id;
    assert buf[g + 2..k] == payload;
    assert buf[k + 2..] == rest;
  }

  /** A message that has not fully arrived yet gives "no message". */
  lemma IncompleteIsNoMessage(garbage: seq<int>, id: int, payload: seq<int>)
    requires DLE !in garbage && id != DLE && DLE !in payload
    ensures Scan(garbage + [DLE, id] + payload) == Failed(NoMessage)
  {
    var g := |garbage|;
    var buf := garbage + [DLE, id] + payload;
    assert forall j :: 0 <= j < g ==> buf[j] == garbage[j];
    assert buf[g] == DLE;
    FirstDleAt(buf, g);
    assert forall j :: g + 2 <= j < |buf| ==> buf[j] == payload[j - g - 2];
    assert IndexOf(buf, DLE, g + 1) == None;
  }

  /** Behind noise without a DLE, a message with no DLE in its type byte or
      payload whose closing DLE has arrived but whose ETX has not raises the
      IndexError, not the "no message" ValueError. */
  lemma TrailingDleIsIndexError(garbage: seq<int>, id: int, payload: seq<int>)
    requires DLE !in garbage && id != DLE && DLE !in payload
    ensures Scan(garbage + [DLE, id] + payload + [DLE]) == Failed(IndexOutOfRange)
  {
    var g := |garbage|;
    var buf := garbage + [DLE, id] + payload + [DLE];
    var k := |buf| - 1;
    assert forall j :: 0 <= j < g ==> buf[j] == garbage[j];
    assert buf[g] == DLE && buf[k] == DLE;
    FirstDleAt(buf, g);
    assert forall j :: g + 2 <= j < k ==> buf[j] == payload[j - g - 2];
    assert IndexOf(buf, DLE, g + 1) == Some(k);
  }

  /** The type byte can itself be the accepted closing DLE: DLE, DLE, ETX is a
      message of type DLE with no data. */
  lemma TypeByteCloses(garbage: seq<int>, rest: seq<int>)
    requires DLE !in garbage
    ensures Scan(garbage + [DLE, DLE, ETX] + rest) == Found(Frame(DLE, []), rest)
  {
    var g := |garbage|;
    var buf := garbage + [DLE, DLE, ETX] + rest;
    assert forall j :: 0 <= j < g ==> buf[j] == garbage[j];
    assert buf[g] == DLE && buf[g + 1] == DLE && buf[g + 2] == ETX;
    FirstDleAt(buf, g);
    assert IndexOf(buf, DLE, g + 1) == Some(g + 1);
    assert buf[g + 3..] == rest;
  }

  /** A payload that ends in a lone DLE is never recovered: the byte after a
      rejected candidate is never itself a candidate, so the closing DLE is
      skipped. */
  lemma PayloadEndingInDleIsLost(id: int, payload: seq<int>)
    requires id != DLE && DLE !in payload
    ensures Scan(FrameBytes(id, payload + [DLE])) == Failed(NoMessage)
  {
    var buf := FrameBytes(id, payload + [DLE]);
    var k := |payload| + 2;
    assert buf[0] == DLE && buf[k] == DLE && buf[k + 1] == DLE && buf[k + 2] == ETX;
    FirstDleAt(buf, 0);
    assert forall j :: 2 <= j < k ==> buf[j] == payload[j - 2];
    assert IndexOf(buf, DLE, 1) == Some(k);
    assert |buf| == k + 3;
    assert IndexOf(buf, DLE, k + 2) == None;
    assert CloseSearch(buf, 0, k + 1) == Broken(NoMessage);
  }

  /** A one-byte message (test_binr.py:7-15). */
  lemma ScanOneByteMessage()
    ensures Scan([0x10, 0x21, 0x01, 0x10, 0x03]) == Found(Frame(0x21, [0x01]), [])
  {
    ResyncRoundTrip([], 0x21, [0x01], []);
    assert [0x10, 0x21, 0x01, 0x10, 0x03] == [] + FrameBytes(0x21, [0x01]) + [];
  }

  /** The data of the ten-byte message of test_binr.py:18-28. */
  const TenBytePayload: seq<int> := [0x0B, 0x09, 0x3E, 0x4E, 0x12, 0x3F, 0x11, 0x39, 0x60, 0x3F]

  /** The ten-byte message comes back whole (test_binr.py:18-28). */
  lemma ScanTenByteMessage()
    ensures |TenBytePayload| == 10 && TenBytePayload[4] == 0x12
    ensures Scan([0x10, 0x60] + TenBytePayload + [0x10, 0x03]) == Found(Frame(0x60, TenBytePayload), [])
  {
    assert DLE !in TenBytePayload;
    assert [0x10, 0x60] + TenBytePayload + [0x10, 0x03] == [] + FrameBytes(0x60, TenBytePayload) + [];
    ResyncRoundTrip([], 0x60, TenBytePayload, []);
  }

  /** No opening DLE before the only DLE ETX pair (test_binr.py:31-35). */
  lemma ScanWithoutOpening()
    ensures Scan([0x11, 0x21, 0x01, 0x10, 0x03]) == Failed(NoMessage)
  {
    var b := [0x11, 0x21, 0x01, 0x10, 0x03];
    FirstDleAt(b, 3);
    assert IndexOf(b, DLE, 4) == None;
  }

  /** A message behind noise, with two bytes after it (test_binr.py:39-49). */
  lemma ScanBehindNoise()
    ensures Scan([0x11, 0x21, 0x10, 0x21, 0x01, 0x10, 0x03, 0x23, 0x12]) == Found(Frame(0x21, [0x01]), [0x23, 0x12])
  {
    ResyncRoundTrip([0x11, 0x21], 0x21, [0x01], [0x23, 0x12]);
    assert [0x11, 0x21, 0x10, 0x21, 0x01, 0x10, 0x03, 0x23, 0x12]
        == [0x11, 0x21] + FrameBytes(0x21, [0x01]) + [0x23, 0x12];
  }

  /** A closing DLE followed by 0x00 instead of ETX (test_binr.py:52-54). */
  lemma ScanWithoutTerminator()
    ensures Scan([0x11, 0x21, 0x10, 0x21, 0x01, 0x10, 0x00, 0x23, 0x12]) == Failed(NoMessage)
  {
    var b := [0x11, 0x21, 0x10, 0x21, 0x01, 0x10, 0x00, 0x23, 0x12];
    FirstDleAt(b, 2);
    assert IndexOf(b, DLE, 3) == Some(5);
    assert IndexOf(b, DLE, 9) == None;
    assert CloseSearch(b, 2, 6) == Broken(NoMessage);
  }
}
