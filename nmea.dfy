/**
  The NMEA 0183 sentence check of the receiver's text output: a sentence
  starts with '$', carries a two-character talker identifier and a
  three-character sentence formatter, and ends with CR LF.
*/
module Nmea {
  datatype Option<T> = None | Some(value: T)

  /** What the check returns, or the exception it raises. */
  datatype NmeaResult = Sentence(talkerId: string, messageId: string) | ValueError | IndexError

  /** Python's `s[i:j]` for non-negative bounds: both are clamped to the length. */
  function Slice(s: string, i: nat, j: nat): (r: string)
    ensures |r| == if j <= |s| then (if i <= j then j - i else 0) else (if i <= |s| then |s| - i else 0)
    ensures j <= |s| && i <= j ==> r == s[i..j]
    ensures i <= |s| < j ==> r == s[i..]
    ensures j <= i || |s| <= i ==> r == []
  {
    var hi := if j <= |s| then j else |s|;
    var lo := if i <= hi then i else hi;
    s[lo..hi]
  }

  /** Python's `s[-n:]` for a positive `n`: the last `n` characters, or all of
      `s` when it is shorter. */
  function Last(s: string, n: nat): (r: string)
    requires n > 0
    ensures |r| == if |s| < n then |s| else n
    ensures r == s[|s| - |r|..]
  {
    if |s| < n then s else s[|s| - n..]
  }

  function EndsWithCrLf(s: string): (r: bool)
  {
    |s| >= 2 && s[|s| - 2] == '\r' && s[|s| - 1] == '\n'
  }

  /** Python's `s.split(sep)`: the pieces between separators. */
  function Split(s: string, sep: char): (r: seq<string>)
    ensures |r| >= 1
    ensures |r| == 1 <==> sep !in s
    ensures sep !in s ==> r == [s]
    ensures sep !in r[0] && r[0] <= s
    ensures |r[0]| < |s| ==> s[|r[0]|] == sep
    decreases |s|
  {
    if |s| == 0 then [""]
    else if s[0] == sep then [""] + Split(s[1..], sep)
    else
      var rest := Split(s[1..], sep);
      assert s == [s[0]] + s[1..];
      [[s[0]] + rest[0]] + rest[1..]
  }

  /** The part of the GGA parser that can fail: the time-of-fix field is the
      second comma-separated field, and a line without a comma has none
      (its index raises IndexError). */
  function GgaTimeOfFix(line: string): (r: Option<string>)
    ensures r.None? <==> ',' !in line
  {
    var data := Split(line, ',');
    if |data| < 2 then None else Some(data[1])
  }

  /** Checks the sentence bounds and returns the talker and formatter fields.
      An empty line raises IndexError at its first character; a GGA sentence
      without a comma raises IndexError inside the GGA parser. */
  function ParseNmea(line: string): (r: NmeaResult)
    ensures r == ValueError <==> |line| > 0 && (line[0] != '$' || !EndsWithCrLf(line))
    ensures r == IndexError <==>
      |line| == 0 || (line[0] == '$' && EndsWithCrLf(line) && Slice(line, 3, 6) == "GGA" && ',' !in line)
    ensures r.Sentence? ==> |line| >= 3 && line[0] == '$' && EndsWithCrLf(line)
    ensures r.Sentence? ==> r.talkerId == Slice(line, 1, 3) && r.messageId == Slice(line, 3, 6)
    ensures r.Sentence? && |line| >= 6 ==> r.talkerId == line[1..3] && r.messageId == line[3..6]
  {
    if |line| == 0 then IndexError
    else if !(line[0] == '$') then ValueError
    else if !(Last(line, 2) == "\r\n") then ValueError
    else
      var talkerId := Slice(line, 1, 3);
      var messageId := Slice(line, 3, 6);
      if messageId == "GGA" && GgaTimeOfFix(line).None? then IndexError
      else Sentence(talkerId, messageId)
  }

  /** A sentence with the given talker, formatter and body. */
  function FormatSentence(talkerId: string, messageId: string, body: string): (r: string)
    requires |talkerId| == 2 && |messageId| == 3
    ensures |r| == |body| + 8 && r[0] == '$' && EndsWithCrLf(r)
  {
    "$" + talkerId + messageId + body + "\r\n"
  }

  /** The check gives back the talker and formatter of any sentence, except a
      GGA sentence without a comma. */
  lemma ParseFormatted(talkerId: string, messageId: string, body: string)
    requires |talkerId| == 2 && |messageId| == 3
    requires messageId == "GGA" ==> ',' in body
    ensures ParseNmea(FormatSentence(talkerId, messageId, body)) == Sentence(talkerId, messageId)
  {
    var line := FormatSentence(talkerId, messageId, body);
    assert line[1..3] == talkerId;
    assert line[3..6] == messageId;
    if messageId == "GGA" {
      var k :| 0 <= k < |body| && body[k] == ',';
      assert line[6 + k] == ',';
    }
  }

  /** A short sentence: the fields are clamped slices. "$\r\n" passes with the
      line terminator as its talker and an empty formatter. */
  lemma ShortSentences()
    ensures ParseNmea("$\r\n") == Sentence("\r\n", "")
    ensures ParseNmea("$GP\r\n") == Sentence("GP", "\r\n")
    ensures ParseNmea("$") == ValueError && ParseNmea("") == IndexError
  {
    assert Last("$\r\n", 2) == "\r\n";
    assert Last("$GP\r\n", 2) == "\r\n";
  }

  /** The sentence the program checks at start-up is "$GPGGA" followed by
      this body and CR LF. */
  const StartupBody: string := "," + "143728.00,3334.4680,S,01918.2387,E,1,08,01.5,282.1,M,33.0,M,,*4D"

  lemma StartupSentence()
    ensures ParseNmea(FormatSentence("GP", "GGA", StartupBody)) == Sentence("GP", "GGA")
  {
    assert StartupBody[0] == ',';
    ParseFormatted("GP", "GGA", StartupBody);
  }

  /** A GGA sentence without a comma raises IndexError. */
  lemma GgaWithoutCommaFails(talkerId: string, body: string)
    requires |talkerId| == 2 && ',' !in talkerId + body
    ensures ParseNmea(FormatSentence(talkerId, "GGA", body)) == IndexError
  {
    var line := FormatSentence(talkerId, "GGA", body);
    assert line[3..6] == "GGA";
    assert ',' !in line by {
      assert line == "$" + talkerId + "GGA" + body + "\r\n";
      forall i | 0 <= i < |line| ensures line[i] != ',' {
        if 1 <= i < 3 { assert line[i] == talkerId[i - 1]; }
        else if 6 <= i < 6 + |body| { assert line[i] == body[i - 6]; }
      }
    }
  }

  lemma GgaWithoutCommaExample()
    ensures ParseNmea(FormatSentence("GP", "GGA", "")) == IndexError
    ensures FormatSentence("GP", "GGA", "") == "$GPGGA\r\n"
  {
    GgaWithoutCommaFails("GP", "");
  }
}
