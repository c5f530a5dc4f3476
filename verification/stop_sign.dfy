/**
 The stop-sign text check: a stop-sign detection is kept only when the text
 reader finds the word STOP, in any letter case, in one of its readings of
 the cropped sign. The text reader is an oracle; this module sees only the
 list of strings it returned.
 */
module StopSign {

  /** Python's `str.upper` on one character, for the ASCII letters. */
  function UpperChar(ch: char): char {
    if 'a' <= ch <= 'z' then (ch as int - 32) as char else ch
  }

  /** Python's `str.upper`, character by character. */
  function Upper(s: string): (u: string)
    ensures |u| == |s|
  {
    seq(|s|, i requires 0 <= i < |s| => UpperChar(s[i]))
  }

  /** `p` occurs in `s` starting at index `i`. */
  predicate OccursAt(s: string, p: string, i: nat) {
    i + |p| <= |s| && s[i .. i + |p|] == p
  }

  /** Python's substring test `p in s`. */
  predicate Contains(s: string, p: string) {
    exists i: nat | i <= |s| :: OccursAt(s, p, i)
  }

  /** The word the check looks for. */
  const Keyword: string := "STOP"

  /** One reading passes when its upper-cased text contains STOP. */
  predicate ReadsStop(text: string) {
    Contains(Upper(text), Keyword)
  }

  /** Some reading in the list passes. */
  predicate AnyReadsStop(readings: seq<string>) {
    exists k :: 0 <= k < |readings| && ReadsStop(readings[k])
  }

  /** A non-empty list passes iff its head passes or its tail does. */
  lemma AnyReadsStopTail(readings: seq<string>)
    requires |readings| > 0
    ensures AnyReadsStop(readings) <==> ReadsStop(readings[0]) || AnyReadsStop(readings[1..])
  {
  }

  /**
   The outcome of one check: the verdict, and the readings the loop visited
   (and logged as "Sign reads: ...") before it stopped.
   */
  datatype OcrScan = OcrScan(stopFound: bool, logged: seq<string>)

  /**
   `stopsign_ocr_check` on the oracle's readings. The loop computes
   `text.replace("0", "O")` but throws the result away, so the test runs on
   the reading as recognised; it leaves the loop at the first reading that
   passes.
   */
  function StopsignOcrCheck(readings: seq<string>): (o: OcrScan)
    ensures o.stopFound <==> AnyReadsStop(readings)
    ensures |o.logged| <= |readings| && o.logged == readings[..|o.logged|]
    ensures o.stopFound ==> |o.logged| > 0 && ReadsStop(o.logged[|o.logged| - 1])
    ensures forall k :: 0 <= k < |o.logged| - 1 ==> !ReadsStop(o.logged[k])
    ensures !o.stopFound ==> o.logged == readings
  {
    if |readings| == 0 then OcrScan(false, [])
    else
      var text := readings[0];
      if ReadsStop(text) then OcrScan(true, [text])
      else
        var rest := StopsignOcrCheck(readings[1..]);
        AnyReadsStopTail(readings);
        assert [text] + rest.logged == readings[..1 + |rest.logged|] by {
          assert rest.logged == readings[1..][..|rest.logged|];
        }
        OcrScan(rest.stopFound, [text] + rest.logged)
  }

  /** The digit-to-letter correction the loop computes and discards: every `0` becomes `O`. */
  function ReplaceZeros(text: string): (r: string)
    ensures |r| == |text|
    ensures forall i :: 0 <= i < |text| ==> (text[i] == '0' ==> r[i] == 'O') && (text[i] != '0' ==> r[i] == text[i])
  {
    if |text| == 0 then ""
    else [if text[0] == '0' then 'O' else text[0]] + ReplaceZeros(text[1..])
  }

  /**
   Because the corrected string is thrown away, a sign read as "ST0P" is
   rejected, although its corrected reading "STOP" would pass.
   */
  lemma ZeroIsNotCorrected()
    ensures !StopsignOcrCheck(["ST0P"]).stopFound
    ensures ReadsStop(ReplaceZeros("ST0P"))
  {
    assert Upper("ST0P") == "ST0P";
    assert "ST0P"[0..4][2] != Keyword[2];
    assert !OccursAt("ST0P", Keyword, 0);
    assert !ReadsStop("ST0P");
    var fixed := ReplaceZeros("ST0P");
    assert fixed == "STOP";
    assert Upper(fixed) == "STOP";
    assert OccursAt(Upper(fixed), Keyword, 0);
  }

  /** The check ignores letter case and surrounding text, and rejects other words. */
  lemma CheckExamples()
    ensures StopsignOcrCheck(["GO", "Stop sign"]).stopFound
    ensures StopsignOcrCheck(["GO", "Stop sign"]).logged == ["GO", "Stop sign"]
    ensures !StopsignOcrCheck(["GO"]).stopFound
    ensures !StopsignOcrCheck(["5T0P"]).stopFound
    ensures !StopsignOcrCheck([]).stopFound
  {
    assert Upper("Stop sign") == "STOP SIGN";
    assert OccursAt(Upper("Stop sign"), Keyword, 0);
    assert Upper("GO") == "GO";
    assert !ReadsStop("GO");
    assert Upper("5T0P") == "5T0P";
    assert "5T0P"[0..4][0] != Keyword[0];
    assert !OccursAt("5T0P", Keyword, 0);
    assert !ReadsStop("5T0P");
    assert StopsignOcrCheck(["GO", "Stop sign"])
        == OcrScan(StopsignOcrCheck(["Stop sign"]).stopFound, ["GO"] + StopsignOcrCheck(["Stop sign"]).logged);
  }
}
