/**
 * How `NetworkMonitor.ping_host` turns the text printed by the system `ping`
 * command into a latency: it lower-cases the output, looks for `tempo=`
 * (Portuguese Windows) and otherwise `time=` (English Windows), and takes the
 * text between that marker and the following `ms`. The conversion with
 * `float()` is not modelled: the functions here return the text it is given.
 */
module PingOutput {

  import opened Base
  import opened Text

  /** What the parser splits "lines" on: the two characters backslash and `n`, not a line break. */
  const LiteralBackslashN: string := ['\\', 'n']
  const TempoMarker: string := "tempo="
  const TimeMarker: string := "time="
  const MsMarker: string := "ms"
  /** The markers Windows prints for a reply faster than one millisecond (`tempo<1ms`). */
  const TempoBelowMarker: string := "tempo<"
  const TimeBelowMarker: string := "time<"

  /** `line.split(marker)[1].split('ms')[0].strip()`. */
  function ValueAfter(line: string, marker: string): string
    requires |marker| > 0 && Contains(line, marker)
  {
    SplitFirstPieces(line, marker);
    Strip(Split(Split(line, marker)[1], MsMarker)[0])
  }

  /** The loop over the lines: the value on the first line holding both the marker and `ms`. */
  function FirstMatchingLine(lines: seq<string>, marker: string): Option<string>
    requires |marker| > 0
  {
    if lines == [] then None
    else if Contains(lines[0], marker) && Contains(lines[0], MsMarker) then Some(ValueAfter(lines[0], marker))
    else FirstMatchingLine(lines[1..], marker)
  }

  /**
   * The text `ping_host` passes to `float()`, as written: `tempo=` takes
   * precedence, `time=` is consulted only when `tempo=` is absent, and None
   * stands for the `return None` paths.
   */
  function LatencyText(stdout: string): Option<string>
  {
    var output := Lower(stdout);
    if Contains(output, TempoMarker) then FirstMatchingLine(Split(output, LiteralBackslashN), TempoMarker)
    else if Contains(output, TimeMarker) then FirstMatchingLine(Split(output, LiteralBackslashN), TimeMarker)
    else None
  }

  /**
   * Because the split is on the literal characters backslash-n, an ordinary
   * multi-line output is a single "line", and the value is the text between
   * the first marker and the first `ms` after it (when the marker occurs once).
   */
  lemma LatencyTextBetweenMarkers(stdout: string, marker: string)
    requires marker == TempoMarker || marker == TimeMarker
    requires var output := Lower(stdout);
      !Contains(output, LiteralBackslashN) &&
      Contains(output, marker) &&
      (marker == TimeMarker ==> !Contains(output, TempoMarker))
    requires var output := Lower(stdout);
      var rest := output[IndexOf(output, marker).value + |marker|..];
      Contains(rest, MsMarker) && !Contains(rest, marker)
    ensures var output := Lower(stdout);
      var rest := output[IndexOf(output, marker).value + |marker|..];
      LatencyText(stdout) == Some(Strip(rest[..IndexOf(rest, MsMarker).value]))
  {
    var output := Lower(stdout);
    var k := IndexOf(output, marker).value;
    var rest := output[k + |marker|..];
    assert Split(output, LiteralBackslashN) == [output];
    OccursInSuffix(output, k + |marker|, MsMarker, IndexOf(rest, MsMarker).value);
    assert Contains(output, MsMarker);
    SplitFirstPieces(output, marker);
    assert Split(output, marker)[1] == rest;
    SplitFirstPieces(rest, MsMarker);
  }

  /** Text without upper-case ASCII letters is its own lower-case form. */
  lemma {:induction false} LowerKeepsLowerCase(s: string)
    requires forall i :: 0 <= i < |s| ==> !('A' <= s[i] <= 'Z')
    ensures Lower(s) == s
  {
    if s != [] {
      LowerKeepsLowerCase(s[1..]);
    }
  }

  /** `Lower(s)` is `t` when each character of `s` lowers to the matching one of `t`. */
  lemma LowerIs(s: string, t: string)
    requires |s| == |t| && forall i :: 0 <= i < |s| ==> LowerChar(s[i]) == t[i]
    ensures Lower(s) == t
  {
  }

  /** Lower-casing is what lets the markers match whatever case `ping` prints them in. */
  lemma UpperCaseMarkersFold()
    ensures Lower("TEMPO=") == TempoMarker && Lower("TIME=") == TimeMarker && Lower("MS") == MsMarker
  {
    LowerIs("TEMPO=", TempoMarker);
    LowerIs("TIME=", TimeMarker);
    LowerIs("MS", MsMarker);
  }

  /**
   * The latency field of the reply line Windows prints for a host answering in
   * under a millisecond (`Resposta de 192.168.0.1: bytes=32 tempo<1ms TTL=64`).
   */
  const SubMillisecondReply: string := "tempo<1ms"

  /** As written, that reply yields no latency: the probe is counted as failed. */
  lemma SubMillisecondReplyRejectedExample()
    ensures LatencyText(SubMillisecondReply) == None
  {
    SubMillisecondReplyShape();
  }

  /** That reply is one "line" without an `=` marker ... */
  lemma SubMillisecondReplyLacksMarkers()
    ensures !Contains(SubMillisecondReply, LiteralBackslashN)
    ensures !Contains(SubMillisecondReply, TempoMarker) && !Contains(SubMillisecondReply, TimeMarker)
  {
    AbsentChar(SubMillisecondReply, TempoMarker, 5);
    AbsentChar(SubMillisecondReply, TimeMarker, 1);
    AbsentChar(SubMillisecondReply, LiteralBackslashN, 0);
  }

  /** ... that holds `tempo<` and `ms`. */
  lemma SubMillisecondReplyHasBelowMarker()
    ensures Contains(SubMillisecondReply, TempoBelowMarker) && Contains(SubMillisecondReply, MsMarker)
  {
    assert OccursAt(SubMillisecondReply, TempoBelowMarker, 0);
    assert OccursAt(SubMillisecondReply, MsMarker, 7);
  }

  /** The reply, lower-cased, meets what the parser with the `<` markers needs. */
  lemma SubMillisecondReplyShape()
    ensures var output := Lower(SubMillisecondReply);
      !Contains(output, LiteralBackslashN) &&
      !Contains(output, TempoMarker) && !Contains(output, TimeMarker) &&
      Contains(output, TempoBelowMarker) && Contains(output, MsMarker)
  {
    LowerKeepsLowerCase(SubMillisecondReply);
    SubMillisecondReplyLacksMarkers();
    SubMillisecondReplyHasBelowMarker();
  }

  /** With the `<` markers the same reply yields its latency text. */
  lemma SubMillisecondReplyAcceptedExample()
    ensures LatencyTextWithBelowMarkers(SubMillisecondReply).Some?
  {
    SubMillisecondReplyShape();
    BelowMarkerReplyAccepted(SubMillisecondReply, TempoBelowMarker);
  }

  /** The parser with the `<` markers also recognised: what `ping_host` evidently intends. */
  function LatencyTextWithBelowMarkers(stdout: string): Option<string>
  {
    match LatencyText(stdout)
    case Some(text) => Some(text)
    case None =>
      var output := Lower(stdout);
      if Contains(output, TempoBelowMarker) then FirstMatchingLine(Split(output, LiteralBackslashN), TempoBelowMarker)
      else if Contains(output, TimeBelowMarker) then FirstMatchingLine(Split(output, LiteralBackslashN), TimeBelowMarker)
      else None
  }

  /** With the `<` markers, a sub-millisecond reply line yields its latency text. */
  lemma {:induction false} BelowMarkerReplyAccepted(stdout: string, marker: string)
    requires marker == TempoBelowMarker || marker == TimeBelowMarker
    requires var output := Lower(stdout);
      !Contains(output, LiteralBackslashN) &&
      !Contains(output, TempoMarker) && !Contains(output, TimeMarker) &&
      Contains(output, marker) && Contains(output, MsMarker) &&
      (marker == TimeBelowMarker ==> !Contains(output, TempoBelowMarker))
    ensures LatencyTextWithBelowMarkers(stdout) == Some(ValueAfter(Lower(stdout), marker))
  {
    var output := Lower(stdout);
    assert Split(output, LiteralBackslashN) == [output];
  }
}
