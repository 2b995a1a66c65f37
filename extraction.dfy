/**
 * Keyword extraction of appointment details from a conversation: the first
 * service of a fixed vocabulary that the text mentions, and the leftmost time
 * expression. Name and date are never extracted.
 */
module Extraction {

  import opened Wrappers
  import opened Messages
  import Text
  import TimePattern

  /** The service vocabulary, in the order in which it is searched. */
  const Services: seq<string> :=
    ["cleaning", "whitening", "filling", "root canal", "extraction", "checkup"]

  /** The details extraction fills in; `None` is the source's `null`. */
  datatype AppointmentData = AppointmentData(
    name: Option<string>,
    service: Option<string>,
    date: Option<string>,
    time: Option<string>)

  /** The conversation's text as extraction reads it: contents joined by single spaces, lower-cased. */
  function FullText(messages: seq<Message>): (text: string)
    ensures Text.IsLowerCase(text)
  {
    Text.Lower(Text.JoinWithSpaces(Contents(messages)))
  }

  /** The first entry of `Services` at index `i` or later that `text` contains. */
  function FirstServiceFrom(text: string, i: nat): (r: Option<string>)
    requires i <= |Services|
    ensures r.Some? ==> r.value in Services && Text.Contains(text, r.value)
    decreases |Services| - i
  {
    if i == |Services| then None
    else if Text.Contains(text, Services[i]) then Some(Services[i])
    else FirstServiceFrom(text, i + 1)
  }

  /** The first entry of `Services`, in list order, that `text` contains. */
  function FirstService(text: string): (r: Option<string>)
    ensures r.Some? ==> r.value in Services && Text.Contains(text, r.value)
  {
    FirstServiceFrom(text, 0)
  }

  lemma {:induction false} FirstServiceFromIsLeast(text: string, i: nat)
    requires i <= |Services|
    ensures FirstServiceFrom(text, i).None? <==>
              forall j :: i <= j < |Services| ==> !Text.Contains(text, Services[j])
    ensures forall j :: i <= j < |Services| && Text.Contains(text, Services[j]) &&
                        (forall k :: i <= k < j ==> !Text.Contains(text, Services[k])) ==>
              FirstServiceFrom(text, i) == Some(Services[j])
    decreases |Services| - i
  {
    if i < |Services| {
      FirstServiceFromIsLeast(text, i + 1);
    }
  }

  /**
   * The extracted service is the entry with the least index in `Services`
   * that occurs in the text, wherever in the text it occurs; `None` when no
   * entry occurs.
   */
  lemma FirstServiceInListOrder(text: string)
    ensures FirstService(text).None? <==> forall j :: 0 <= j < |Services| ==> !Text.Contains(text, Services[j])
    ensures forall j :: 0 <= j < |Services| && Text.Contains(text, Services[j]) &&
                        (forall k :: 0 <= k < j ==> !Text.Contains(text, Services[k])) ==>
              FirstService(text) == Some(Services[j])
    ensures FirstService(text).Some? ==>
              FirstService(text).value in Services && Text.Contains(text, FirstService(text).value)
  {
    FirstServiceFromIsLeast(text, 0);
    if FirstService(text).Some? {
      var j :| 0 <= j < |Services| && Text.Contains(text, Services[j]);
      LeastOccurring(text, j);
    }
  }

  /** Some entry occurs, so an entry of least index occurs. */
  lemma {:induction false} LeastOccurring(text: string, j: nat)
    requires j < |Services| && Text.Contains(text, Services[j])
    ensures exists j' :: 0 <= j' < |Services| && Text.Contains(text, Services[j']) &&
                         forall k :: 0 <= k < j' ==> !Text.Contains(text, Services[k])
    decreases j
  {
    if exists k :: 0 <= k < j && Text.Contains(text, Services[k]) {
      var k :| 0 <= k < j && Text.Contains(text, Services[k]);
      LeastOccurring(text, k);
    }
  }

  /** A text naming "checkup" before "cleaning" still yields "cleaning": list order wins. */
  lemma ListOrderWins()
    ensures FirstService("a checkup and a cleaning") == Some("cleaning")
  {
    var text := "a checkup and a cleaning";
    assert Text.OccursAt(text, "cleaning", 16);
    Text.ContainsIff(text, "cleaning");
    FirstServiceInListOrder(text);
  }

  /**
   * `extractAppointmentData`: scans `Services` in order and stops at the first
   * entry the text contains, then takes the leftmost time expression.
   */
  method ExtractAppointmentData(messages: seq<Message>) returns (data: AppointmentData)
    ensures data.name.None? && data.date.None?
    ensures data.service == FirstService(FullText(messages))
    ensures data.time == TimePattern.FindTime(FullText(messages))
  {
    data := AppointmentData(None, None, None, None);
    var fullText := Text.Lower(Text.JoinWithSpaces(Contents(messages)));
    for i := 0 to |Services|
      invariant data == AppointmentData(None, None, None, None)
      invariant FirstServiceFrom(fullText, i) == FirstService(fullText)
    {
      if Text.Contains(fullText, Services[i]) {
        data := data.(service := Some(Services[i]));
        break;
      }
    }
    var timeMatch := TimePattern.FindTime(fullText);
    if timeMatch.Some? {
      data := data.(time := Some(timeMatch.value));
    }
  }

  /** Messages that differ only in letter case have the same extraction text. */
  lemma ExtractionIgnoresCase(m1: seq<Message>, m2: seq<Message>)
    requires |m1| == |m2|
    requires forall i :: 0 <= i < |m1| ==> Text.Lower(m1[i].content) == Text.Lower(m2[i].content)
    ensures FullText(m1) == FullText(m2)
    ensures FirstService(FullText(m1)) == FirstService(FullText(m2))
    ensures TimePattern.FindTime(FullText(m1)) == TimePattern.FindTime(FullText(m2))
  {
    Text.LowerJoin(Contents(m1));
    Text.LowerJoin(Contents(m2));
    assert Text.LowerAll(Contents(m1)) == Text.LowerAll(Contents(m2));
  }

  /** A service that any single message names, in any letter case, is seen by extraction. */
  lemma ServiceInAnyMessage(messages: seq<Message>, k: nat, j: nat)
    requires k < |messages| && j < |Services|
    requires Text.Contains(Text.Lower(messages[k].content), Services[j])
    ensures FirstService(FullText(messages)).Some?
  {
    var parts := Contents(messages);
    Text.JoinEmbedsPart(parts, k);
    var a, c :| Text.JoinWithSpaces(parts) == a + parts[k] + c;
    Text.LowerConcat(a + parts[k], c);
    Text.LowerConcat(a, parts[k]);
    Text.ContainsInContext(Text.Lower(a), Text.Lower(parts[k]), Text.Lower(c), Services[j]);
    FirstServiceFromIsLeast(FullText(messages), 0);
  }

  /**
   * An extracted time is a string of the time pattern, occurs in the text,
   * is lower-case and ends in "am" or "pm".
   */
  lemma ExtractedTimeIsToken(messages: seq<Message>)
    requires TimePattern.FindTime(FullText(messages)).Some?
    ensures var time := TimePattern.FindTime(FullText(messages)).value;
      TimePattern.IsTimeToken(time) && Text.Contains(FullText(messages), time) &&
      Text.IsLowerCase(time) && |time| >= 3 && (time[|time| - 2..] == "am" || time[|time| - 2..] == "pm")
  {
    var text := FullText(messages);
    Text.LowerIsLowerCase(Text.JoinWithSpaces(Contents(messages)));
    TimePattern.FindTimeIsToken(text);
    TimePattern.FindTimeInLowerCase(text);
  }
}
