/**
 * The booking trigger on an assistant reply and the appointment record that
 * a booking inserts.
 */
module Booking {

  import opened Wrappers
  import opened Messages
  import Text
  import TimePattern
  import Extraction

  const ConfirmedWord := "confirmed"
  const BookedWord := "booked"

  /** The reply announces a booking: its lower-cased text contains "confirmed" or "booked". */
  function IsBookingReply(reply: string): (r: bool)
    ensures r ==> |reply| >= |BookedWord|
  {
    Text.Contains(Text.Lower(reply), ConfirmedWord) || Text.Contains(Text.Lower(reply), BookedWord)
  }

  /** The trigger fires exactly when "confirmed" or "booked" occurs in the lower-cased reply. */
  lemma BookingTriggerIff(reply: string)
    ensures IsBookingReply(reply) <==>
              (exists i :: Text.OccursAt(Text.Lower(reply), ConfirmedWord, i)) ||
              (exists i :: Text.OccursAt(Text.Lower(reply), BookedWord, i))
  {
    assert IsBookingReply(reply) <==>
      Text.Contains(Text.Lower(reply), ConfirmedWord) || Text.Contains(Text.Lower(reply), BookedWord);
    Text.ContainsIff(Text.Lower(reply), ConfirmedWord);
    Text.ContainsIff(Text.Lower(reply), BookedWord);
  }

  /** The trigger ignores letter case. */
  lemma BookingTriggerIgnoresCase(reply: string)
    ensures IsBookingReply(reply) == IsBookingReply(Text.Lower(reply))
  {
    Text.LowerIsLowerCase(reply);
  }

  /**
   * A reply without the letter "f" and without the letter "k", in either
   * case, never triggers a booking: "confirmed" needs the one and "booked"
   * the other.
   */
  lemma NoTriggerWithoutFOrK(reply: string)
    requires 'f' !in reply && 'F' !in reply && 'k' !in reply && 'K' !in reply
    ensures !IsBookingReply(reply)
  {
    assert forall i :: 0 <= i < |reply| ==> Text.LowerChar(reply[i]) != 'f' && Text.LowerChar(reply[i]) != 'k';
    assert ConfirmedWord[3] == 'f';
    Text.LowerLacksLetter(reply, ConfirmedWord, 3);
    assert BookedWord[3] == 'k';
    Text.LowerLacksLetter(reply, BookedWord, 3);
  }

  /** A row of the appointments table as the booking path inserts it. */
  datatype AppointmentRecord = AppointmentRecord(
    patientName: string,
    patientPhone: string,
    serviceType: string,
    appointmentDate: string,
    appointmentTime: string,
    status: string,
    createdAt: string)

  const DefaultName := "Unknown"
  const DefaultService := "General Consultation"
  const DefaultTime := "10:00 AM"
  const ConfirmedStatus := "confirmed"

  /** JavaScript's `value || fallback` on a string or `null`: `null` and "" are falsy. */
  function OrElse(value: Option<string>, fallback: string): (r: string)
    ensures value.Some? && value.value != "" ==> r == value.value
    ensures value.None? || value.value == "" ==> r == fallback
  {
    if value.Some? && value.value != "" then value.value else fallback
  }

  /**
   * The record literal of `saveAppointment`: extracted details with their
   * defaults. `now` and `createdAt` stand for the two clock reads.
   */
  function BuildRecord(phone: string, data: Extraction.AppointmentData, now: string, createdAt: string)
    : (r: AppointmentRecord)
    ensures r.patientPhone == phone && r.status == ConfirmedStatus && r.createdAt == createdAt
    ensures data.name.Some? && data.name.value != "" ==> r.patientName == data.name.value
    ensures data.name.None? || data.name.value == "" ==> r.patientName == DefaultName
    ensures data.service.Some? && data.service.value != "" ==> r.serviceType == data.service.value
    ensures data.service.None? || data.service.value == "" ==> r.serviceType == DefaultService
    ensures data.date.Some? && data.date.value != "" ==> r.appointmentDate == data.date.value
    ensures data.date.None? || data.date.value == "" ==> r.appointmentDate == now
    ensures data.time.Some? && data.time.value != "" ==> r.appointmentTime == data.time.value
    ensures data.time.None? || data.time.value == "" ==> r.appointmentTime == DefaultTime
  {
    AppointmentRecord(
      patientName := OrElse(data.name, DefaultName),
      patientPhone := phone,
      serviceType := OrElse(data.service, DefaultService),
      appointmentDate := OrElse(data.date, now),
      appointmentTime := OrElse(data.time, DefaultTime),
      status := ConfirmedStatus,
      createdAt := createdAt)
  }

  /**
   * The record `saveAppointment` inserts for a conversation: name "Unknown"
   * and date the clock, since extraction never fills them; the extracted
   * service and time, or their defaults.
   */
  ghost function SavedRecord(phone: string, messages: seq<Message>, now: string, createdAt: string): AppointmentRecord {
    var text := Extraction.FullText(messages);
    AppointmentRecord(
      patientName := DefaultName,
      patientPhone := phone,
      serviceType := OrElse(Extraction.FirstService(text), DefaultService),
      appointmentDate := now,
      appointmentTime := OrElse(TimePattern.FindTime(text), DefaultTime),
      status := ConfirmedStatus,
      createdAt := createdAt)
  }

  /**
   * `saveAppointment`: extract the details from the conversation and build the
   * inserted record. The service is the extracted one or the default; the
   * time is the extracted one or the default, and an extracted time is never
   * the default since it is lower-case.
   */
  method SaveAppointment(phone: string, messages: seq<Message>, now: string, createdAt: string)
    returns (record: AppointmentRecord)
    ensures record == SavedRecord(phone, messages, now, createdAt)
    ensures record.patientPhone == phone && record.patientName == DefaultName
    ensures record.appointmentDate == now && record.status == ConfirmedStatus && record.createdAt == createdAt
    ensures var service := Extraction.FirstService(Extraction.FullText(messages));
      (service.None? ==> record.serviceType == DefaultService) &&
      (service.Some? ==> record.serviceType == service.value && record.serviceType in Extraction.Services)
    ensures var time := TimePattern.FindTime(Extraction.FullText(messages));
      (record.appointmentTime == DefaultTime <==> time.None?) &&
      (time.Some? ==> record.appointmentTime == time.value && TimePattern.IsTimeToken(record.appointmentTime))
  {
    var data := Extraction.ExtractAppointmentData(messages);
    record := BuildRecord(phone, data, now, createdAt);
    Extraction.FirstServiceInListOrder(Extraction.FullText(messages));
    if data.time.Some? {
      Extraction.ExtractedTimeIsToken(messages);
      assert data.time.value[|data.time.value| - 2..] != "AM";
    }
  }
}
