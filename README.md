# Clinic messaging assistant: the text booking path

This project models the part of the dental clinic's messaging server
(`server-free.js`) that handles patient text messages over SMS and WhatsApp.
It covers:

- the in-memory registry of conversations, keyed by the sender's number. The
  `/sms` and `/whatsapp` handlers look up or create the sender's conversation,
  append the patient's message, ask the language-model service for a reply,
  append the reply and store the conversation again;
- the request sent to the language model: the clinic's system prompt followed
  by the conversation, and the fixed fallback reply when the request fails;
- the booking trigger: a reply whose lower-cased text contains `confirmed` or
  `booked` makes the server save an appointment;
- `extractAppointmentData`: the message contents joined by spaces and
  lower-cased; the first entry of the fixed service list that occurs in that
  text; the leftmost match of the time expression
  `/(\d{1,2}):?(\d{2})?\s*(am|pm)/i`;
- `saveAppointment`: the appointment row it inserts, with the defaults
  `Unknown`, `General Consultation`, the current time and `10:00 AM` for
  missing details, and status `confirmed`.

Modules:

- `Wrappers`: the `Option` type.
- `Text`: the string operations the source relies on:
  - `toLowerCase`;
  - `includes`;
  - `join(' ')`.
- `Messages`: chat messages and their roles. A conversation alternates: user
  turns at even positions and assistant turns at odd ones.
- `TimePattern`: the time regular expression, in two forms:
  - a matcher that tries the alternatives in the order JavaScript's
    backtracking engine does;
  - a declarative description of the language.

  The two are proved to agree. The language is proved prefix-free, so the
  regex's `match[0]` is the unique string of the language that starts at the
  leftmost position where one starts.
- `Extraction`: `extractAppointmentData` as a method with the source's
  `for … break` loop, specified by pure functions.
- `Prompt`: `getGroqResponse`.
- `Booking`: the trigger and `saveAppointment`.
- `Conversations`: the registry as a class with a map field. Its handler
  method is specified by a pure function of the old registry. Lemmas cover
  any run of exchanges from startup.

Two facts about the code shape what is saved:

- `extractAppointmentData` starts `name` and `date` as `null` and never
  assigns them (server-free.js:291-296, 318). So the saved name is always
  `Unknown` and the saved date is always the clock's value.
- The `/voice` route (server-free.js:92-109) only answers with a fixed spoken
  greeting; calls never reach the booking path.

Parameters stand in for everything outside the program:

- The language-model HTTP call is the parameter `complete`, a function
  `seq<Message> -> Option<string>` from the request's messages to the reply's
  content. `None` stands for any failure of the request.
  `Prompt.GroqResponse` (`getGroqResponse`) passes the content on and turns
  `None` into the fixed fallback reply.
- The two clock reads in `saveAppointment` are the string parameters `now` and
  `createdAt`.

## Model

| member | source | states |
|---|---|---|
| Text.Lower | server-free.js:301 | lower-casing maps every ASCII capital to its small letter and leaves every other character unchanged, position by position |
| Text.LowerIsLowerCase | server-free.js:301 | lower-cased text holds no capital letter, and lower-casing it again changes nothing |
| Text.Contains | server-free.js:306 | `includes`: the empty word is always contained, and a contained word is no longer than the text |
| Text.ContainsIff | server-free.js:306 | `includes` holds exactly when the word occurs at some index of the text |
| Text.LowerJoin | server-free.js:298-301 | lower-casing the joined contents equals joining the lower-cased contents |
| Text.JoinWithSpaces | server-free.js:300 | `join(' ')`: the joined text begins with the first part |
| Text.LowerLacksLetter | server-free.js:143-144 | when no character of a text lower-cases to some letter of a word, the lower-cased text does not contain the word |
| Messages.Contents | server-free.js:299 | `map(m => m.content)`: one content per message, the content of the message at the same position |
| Text.JoinEmbedsPart | server-free.js:298-300 | every message content appears whole inside the space-joined text |
| TimePattern.SkipSpaces | server-free.js:313 | `\s*` consumes the longest run of whitespace characters |
| TimePattern.MatchAt | server-free.js:313 | the pattern anchored at a position, tried in the engine's order: a match ends after its start and within the text |
| TimePattern.SearchFrom | server-free.js:313 | the engine's left-to-right scan: a match starts at or after the scan's start and ends after its own start, within the text |
| TimePattern.FindTime | server-free.js:313-316 | `match(...)[0]`: a matched time is non-empty and no longer than the text |
| TimePattern.MatchAtCorrect | server-free.js:313 | the backtracking matcher succeeds at a position with end `e` exactly when the string from that position to `e` is in the regex's language |
| TimePattern.TimeAtUnique | server-free.js:313 | at most one string of the language starts at any position, so the order in which the engine tries the optional parts does not change the match |
| TimePattern.SearchFromCorrect | server-free.js:313 | the scan returns a match at the first start position that has one, and no match starts earlier; no result means no match starts at or after the scan's start |
| TimePattern.FindTimeIsLeftmostMatch | server-free.js:313-316 | the extracted time is absent exactly when no substring is in the language; otherwise it is the string of the language at the leftmost start |
| TimePattern.TimeTokenShape | server-free.js:313 | a matched time starts with a digit, ends in am/pm in any case, holds one to four digits, and has at most one colon, placed after one or two leading digits |
| TimePattern.FindTimeIsToken | server-free.js:313-316 | the extracted time is in the language and occurs in the text |
| TimePattern.FindTimeInLowerCase | server-free.js:301-316 | on lower-cased text the extracted time is lower-case and ends in exactly "am" or "pm" |
| Extraction.FullText | server-free.js:298-301 | the extraction text holds no capital letter |
| Extraction.FirstService | server-free.js:304-310 | a found service is an entry of the service list that the text contains |
| Extraction.FirstServiceInListOrder | server-free.js:304-310 | there is no service exactly when no listed service occurs; otherwise the service is the occurring entry with the least list index, and it is a list entry the text contains |
| Extraction.ListOrderWins | server-free.js:304-310 | the list's order decides, not the text's: a text naming "checkup" before "cleaning" yields "cleaning" |
| Extraction.ExtractAppointmentData | server-free.js:290-319 | name and date stay null; the service is the first listed service the text contains; the time is the leftmost time match of the lower-cased joined text |
| Extraction.ExtractionIgnoresCase | server-free.js:298-316 | conversations whose messages differ only in letter case yield the same text, service and time |
| Extraction.ServiceInAnyMessage | server-free.js:298-310 | when any one message names a listed service, in any letter case, some service is extracted |
| Extraction.ExtractedTimeIsToken | server-free.js:298-316 | an extracted time is in the language, occurs in the conversation's text, is lower-case and ends in "am" or "pm" |
| Booking.IsBookingReply | server-free.js:143-144 | the trigger; a reply shorter than "booked" never fires it |
| Booking.NoTriggerWithoutFOrK | server-free.js:143-144 | a reply with no "f" and no "k" in either case never fires the trigger, since "confirmed" holds an "f" and "booked" a "k" |
| Booking.BookingTriggerIff | server-free.js:143-144 | the trigger fires exactly when "confirmed" or "booked" occurs at some index of the lower-cased reply |
| Booking.BookingTriggerIgnoresCase | server-free.js:143-144 | the trigger gives the same answer on a reply and on its lower-cased form |
| Booking.OrElse | server-free.js:268-272 | `value \|\| fallback` yields a present non-empty value itself, and the fallback for `null` or the empty string |
| Booking.BuildRecord | server-free.js:267-275 | the inserted literal: phone, status `confirmed` and creation time as given; each extracted detail when present and non-empty, and its default when `null` or empty (`Unknown`, `General Consultation`, the clock's date, `10:00 AM`) |
| Booking.SaveAppointment | server-free.js:260-276 | the row holds the phone number, name `Unknown`, the clock's date and creation time, and status `confirmed`; the service is the extracted one (a list entry) or `General Consultation`; the time is `10:00 AM` exactly when none was extracted, and otherwise the extracted time |
| Prompt.BuildPrompt | server-free.js:227-233 | the request is the system message with the clinic context, followed by every conversation message in order |
| Prompt.OnlyFirstIsSystem | server-free.js:227-233 | for an alternating conversation, the request's first message is the only system message |
| Conversations.MessagesOf | server-free.js:119-122 | get-or-create: the stored conversation of a known sender, the empty conversation for a new one |
| Conversations.AfterExchange | server-free.js:119-140 | after one exchange, the sender's conversation is the old one (or none) extended by the user turn and then the assistant turn; the other senders' entries are unchanged and no other key is added |
| Conversations.FirstExchange | server-free.js:119-122 | a new sender's conversation holds exactly the user turn and the assistant turn |
| Conversations.ExchangeKeepsAlternation | server-free.js:125-137 | an exchange keeps the sender's turns alternating |
| Conversations.ExchangeKeepsRegistryAlternating | server-free.js:119-140 | an exchange keeps every stored conversation alternating |
| Conversations.FailedCompletionFallsBack | server-free.js:253-256 | when the completion request fails, the reply is the fallback text, the handler (lines 131-140) still appends the user turn and the fallback as the assistant turn, and no booking is triggered |
| Conversations.ReplayAlternates | server-free.js:119-140 | after any run of exchanges from startup, every sender's conversation alternates and holds two messages per exchange with that sender; only senders with an exchange have an entry |
| Conversations.Registry.constructor | server-free.js:21 | the registry starts empty |
| Conversations.Registry.HandleMessage | server-free.js:112-146 | the reply is the completion for the old conversation plus the new user turn; the registry becomes the one-exchange update and stays alternating; a record is saved exactly when the reply triggers a booking, and it is the record extraction builds from the stored conversation (the `/whatsapp` handler, lines 165-200, is the same) |

## Left out

- HTTP routing, TwiML rendering, sending the WhatsApp reply and the voice routes: these are I/O and produce no state the booking path reads.
- The Groq HTTP request itself, including model name, token limit and temperature: it is the `complete` parameter.
- The Supabase insert and its error logging: `SaveAppointment` returns the row instead, and an insert failure changes nothing else.
- `new Date().toISOString()`: the two clock reads are the parameters `now` and `createdAt`.
- The `appointmentData: {}` field of a new conversation: nothing ever reads or writes it.
- Conversation objects are mutated in place by `push`, with the registry holding a reference. The model updates the sender's entry by value; absent concurrency the resulting registry is the same.
- Concurrent requests from the same sender, which the asynchronous handlers can interleave, are not modelled.
- The `catch` branches of the handlers (the apology message) are not modelled. No step of the modelled path fails, because the completion failure is already mapped to the fallback reply.
- A missing message body (`Body` undefined) and a `null` completion content are not modelled; both are strings here.
- Text.Lower: models `toLowerCase` on ASCII letters only, because non-ASCII case mapping needs Unicode tables. The only non-ASCII characters that lower-case to ASCII letters are U+212A KELVIN SIGN (to `k`) and U+0130 (to `i` followed by U+0307). So JavaScript fires the booking trigger on "BOO\u212AED", which lower-cases to "booked", and extracts "checkup" from "CHEC\u212AUP"; the model does neither. No other trigger word, service or meridiem can be reached this way, since U+0130 always adds the combining dot after the `i`.
- TimePattern.IsMeridiem: the `/i` flag on `am`/`pm` is modelled by ASCII case folding. Unicode case folding does not apply, because the flag has no `u`.
- Conversations.Registry.HandleMessage: does not state what the reply sender does with the reply, because that is I/O.
- `setup-database.js` and `test-services-free.js` are not part of this model.
