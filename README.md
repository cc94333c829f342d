# Nextcloud DAV helpers, modelled in Dafny

This project models the three helper modules of a Nextcloud integration-test suite:

- `dav_functions/webdav.py` fetches, uploads and deletes files over WebDAV.
- `dav_functions/caldav.py` finds a calendar by display name and builds the iCalendar text of one event. This text has the shape of sections 3.4 and 3.6.1 of RFC 5545, with UTC DATE-TIME values of section 3.3.5. It is not strictly conforming: it has no PRODID, which section 3.6 requires, and it ends its lines with LF instead of the CRLF of section 3.1. The module also looks events up by SUMMARY, with or without a date range, saves an event, and deletes the first event with a given UID.
- `dav_functions/carddav.py` creates contacts and enumerates the address book. Enumeration sends an addressbook-query REPORT (section 8.6 of RFC 6352) and reads the multistatus answer (section 13 of RFC 4918). The module also selects a contact by full name, and updates or deletes a contact addressed by its href.

The network is a parameter. Every file and contact helper takes the transport as a function `send: Request -> Response` from the request it builds to the response it gets back. `Transport.Succeeds` states when the HTTP client's `raise_for_status()` lets a response through. The calendar helpers talk to the server through the CalDAV library, so its outcomes stand in for the transport there: a `CalDav.SearchAnswer` for a listing or a search, and the booleans `saveSucceeds` and `deleteSucceeds` for saving and deleting an event.

The XML parser is also a parameter, from the response body to the `DAV:response` elements in document order. A vCard is the record that the vCard library would parse (`Vcard.Card`). A calendar is a `CalDav.Calendar` object that holds the events the server stores. A search, ranged or not, is the server's answer: either a selection over those stored events or a raised error. The fresh UUID and the current UTC time are arguments.

Files:
- `options.dfy`: the `None`/value results.
- `strings.dfy`: `str.split`, `str.join`, `str.rstrip`, the last `/` segment and zero-padded digits, with their laws.
- `vcard.dfy`: the parsed vCard record.
- `transport.dfy`: requests and responses.
- `webdav.dfy`, `caldav.dfy`, `carddav.dfy`: one module per helper file.

Three behaviours of the code are worth knowing, and the model follows each of them:
- The contact lookup by name returns the last record with that name, not the first.
- The upload URL strips every trailing `/` from the directory URL before it adds `/` and the file name.
- A response counts as failed only for statuses 400–599, the ones `raise_for_status()` raises for, and not for every non-2xx status.

## Model

| member | source | states |
|---|---|---|
| Strings.Split | dav_functions/carddav.py:68 | `str.split` on one character yields at least one part, and no part holds the separator |
| Strings.JoinSplit | dav_functions/carddav.py:68 | joining the parts of a split with the separator gives back the original string |
| Strings.SplitJoin | dav_functions/caldav.py:29 | splitting a join of separator-free parts gives back exactly those parts |
| Strings.LastSegmentIsSuffix | dav_functions/carddav.py:68 | `split("/")[-1]` holds no `/`, ends the string, and is the whole string or follows a `/` |
| Strings.LastSegmentUnique | dav_functions/carddav.py:68 | the last segment is the only suffix that is free of `/` and is whole or follows a `/` |
| Strings.LastSegmentIdempotent | dav_functions/carddav.py:197 | taking the last segment of a last segment changes nothing |
| Strings.LastSegmentAfterSep | dav_functions/carddav.py:26 | in `path + "/" + name` with `name` free of `/`, the last segment is `name` |
| Strings.RStrip | dav_functions/webdav.py:46 | `rstrip("/")` keeps a prefix that does not end in `/` and removes only `/` characters |
| Strings.RStripUnique | dav_functions/webdav.py:46 | exactly one prefix has the properties `RStrip` promises |
| Strings.RStripAppend | dav_functions/webdav.py:46 | one more trailing `/` does not change the stripped string |
| Strings.Digits | dav_functions/caldav.py:21-23 | a zero-padded field has exactly its width and consists only of digits |
| Strings.DigitsValue | dav_functions/caldav.py:21-23 | read left to right as a decimal number, the zero-padded digits of a number below 10^width spell exactly that number |
| Strings.DigitsInjective | dav_functions/caldav.py:21-23 | distinct numbers below 10^width have distinct zero-padded renderings |
| WebDav.GetFileContent | dav_functions/webdav.py:13-19 | a GET of the URL exactly as given: the body on success, `None` on a request exception (transport failure or 4xx/5xx) |
| WebDav.UploadUrl | dav_functions/webdav.py:46 | the target ends in `"/" + name`, has no second `/` before that one, and the part before is `dir` without its trailing `/`s |
| WebDav.UploadFile | dav_functions/webdav.py:42-55 | an unopenable local file raises and nothing is sent; otherwise the result is `True` iff the PUT of its bytes to `UploadUrl` succeeds |
| WebDav.DeleteFile | dav_functions/webdav.py:80-86 | `True` iff the DELETE of the URL exactly as given succeeds, else `False` |
| WebDav.UploadUrlIgnoresTrailingSlash | dav_functions/webdav.py:46 | `dir` and `dir + "/"` give the same upload target |
| WebDav.UploadUrlIsPlainJoin | test_webdav.py:20-36 | the upload target equals the callers' `dir + "/" + name` iff `dir` does not end in `/` |
| WebDav.UploadThenGet | test_webdav.py:17-38 | against an idealised file server, an upload returns `True` and a later GET of `dir + "/" + name` returns the uploaded bytes |
| WebDav.DeleteThenGet | test_webdav.py:41-52 | against that server, delete returns `True` iff the file exists, and a later GET returns `None` |
| CalDav.Stamp | dav_functions/caldav.py:21-23 | `%Y%m%dT%H%M%SZ` is 16 characters: digits, `T` at position 8, literal `Z` at position 15 |
| CalDav.StampFields | dav_functions/caldav.py:21-23 | for a valid date-time, positions 0–3, 4–5, 6–7, 9–10, 11–12 and 13–14 of the stamp, read as decimal numbers, are its year, month, day, hour, minute and second |
| CalDav.StampInjective | dav_functions/caldav.py:21-23 | two valid date-times with the same stamp agree to the second |
| CalDav.StampIgnoresZoneAndMicroseconds | dav_functions/caldav.py:21-23 | the UTC offset and the microseconds do not affect the stamp; `Z` is appended whatever the zone |
| CalDav.EventData | dav_functions/caldav.py:14-29 | the document opens with the `BEGIN:VCALENDAR` line and ends with `END:VCALENDAR`, so no newline trails it |
| CalDav.EventDataLines | dav_functions/caldav.py:16-29 | split on "\n", the document is exactly the 11 lines in their fixed order; summary, UID and description appear verbatim; the default description gives `DESCRIPTION:` |
| CalDav.EventDataUidDistinct | dav_functions/caldav.py:24 | documents built with different identifiers differ, whatever the other arguments |
| CalDav.FirstTextValueOfPlain | dav_functions/caldav.py:20 | reading a TEXT value (section 3.3.11 of RFC 5545) leaves a text without a backslash and without a comma unchanged |
| CalDav.FirstTextValueStopsAtComma | dav_functions/caldav.py:20 | reading a TEXT value keeps only the first item of the comma-separated list: `a + "," + b` reads as `a` |
| CalDav.EventDataReadBack | dav_functions/caldav.py:14-29 | the store reads back the caller's summary, UID and description with their TEXT escapes decoded, when none of them holds a line break |
| CalDav.EventDataRoundTrip | dav_functions/caldav.py:14-29 | reading back a built document yields the caller's summary, UID and description, when none of them holds a line break, a backslash or a comma |
| CalDav.EventDataBackslashMisread | dav_functions/caldav.py:20 | the summary is written unescaped, so a summary holding `\n` (backslash, `n`) is read back with a line break in its place |
| CalDav.EventDataCommaTruncates | dav_functions/caldav.py:20 | the summary is written unescaped; if the store keeps the document text as written, a summary `a + "," + b` ("Meeting, Bob") is read back as `a` alone and is not found again by its own name |
| CalDav.CalendarByName | dav_functions/caldav.py:5-11 | `None` iff no calendar has that exact name; otherwise the first calendar that has it |
| CalDav.Filter | dav_functions/caldav.py:54-55 | a server answer returns only selected stored events, never more of them than are stored, and every selected stored event; `CalDav.FilterAppend` adds that they come in store order |
| CalDav.FilterAppend | dav_functions/caldav.py:54-55 | the answer over one more stored event is the answer over the others followed by that event when it is selected, so the answer keeps store order |
| CalDav.ReadEvents | dav_functions/caldav.py:38-42 | the unranged listing is `None` exactly when it raises; otherwise it is the server's listing unchanged: the selected stored events in store order |
| CalDav.ReadEventsInRange | dav_functions/caldav.py:54-58 | a failed ranged search reads as `[]`; otherwise it is the server's answer unchanged: the selected stored events in store order |
| CalDav.SummaryHitFrom | dav_functions/caldav.py:95-98 | the index of the first event whose SUMMARY equals the name, with every earlier SUMMARY present and different; `None` only if there is no match or an event without SUMMARY comes before the first one |
| CalDav.FindBySummary | dav_functions/caldav.py:74-77 | the FIRST listed event with that SUMMARY, every earlier event having a different SUMMARY; `None` iff no event has it or an event without SUMMARY comes before the first that has it (the raise is caught); when every event has a SUMMARY, `None` iff none matches |
| CalDav.EventByName | dav_functions/caldav.py:61-80 | a failed listing gives `None`, because iterating the missing list raises and that is caught; otherwise the result is `FindBySummary` over the server's listing, so the first matching stored event |
| CalDav.EventByNameInRange | dav_functions/caldav.py:83-101 | a failed ranged search gives `None`; otherwise the result is `FindBySummary` over the events the search returns, so the first matching one |
| CalDav.CreateEvent | dav_functions/caldav.py:104-108 | a successful save appends the event read from the document; a failed save changes nothing |
| CalDav.UidHitFrom | dav_functions/caldav.py:120-125 | the index of the first event that the search returns with that UID, every earlier returned event having a different UID; `None` only if there is no match or an event without UID comes before the first one |
| CalDav.RemoveAt | dav_functions/caldav.py:123 | deleting one event removes exactly that occurrence and keeps the order of all others |
| CalDav.DeleteEvent | dav_functions/caldav.py:111-128 | `True` iff the search hits an event with that UID and its deletion succeeds, and then exactly that event is removed; otherwise `False` and the calendar is unchanged |
| CalDav.DeleteRemovesTheUid | dav_functions/caldav.py:120-124 | with unique UIDs, no event keeps the deleted UID |
| CalDav.FindBySummaryAppended | test_caldav.py:56-72 | a new event appended after events with other summaries is the one found by its summary |
| CalDav.UidHitAppended | test_caldav.py:96-108 | a new event appended after events with other UIDs is the one the delete hits |
| CalDav.StoreCycle | test_caldav.py:56-112 | an event appended after events with other summaries and UIDs is found by its summary and hit by the delete, the delete removes exactly it, and the lookup then gives `None` |
| CalDav.CreateFindDelete | test_caldav.py:56-112 | for texts without line breaks, backslashes or commas: create, find by summary (with the caller's description), delete by UID (removing exactly it), then the lookup gives `None` |
| CardDav.NewCard | dav_functions/carddav.py:22-24 | FN is `fullname` or `"Unknown"`, EMAIL is `email` or `""`, and there is no NOTE |
| CardDav.CreateContact | dav_functions/carddav.py:21-49 | a card the vCard library cannot serialise raises before any request; otherwise `True` iff the PUT of the new card to `url + "/" + id + ".vcf"` with content-type `text/vcard` succeeds |
| CardDav.ContactFileName | dav_functions/carddav.py:68 | the file name of an href holds no `/`, ends the href, and is the whole href or follows a `/` |
| CardDav.UpdateContact | dav_functions/carddav.py:68-91 | a card the vCard library cannot serialise raises before any request; otherwise `True` iff the PUT of the card to `url + "/" + ContactFileName(href)` with content-type `text/vcard` succeeds |
| CardDav.DeleteContact | dav_functions/carddav.py:197-208 | `True` iff the DELETE of `url + "/" + ContactFileName(href)` succeeds |
| CardDav.HrefAndFileNameAgree | dav_functions/carddav.py:194-201 | a full href and its bare file name produce the same update request and the same delete request |
| CardDav.BareHrefUsedWhole | dav_functions/carddav.py:64-76 | an href without `/` is used whole in the update and delete URLs |
| CardDav.CreatedContactAddressedByHref | dav_functions/carddav.py:26-34 | an href of the form `path + "/" + id + ".vcf"` makes update and delete target the URL the create wrote |
| CardDav.ReportRequest | dav_functions/carddav.py:104-127 | the REPORT goes to `url + "/"` with content-type `application/xml` and depth `1` |
| CardDav.ContactOf | dav_functions/carddav.py:134-142 | a record carries the card and the text of the element's `DAV:href`, and FN is the card's FN or `"Unknown"` when the card has none |
| CardDav.ContactsOf | dav_functions/carddav.py:132-143 | there are no more records than response elements, and every element with a card yields its record |
| CardDav.ContactsOfSound | dav_functions/carddav.py:136-142 | every record comes from an element that carries a card |
| CardDav.ContactsOfAppend | dav_functions/carddav.py:133-142 | records keep document order: the records of `a + b` are those of `a` followed by those of `b` |
| CardDav.FetchContacts | dav_functions/carddav.py:94-147 | the loop yields `None` on any failure and otherwise all the records: a request error, bad XML, a response without href or an unparsable card each give `None` |
| CardDav.SelectContact | dav_functions/carddav.py:169-180 | raises "No contacts found" for a failed enumeration and "Contact not found" when no record matches (an empty list included); otherwise returns the LAST matching record |
| CardDav.FetchContact | dav_functions/carddav.py:150-180 | the same selection, applied to the enumeration of the address book |
| CardDav.FailuresAreDistinguishable | dav_functions/carddav.py:169-178 | a raised lookup says "No contacts found" exactly when the enumeration failed |
| CardDav.CreatedContactIsFound | test_carddav.py:27-39 | when the created card is listed, the lookup by the name the create wrote finds a record with that name |

## Left out

- The HTTP traffic itself is a parameter: authentication, status codes beyond the 400–599 test, streaming of the upload body, and connection handling. Timeouts and connection errors all appear as `Unreachable`.
- The CalDAV library is reduced to its outcomes. Listing a principal's calendars, searching by date, saving, deleting and event objects become the calendar store and the server's answers. Which events a date range selects is decided by the server, so it is a parameter of the answer. The model assumes that a search lists events in store order.
- If listing a principal's calendars raises, the error propagates out of the calendar lookup. `CalDav.CalendarByName` takes the list as already fetched and does not model that error.
- Serialising and parsing vCards and parsing XML belong to foreign libraries. Cards are already-parsed records, and the XML parser is a function parameter. The request body of a card is the card itself (`VCardText`), not its text.
- `CalDav.ParseEventData` reads only the fixed 11-line layout that `CalDav.EventData` writes. It reads each of its three values the way the iCalendar library reads a single TEXT value: the first item of a comma-separated list, with the escapes decoded. It is not an iCalendar parser, and the library's reading is taken from its published behaviour, not from code in this repository.
- `CalDav.EventDataRoundTrip`: holds only for texts without a backslash or a comma. The document writes its texts unescaped. The reader decodes the five escapes `\\`, `\;`, `\,`, `\n` and `\N`, and keeps only the text before the first unescaped comma. So, when the store keeps the document text as written (see `CalDav.CreateEvent` below), a summary such as "Meeting, Bob" is not found again by its own name.
- `CalDav.CreateFindDelete`: the same restriction, for the same reason. The identifier, a UUID, never holds a backslash or a comma.
- `CalDav.CreateEvent`: assumes that the server stores the document text exactly as `CalDav.EventData` wrote it, and stores the event `CalDav.ParseEventData` reads from it. The CalDAV library may instead parse the text with an iCalendar library and send that library's re-serialisation, which escapes a comma as `\,`. That step is not modelled. A successful save of a document the layout reader cannot read (a summary holding a line break, say) leaves the model's store unchanged, while the program's save stores an event.
- `uuid4()` and `utcnow()` are arguments, because they are non-deterministic.
- Diagnostic `print` output and `time.sleep` are not modelled.
- `CardDav.CreateContact`: for a 4xx/5xx status, the handler decodes the response body. A body that is not UTF-8 makes that decode raise from inside the handler, and the exception propagates. The model returns `False` for every such status.
- `CardDav.UpdateContact`: the same handler and the same simplification as the create.
- `CardDav.CreateContact` and `CardDav.UpdateContact` take as a parameter which cards the vCard library serialises without raising. Its validation rules are not modelled.
- `CalDav.Stamp` writes the year zero-padded to four digits, as current CPython does. Older interpreters built on glibc write years below 1000 with fewer digits.
- `CalDav.ValidDateTime` checks the calendar fields that `datetime` checks. Any `tzinfo` is reduced to an optional UTC offset in minutes.
- The test suite edits an event's DESCRIPTION through the iCalendar library and saves it again. That is test code and is not modelled.
- The configuration module holds only constants. The old scripts under `old/` only talk to a server.
