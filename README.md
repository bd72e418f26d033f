# nomofomo: dedup-and-alert core

nomofomo is a scheduled scraper. It fetches the event listing from one page,
keeps the events whose `_id` is not already stored in the `events` table,
normalises them into `Event` records, and then for each new event sends one
SMS alert and inserts the event into the table.

This project models the two steps that hold logic:

- `parse_events` (module `Events`, file `events.dfy`). It filters the raw
  records against the set of stored ids, which is read once before the loop.
  It turns every other record into an `Event`. The fields are copied as they
  are. The start time is converted to a US/Central string, or kept raw when
  the conversion fails. Two situations raise an uncaught error and abort the
  call: a record without `_id`, and a new record without a `room` object.
  The method `ParseEvents` keeps the source's loop with `continue`. It is
  proved equal to the function `Parsed`, and the properties are proved about
  `Parsed`. `Fresh` and `NewPositions` give an independent definition of the
  order-preserving filter.
- `execute_events` (module `Alerts`, file `alerts.dfy`). For each event in
  order it sends the alert `"NOMOFOMO ALERT! <name>, <when>, <room>"` and then
  inserts the event. Both calls are recorded as `Action`s in a trace.
- `run` (module `Pipeline`, file `pipeline.dfy`) composes the two steps. It
  also proves that a second run over the same records, after the inserts,
  finds nothing new.

Raw records are decoded JSON. A field the source reads with `dict.get` is an
`Option<string>`, so `Event.name`, `when`, `room` and `url` may be `None`.
A Python f-string renders `None` as the text `None`, and `Show` models that.
The time-zone conversion (`datetime.fromisoformat`, pytz, `strftime`) is a
parameter `convert: string -> Option<string>`, where `None` means it raised.
A missing `start` also makes the conversion raise, so `when` stays `None`.
The stored table is a parameter `known: set<string>` of ids.

`main.py` sends one SMS per event, each followed by that event's insert. It
has a single event source, with no grouping by name, no date ranges and no
retries.

## Model

| member | source | states |
|---|---|---|
| `Events.ParseEvents` | main.py:69-100 | the loop over the records, with the stored ids read once, returns or raises exactly what `Parsed` describes |
| `Events.ParsedErrorPersists` | main.py:73-95 | once an uncaught error is raised at some record, the later records do not change the outcome |
| `Events.ParsedOkIff` | main.py:73-97 | the call returns a list if and only if no record lacks `_id` and no new record lacks `room`; a record lacking `room` whose id is stored is skipped without error |
| `Events.ParsedErrorIsFirstFailure` | main.py:74-95 | an error names the first failing record: `MissingId` exactly when that record has no `_id`, and `MissingRoom` otherwise |
| `Events.FreshIsSubsequence` | main.py:73-79 | the new records, in input order, are exactly the records at the strictly increasing positions whose id is present and not stored |
| `Events.FreshEmptyIff` | main.py:73-79 | no record passes the "id not stored" test if and only if the filtered sequence is empty |
| `Events.ParsedIsFreshNormalised` | main.py:81-98 | on success, the k-th event comes from the k-th new record: `_id`, `title`, `room.title` and `url` are copied, and `when` is the converted start, or the raw start when the conversion fails |
| `Events.ParsedIdsAreNew` | main.py:71-79 | every returned event has an id that is not in the stored table |
| `Events.ParsedIdCount` | main.py:71-98 | for each id, a stored id yields no event and an unseen id yields one event per record carrying it, so duplicates within one batch are all kept |
| `Alerts.TraceShape` | main.py:104-106 | the calls are two per event, in list order: the alert with the exact message, then the insert of the same event |
| `Alerts.TraceInsertsEachEvent` | main.py:106 | the ids inserted are exactly the ids of the new events |
| `Alerts.ExecuteEvents` | main.py:103-107 | the loop issues `SendSms("NOMOFOMO ALERT! " + name + ", " + when + ", " + room)` then `Insert(e)` for each event in order, and the trace has length 2·n |
| `Pipeline.Run` | main.py:122-126 | an error from parsing aborts the run before any call; otherwise the run's calls are the alert-and-insert trace of the parsed events |
| `Pipeline.NewIdsAreReturned` | main.py:73-98 | every record that is new in a successful run has its id among the returned events |
| `Pipeline.NothingNewParsesEmpty` | main.py:73-79 | records that all have stored ids parse to the empty list |
| `Pipeline.RerunFindsNothing` | main.py:71-106 | after the inserts of a successful run, the same records parse to the empty list, so each event is alerted and stored once across runs when the next run reads back every stored id |

## Left out

- `get_events` (main.py:48-66): the HTTP request, the HTML search for `__NEXT_DATA__`, JSON decoding and `sys.exit` on failure. These are I/O and third-party parsing. The model starts from the decoded records.
- `randomize_user_agent` (main.py:43-45): it reads a file and picks at random.
- `send_sms` (main.py:110-119): the Twilio call. It catches its own errors and returns an empty id, and `execute_events` ignores the result. So each alert is an opaque `SendSms` action, and the insert follows whether or not the SMS went through.
- The Supabase `select` and `insert` calls (main.py:71, 106): the table is the set `known`, and an insert is an `Insert` action. An exception raised by an insert would abort the loop. That is not modelled.
- The time-zone conversion (main.py:83-86): pytz rules and `strftime` formatting are kept uninterpreted as the `convert` parameter.
- JSON values that are neither strings nor absent are not modelled, for example a numeric `title` or a `null` `_id`. Neither is a `room` value that is not an object.
- Logging and the module-level credential and client setup (main.py:14-31).
- Pipeline.RerunFindsNothing: assumes the next run's select of the `events` table (main.py:71) returns every stored row. A server-side cap on the rows one select returns, or another writer or deleter changing the table between runs, is not modelled.
