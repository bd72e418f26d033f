/**
 * The dedup-and-normalise step of the scraper (parse_events in main.py):
 * raw event records from the listing are filtered against the ids already
 * stored in the events table and turned into Event records.
 */
module Events {
  import opened Wrappers

  /** The nested room object of a raw record; its title may be missing. */
  datatype Room = Room(title: Option<string>)

  /**
   * One raw record of the listing, as decoded JSON. A field that is absent
   * is None.
   */
  datatype RawEvent = RawEvent(
    id: Option<string>,
    title: Option<string>,
    start: Option<string>,
    room: Option<Room>,
    url: Option<string>)

  /**
   * The normalised event. Only the id is guaranteed to be a string: the other
   * fields are copied with dict.get and are None when the record lacks them.
   */
  datatype Event = Event(
    id: string,
    name: Option<string>,
    when: Option<string>,
    room: Option<string>,
    url: Option<string>)

  /**
   * The uncaught errors that abort parse_events, with the position of the
   * offending record: a record without "_id" (KeyError) and a new record
   * without a "room" object (attribute lookup on None).
   */
  datatype ParseError = MissingId(index: nat) | MissingRoom(index: nat)

  /**
   * The conversion of an ISO-8601 start time to a US/Central
   * "%m/%d/%Y %I:%M %p" string: Some(text) on success, None when it raises.
   */
  type Converter = string -> Option<string>

  /** A record whose id is present and not among the stored ids. */
  predicate IsNew(r: RawEvent, known: set<string>)
  {
    r.id.Some? && r.id.value !in known
  }

  /** A record that makes parse_events raise when the loop reaches it. */
  predicate Fails(r: RawEvent, known: set<string>)
  {
    r.id.None? || (IsNew(r, known) && r.room.None?)
  }

  /**
   * The "when" field: the converted start time, or the raw start value when
   * the conversion raises (a missing start raises too, and stays None).
   */
  function LocalTime(start: Option<string>, convert: Converter): Option<string>
  {
    match start
    case None => None
    case Some(s) =>
      match convert(s)
      case Some(t) => Some(t)
      case None => start
  }

  /** The Event built from a new record that has a room object. */
  function Normalise(r: RawEvent, convert: Converter): Event
    requires r.id.Some? && r.room.Some?
  {
    Event(r.id.value, r.title, LocalTime(r.start, convert), r.room.value.title, r.url)
  }

  /** One iteration of the loop, at position i, after the list acc was built. */
  function Step(acc: seq<Event>, r: RawEvent, i: nat, known: set<string>, convert: Converter)
    : Result<seq<Event>, ParseError>
  {
    if r.id.None? then Err(MissingId(i))
    else if r.id.value in known then Ok(acc)
    else if r.room.None? then Err(MissingRoom(i))
    else Ok(acc + [Normalise(r, convert)])
  }

  /** What parse_events returns or raises, the loop unrolled from the end. */
  function Parsed(raw: seq<RawEvent>, known: set<string>, convert: Converter)
    : Result<seq<Event>, ParseError>
    decreases |raw|
  {
    if raw == [] then Ok([])
    else
      match Parsed(raw[..|raw| - 1], known, convert)
      case Err(e) => Err(e)
      case Ok(acc) => Step(acc, raw[|raw| - 1], |raw| - 1, known, convert)
  }

  /** The records that are new, in input order (a reference filter). */
  function Fresh(raw: seq<RawEvent>, known: set<string>): seq<RawEvent>
    decreases |raw|
  {
    if raw == [] then []
    else
      Fresh(raw[..|raw| - 1], known)
      + (if IsNew(raw[|raw| - 1], known) then [raw[|raw| - 1]] else [])
  }

  /** The positions of the new records, in increasing order. */
  function NewPositions(raw: seq<RawEvent>, known: set<string>): seq<nat>
    decreases |raw|
  {
    if raw == [] then []
    else
      NewPositions(raw[..|raw| - 1], known)
      + (if IsNew(raw[|raw| - 1], known) then [|raw| - 1] else [])
  }

  /** The number of events with the given id. */
  function CountId(evs: seq<Event>, x: string): nat
    decreases |evs|
  {
    if evs == [] then 0
    else CountId(evs[..|evs| - 1], x) + (if evs[|evs| - 1].id == x then 1 else 0)
  }

  /** The number of raw records with the given id. */
  function CountRawId(raw: seq<RawEvent>, x: string): nat
    decreases |raw|
  {
    if raw == [] then 0
    else CountRawId(raw[..|raw| - 1], x) + (if raw[|raw| - 1].id == Some(x) then 1 else 0)
  }

  /**
   * parse_events: the stored ids are read once, before the loop; each record
   * whose id is stored is skipped, every other one becomes an Event.
   */
  method ParseEvents(raw: seq<RawEvent>, known: set<string>, convert: Converter)
    returns (r: Result<seq<Event>, ParseError>)
    ensures r == Parsed(raw, known, convert)
  {
    var newEvents: seq<Event> := [];
    for i := 0 to |raw|
      invariant Parsed(raw[..i], known, convert) == Ok(newEvents)
    {
      assert raw[..i + 1][..i] == raw[..i];
      var event := raw[i];
      if event.id.None? {
        r := Err(MissingId(i));
        ParsedErrorPersists(raw, i + 1, known, convert);
        return;
      }
      var id := event.id.value;
      if id in known {
        continue;
      }
      var when := event.start;
      if when.Some? {
        var converted := convert(when.value);
        if converted.Some? {
          when := converted;
        }
      }
      if event.room.None? {
        r := Err(MissingRoom(i));
        ParsedErrorPersists(raw, i + 1, known, convert);
        return;
      }
      newEvents := newEvents + [Event(id, event.title, when, event.room.value.title, event.url)];
    }
    assert raw[..|raw|] == raw;
    r := Ok(newEvents);
  }

  /** Once a prefix raises, the whole input raises the same error. */
  lemma {:induction false} ParsedErrorPersists(raw: seq<RawEvent>, n: nat, known: set<string>, convert: Converter)
    requires n <= |raw|
    requires Parsed(raw[..n], known, convert).Err?
    ensures Parsed(raw, known, convert) == Parsed(raw[..n], known, convert)
    decreases |raw| - n
  {
    if n == |raw| {
      assert raw[..n] == raw;
    } else {
      var init := raw[..|raw| - 1];
      assert init[..n] == raw[..n];
      ParsedErrorPersists(init, n, known, convert);
    }
  }

  /** parse_events returns a list exactly when no record makes it raise. */
  lemma {:induction false} ParsedOkIff(raw: seq<RawEvent>, known: set<string>, convert: Converter)
    ensures Parsed(raw, known, convert).Ok?
        <==> forall i :: 0 <= i < |raw| ==> !Fails(raw[i], known)
    decreases |raw|
  {
    if raw != [] {
      var init := raw[..|raw| - 1];
      ParsedOkIff(init, known, convert);
      assert forall i :: 0 <= i < |init| ==> init[i] == raw[i];
    }
  }

  /**
   * When parse_events raises, the error names the first record that fails,
   * and says why it fails.
   */
  lemma {:induction false} ParsedErrorIsFirstFailure(raw: seq<RawEvent>, known: set<string>, convert: Converter)
    requires Parsed(raw, known, convert).Err?
    ensures var e := Parsed(raw, known, convert).error;
      && e.index < |raw|
      && Fails(raw[e.index], known)
      && (e.MissingId? <==> raw[e.index].id.None?)
      && (forall j :: 0 <= j < e.index ==> !Fails(raw[j], known))
    decreases |raw|
  {
    var init := raw[..|raw| - 1];
    assert forall i :: 0 <= i < |init| ==> init[i] == raw[i];
    if Parsed(init, known, convert).Err? {
      ParsedErrorIsFirstFailure(init, known, convert);
    } else {
      ParsedOkIff(init, known, convert);
    }
  }

  /**
   * Fresh is the subsequence of the input at the positions of the new
   * records: order is kept, nothing is dropped, nothing is invented.
   */
  lemma {:induction false} FreshIsSubsequence(raw: seq<RawEvent>, known: set<string>)
    ensures var p, f := NewPositions(raw, known), Fresh(raw, known);
      && |p| == |f|
      && (forall k :: 0 <= k < |p| ==> p[k] < |raw| && f[k] == raw[p[k]])
      && (forall k, l :: 0 <= k < l < |p| ==> p[k] < p[l])
      && (forall i :: 0 <= i < |raw| ==> (IsNew(raw[i], known) <==> i in p))
    decreases |raw|
  {
    if raw != [] {
      var init := raw[..|raw| - 1];
      FreshIsSubsequence(init, known);
      assert forall i :: 0 <= i < |init| ==> init[i] == raw[i];
    }
  }

  /** No record is new exactly when the filtered sequence is empty. */
  lemma {:induction false} FreshEmptyIff(raw: seq<RawEvent>, known: set<string>)
    ensures Fresh(raw, known) == [] <==> forall i :: 0 <= i < |raw| ==> !IsNew(raw[i], known)
    decreases |raw|
  {
    if raw != [] {
      var init := raw[..|raw| - 1];
      FreshEmptyIff(init, known);
      assert forall i :: 0 <= i < |init| ==> init[i] == raw[i];
    }
  }

  /**
   * On success, the events are the new records, in input order, each with
   * its fields copied and its start time converted, or kept as it was when
   * the conversion fails.
   */
  lemma {:induction false} ParsedIsFreshNormalised(raw: seq<RawEvent>, known: set<string>, convert: Converter)
    requires Parsed(raw, known, convert).Ok?
    ensures var evs, f := Parsed(raw, known, convert).value, Fresh(raw, known);
      && |evs| == |f|
      && forall k :: 0 <= k < |evs| ==>
        && f[k].id == Some(evs[k].id)
        && evs[k].name == f[k].title
        && f[k].room.Some? && evs[k].room == f[k].room.value.title
        && evs[k].url == f[k].url
        && (f[k].start.Some? && convert(f[k].start.value).Some? ==>
              evs[k].when == convert(f[k].start.value))
        && (f[k].start.None? || convert(f[k].start.value).None? ==>
              evs[k].when == f[k].start)
    decreases |raw|
  {
    if raw != [] {
      var init := raw[..|raw| - 1];
      assert Parsed(init, known, convert).Ok?;
      ParsedIsFreshNormalised(init, known, convert);
    }
  }

  /** Every event returned has an id that was not stored before. */
  lemma {:induction false} ParsedIdsAreNew(raw: seq<RawEvent>, known: set<string>, convert: Converter)
    requires Parsed(raw, known, convert).Ok?
    ensures forall e :: e in Parsed(raw, known, convert).value ==> e.id !in known
  {
    var evs, f := Parsed(raw, known, convert).value, Fresh(raw, known);
    var p := NewPositions(raw, known);
    ParsedIsFreshNormalised(raw, known, convert);
    FreshIsSubsequence(raw, known);
    forall e | e in evs
      ensures e.id !in known
    {
      var k :| 0 <= k < |evs| && evs[k] == e;
      assert IsNew(raw[p[k]], known);
    }
  }

  /**
   * Counting by id: an id already stored yields no event, and any other id
   * yields one event per record carrying it, so two records with the same
   * unseen id in one batch both come out.
   */
  lemma {:induction false} ParsedIdCount(raw: seq<RawEvent>, known: set<string>, convert: Converter, x: string)
    requires Parsed(raw, known, convert).Ok?
    ensures CountId(Parsed(raw, known, convert).value, x)
         == if x in known then 0 else CountRawId(raw, x)
    decreases |raw|
  {
    if raw != [] {
      var init := raw[..|raw| - 1];
      assert Parsed(init, known, convert).Ok?;
      ParsedIdCount(init, known, convert, x);
      var acc := Parsed(init, known, convert).value;
      var evs := Parsed(raw, known, convert).value;
      if evs != acc {
        assert evs[..|evs| - 1] == acc;
      }
    }
  }
}
