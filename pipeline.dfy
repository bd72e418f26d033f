/**
 * One scheduled run (run in main.py): the fetched records are parsed against
 * the stored ids and every new event is alerted and inserted.
 */
module Pipeline {
  import opened Wrappers
  import opened Events
  import opened Alerts

  /**
   * run, from the fetched records on: an error raised by parse_events aborts
   * the run before any call is issued; otherwise the trace of execute_events.
   */
  method Run(raw: seq<RawEvent>, known: set<string>, convert: Converter)
    returns (r: Result<seq<Action>, ParseError>)
    ensures Parsed(raw, known, convert).Err? ==> r == Err(Parsed(raw, known, convert).error)
    ensures Parsed(raw, known, convert).Ok? ==> r == Ok(Trace(Parsed(raw, known, convert).value))
  {
    var parsed := ParseEvents(raw, known, convert);
    match parsed
    case Err(e) =>
      r := Err(e);
    case Ok(newEvents) =>
      var trace := ExecuteEvents(newEvents);
      r := Ok(trace);
  }

  /** Every record that was new in a run has its id among the events returned. */
  lemma {:induction false} NewIdsAreReturned(raw: seq<RawEvent>, known: set<string>, convert: Converter)
    requires Parsed(raw, known, convert).Ok?
    ensures forall i :: 0 <= i < |raw| && IsNew(raw[i], known) ==>
      exists e :: e in Parsed(raw, known, convert).value && raw[i].id == Some(e.id)
  {
    var evs := Parsed(raw, known, convert).value;
    ParsedIsFreshNormalised(raw, known, convert);
    FreshIsSubsequence(raw, known);
    var p := NewPositions(raw, known);
    forall i | 0 <= i < |raw| && IsNew(raw[i], known)
      ensures exists e :: e in evs && raw[i].id == Some(e.id)
    {
      var k :| 0 <= k < |p| && p[k] == i;
      assert evs[k] in evs;
    }
  }

  /** Parsing records none of which is new and none of which fails yields nothing. */
  lemma {:induction false} NothingNewParsesEmpty(raw: seq<RawEvent>, known: set<string>, convert: Converter)
    requires forall i :: 0 <= i < |raw| ==> raw[i].id.Some? && !IsNew(raw[i], known)
    ensures Parsed(raw, known, convert) == Ok([])
  {
    ParsedOkIff(raw, known, convert);
    ParsedIsFreshNormalised(raw, known, convert);
    FreshEmptyIff(raw, known);
  }

  /**
   * A second run on the same records, once the inserts of the first are in
   * the table, finds nothing new: each event is alerted and stored once.
   */
  lemma {:induction false} RerunFindsNothing(raw: seq<RawEvent>, known: set<string>, convert: Converter)
    requires Parsed(raw, known, convert).Ok?
    ensures var stored := known + InsertedIds(Trace(Parsed(raw, known, convert).value));
      Parsed(raw, stored, convert) == Ok([])
  {
    var evs := Parsed(raw, known, convert).value;
    var stored := known + InsertedIds(Trace(evs));
    TraceInsertsEachEvent(evs);
    ParsedOkIff(raw, known, convert);
    NewIdsAreReturned(raw, known, convert);
    assert forall i :: 0 <= i < |raw| ==> raw[i].id.Some? && !IsNew(raw[i], stored);
    NothingNewParsesEmpty(raw, stored, convert);
  }
}
