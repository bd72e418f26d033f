/**
 * The alert loop (execute_events in main.py): for each new event, one SMS
 * with a fixed message format, then one insert of the event into the events
 * table. Both calls are recorded as actions of a trace, in the order issued.
 */
module Alerts {
  import opened Wrappers
  import opened Events

  /** An outbound call: an SMS with its body, or an insert of one event row. */
  datatype Action = SendSms(body: string) | Insert(row: Event)

  /** How a Python f-string renders a field that is a string or None. */
  function Show(v: Option<string>): string
  {
    match v
    case Some(s) => s
    case None => "None"
  }

  /** The alert text "NOMOFOMO ALERT! <name>, <when>, <room>". */
  function AlertBody(e: Event): string
  {
    "NOMOFOMO ALERT! " + Show(e.name) + ", " + Show(e.when) + ", " + Show(e.room)
  }

  /** The calls execute_events issues, the loop unrolled from the end. */
  function Trace(evs: seq<Event>): seq<Action>
    decreases |evs|
  {
    if evs == [] then []
    else Trace(evs[..|evs| - 1]) + [SendSms(AlertBody(evs[|evs| - 1])), Insert(evs[|evs| - 1])]
  }

  /** The ids of the rows inserted by a trace. */
  function InsertedIds(trace: seq<Action>): set<string>
  {
    set a | a in trace && a.Insert? :: a.row.id
  }

  /**
   * The trace holds two calls per event, in list order: the alert for the
   * event, then the insert of that same event.
   */
  lemma {:induction false} TraceShape(evs: seq<Event>)
    ensures |Trace(evs)| == 2 * |evs|
    ensures forall k :: 0 <= k < |evs| ==>
      Trace(evs)[2 * k] == SendSms(AlertBody(evs[k])) && Trace(evs)[2 * k + 1] == Insert(evs[k])
    decreases |evs|
  {
    if evs != [] {
      var init := evs[..|evs| - 1];
      TraceShape(init);
      assert forall k :: 0 <= k < |init| ==> init[k] == evs[k];
    }
  }

  /** Exactly the ids of the events are inserted. */
  lemma TraceInsertsEachEvent(evs: seq<Event>)
    ensures InsertedIds(Trace(evs)) == set e | e in evs :: e.id
  {
    TraceShape(evs);
    var t := Trace(evs);
    forall x | x in InsertedIds(t)
      ensures exists e :: e in evs && e.id == x
    {
      var a :| a in t && a.Insert? && a.row.id == x;
      var j :| 0 <= j < |t| && t[j] == a;
      assert t[2 * (j / 2)].SendSms?;
      assert a == t[2 * (j / 2) + 1];
      assert evs[j / 2] in evs;
    }
    forall e | e in evs
      ensures e.id in InsertedIds(t)
    {
      var k :| 0 <= k < |evs| && evs[k] == e;
      assert t[2 * k + 1] in t;
    }
  }

  /**
   * execute_events: for each new event in order, send the alert (its result
   * is ignored) and insert the event.
   */
  method ExecuteEvents(newEvents: seq<Event>) returns (trace: seq<Action>)
    ensures |trace| == 2 * |newEvents|
    ensures forall k :: 0 <= k < |newEvents| ==>
      trace[2 * k] == SendSms(AlertBody(newEvents[k])) && trace[2 * k + 1] == Insert(newEvents[k])
    ensures trace == Trace(newEvents)
  {
    trace := [];
    for i := 0 to |newEvents|
      invariant trace == Trace(newEvents[..i])
    {
      assert newEvents[..i + 1][..i] == newEvents[..i];
      var e := newEvents[i];
      trace := trace + [SendSms(AlertBody(e))];
      trace := trace + [Insert(e)];
    }
    assert newEvents[..|newEvents|] == newEvents;
    TraceShape(newEvents);
  }
}
