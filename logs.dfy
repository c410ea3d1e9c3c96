/** Transaction responses and their event logs, and the list operations the matchers run
    over them (`filter`, `map`, `find`). */
module Logs {
  import opened Wrappers
  import opened JsValues

  /** A log entry's decoded arguments, by name or index. */
  type Args = map<string, JsValue>

  /** One emitted event: its name (absent for an entry that carries none), the `logIndex`
      field the execution environment assigned to it, and its arguments. */
  datatype EventLog = EventLog(event: Option<string>, logIndex: int, args: Args)

  /** The subject of an assertion: `value` is the subject as the structural guard sees it,
      `logs` the entries of its `logs` array, read only once the guard has accepted it. */
  datatype Subject = Subject(value: JsValue, logs: seq<EventLog>)

  /** `!isNil(log.event) && log.event === name`. */
  predicate Named(log: EventLog, name: string)
  {
    log.event == Some(name)
  }

  /** The array positions of the entries named `name`, in ascending order. */
  function MatchingPositions(logs: seq<EventLog>, name: string): (ps: seq<int>)
    ensures forall k :: 0 <= k < |ps| ==> 0 <= ps[k] < |logs| && Named(logs[ps[k]], name)
    ensures forall p :: 0 <= p < |logs| && Named(logs[p], name) ==> p in ps
    ensures forall k, l :: 0 <= k < l < |ps| ==> ps[k] < ps[l]
  {
    if |logs| == 0 then []
    else
      MatchingPositions(logs[..|logs| - 1], name)
        + (if Named(logs[|logs| - 1], name) then [|logs| - 1] else [])
  }

  /** `logs.filter(named).map(log => log.logIndex)`: the `logIndex` fields of the named entries. */
  function MatchedLogIndexList(logs: seq<EventLog>, name: string): seq<int>
  {
    if |logs| == 0 then []
    else
      MatchedLogIndexList(logs[..|logs| - 1], name)
        + (if Named(logs[|logs| - 1], name) then [logs[|logs| - 1].logIndex] else [])
  }

  /** `logs.filter(named)`: the named entries themselves. */
  function MatchingLogs(logs: seq<EventLog>, name: string): seq<EventLog>
  {
    if |logs| == 0 then []
    else
      MatchingLogs(logs[..|logs| - 1], name)
        + (if Named(logs[|logs| - 1], name) then [logs[|logs| - 1]] else [])
  }

  /** Both filters keep exactly the named entries, in log order: the k-th element of each
      comes from the k-th matching position. */
  lemma {:induction false} FiltersFollowPositions(logs: seq<EventLog>, name: string)
    ensures |MatchedLogIndexList(logs, name)| == |MatchingPositions(logs, name)|
    ensures |MatchingLogs(logs, name)| == |MatchingPositions(logs, name)|
    ensures forall k :: 0 <= k < |MatchingPositions(logs, name)| ==>
              MatchedLogIndexList(logs, name)[k] == logs[MatchingPositions(logs, name)[k]].logIndex
              && MatchingLogs(logs, name)[k] == logs[MatchingPositions(logs, name)[k]]
  {
    if |logs| > 0 {
      var init := logs[..|logs| - 1];
      FiltersFollowPositions(init, name);
      forall k | 0 <= k < |MatchingPositions(init, name)|
        ensures logs[MatchingPositions(init, name)[k]] == init[MatchingPositions(init, name)[k]]
      {
      }
    }
  }

  /** Some entry carries the name exactly when the filters are non-empty. */
  lemma MatchedIffNamed(logs: seq<EventLog>, name: string)
    ensures |MatchedLogIndexList(logs, name)| > 0 <==> exists i :: 0 <= i < |logs| && Named(logs[i], name)
    ensures |MatchingLogs(logs, name)| > 0 <==> exists i :: 0 <= i < |logs| && Named(logs[i], name)
  {
    FiltersFollowPositions(logs, name);
    var ps := MatchingPositions(logs, name);
    if exists i :: 0 <= i < |logs| && Named(logs[i], name) {
      var i :| 0 <= i < |logs| && Named(logs[i], name);
      assert i in ps;
    }
    if |ps| > 0 {
      assert Named(logs[ps[0]], name);
    }
  }

  /** `logs.find(log => !isNil(log.event))`, reduced to the name it carries. */
  function FirstEmittedEvent(logs: seq<EventLog>): (r: Option<string>)
    ensures r.Some? <==> exists i :: 0 <= i < |logs| && logs[i].event.Some?
    ensures r.Some? ==> exists i :: 0 <= i < |logs| && logs[i].event == r
                           && forall j :: 0 <= j < i ==> logs[j].event.None?
  {
    if |logs| == 0 then None
    else if logs[0].event.Some? then logs[0].event
    else
      var r := FirstEmittedEvent(logs[1..]);
      assert r.Some? ==> exists i :: 0 < i < |logs| && logs[i].event == r
                           && forall j :: 0 <= j < i ==> logs[j].event.None? by {
        if r.Some? {
          var i :| 0 <= i < |logs[1..]| && logs[1..][i].event == r
                   && forall j :: 0 <= j < i ==> logs[1..][j].event.None?;
          assert logs[i + 1].event == r;
          forall j | 0 <= j < i + 1 ensures logs[j].event.None? {
            if j > 0 { assert logs[j] == logs[1..][j - 1]; }
          }
        }
      }
      assert (exists i :: 0 <= i < |logs| && logs[i].event.Some?)
         ==> exists i :: 0 <= i < |logs[1..]| && logs[1..][i].event.Some? by {
        if exists i :: 0 <= i < |logs| && logs[i].event.Some? {
          var i :| 0 <= i < |logs| && logs[i].event.Some?;
          assert logs[1..][i - 1] == logs[i];
        }
      }
      r
  }

  /** Every entry's `logIndex` equals its position in the array: the case of a transaction
      mined alone in its block, which is how a local development chain mines. */
  predicate LogIndicesArePositions(logs: seq<EventLog>)
  {
    forall i :: 0 <= i < |logs| ==> logs[i].logIndex == i
  }

  /** When `logIndex` values are array positions, the stored `logIndex` list is the list of
      matching positions. */
  lemma LogIndexListIsPositions(logs: seq<EventLog>, name: string)
    requires LogIndicesArePositions(logs)
    ensures MatchedLogIndexList(logs, name) == MatchingPositions(logs, name)
  {
    FiltersFollowPositions(logs, name);
  }
}
