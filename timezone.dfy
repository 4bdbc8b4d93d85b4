/** Time zones (base/TimeZone.h, base/TimeZone.cc): a zone's data is a
    list of local-time kinds (offset from UTC, daylight-saving flag) and a
    list of transitions, each recording when, in UTC and in local time, a
    kind takes effect. Seconds (`time_t`) are unbounded integers here. */
module TimeZones {
  import opened Common

  /** `TimeZone::Data::Transition`. */
  datatype Transition = Transition(gmttime: int, localtime: int, localtimeIdx: int)

  /** `TimeZone::Data::LocalTime`. */
  datatype LocalTime = LocalTime(gmtOffset: int, isDst: bool, desigIdx: int)

  /** Transitions in ascending order of local time, which `upper_bound`
      expects. */
  predicate SortedByLocalTime(ts: seq<Transition>)
  {
    forall i, j :: 0 <= i < j < |ts| ==> ts[i].localtime <= ts[j].localtime
  }

  // ---------------------------------------------------------------------
  // `std::upper_bound` over the local times, comparing the sentry's local
  // time with `<`.

  /** The binary search of `upper_bound` on `ts[first..first + count]`:
      halve the range, step past the middle when the query is not below
      it. */
  function UpperBound(ts: seq<Transition>, t: int, first: nat, count: nat): (r: nat)
    requires first + count <= |ts|
    ensures first <= r <= first + count
    decreases count
  {
    if count == 0 then first
    else
      var step := count / 2;
      var it := first + step;
      if !(t < ts[it].localtime) then UpperBound(ts, t, it + 1, count - step - 1)
      else UpperBound(ts, t, first, step)
  }

  /** On sorted transitions, `upper_bound` splits the range into the
      transitions at or before `t` and those after it. */
  lemma UpperBoundSplits(ts: seq<Transition>, t: int, first: nat, count: nat)
    requires first + count <= |ts| && SortedByLocalTime(ts)
    ensures var r := UpperBound(ts, t, first, count);
      first <= r <= first + count &&
      (forall k :: first <= k < r ==> ts[k].localtime <= t) &&
      (forall k :: r <= k < first + count ==> t < ts[k].localtime)
  {
    UpperBoundBelow(ts, t, first, count);
    UpperBoundAbove(ts, t, first, count);
  }

  lemma {:induction false} UpperBoundBelow(ts: seq<Transition>, t: int, first: nat, count: nat)
    requires first + count <= |ts| && SortedByLocalTime(ts)
    ensures forall k :: first <= k < UpperBound(ts, t, first, count) ==> ts[k].localtime <= t
    decreases count
  {
    if count > 0 {
      var step := count / 2;
      var it := first + step;
      if !(t < ts[it].localtime) {
        UpperBoundBelow(ts, t, it + 1, count - step - 1);
        forall k | first <= k <= it
          ensures ts[k].localtime <= t
        {
          assert ts[k].localtime <= ts[it].localtime;
        }
      } else {
        UpperBoundBelow(ts, t, first, step);
      }
    }
  }

  lemma {:induction false} UpperBoundAbove(ts: seq<Transition>, t: int, first: nat, count: nat)
    requires first + count <= |ts| && SortedByLocalTime(ts)
    ensures forall k :: UpperBound(ts, t, first, count) <= k < first + count ==> t < ts[k].localtime
    decreases count
  {
    if count > 0 {
      var step := count / 2;
      var it := first + step;
      if !(t < ts[it].localtime) {
        UpperBoundAbove(ts, t, it + 1, count - step - 1);
      } else {
        UpperBoundAbove(ts, t, first, step);
        forall k | it <= k < first + count
          ensures t < ts[k].localtime
        {
          assert ts[it].localtime <= ts[k].localtime;
        }
      }
    }
  }

  /** Whatever the order, a query at or after the first local time lands
      past the first element: the search always compares with it before
      settling on it. */
  lemma {:induction false} UpperBoundPastFirst(ts: seq<Transition>, t: int, first: nat, count: nat)
    requires first + count <= |ts| && count >= 1 && ts[first].localtime <= t
    ensures UpperBound(ts, t, first, count) > first
    decreases count
  {
    var step := count / 2;
    var it := first + step;
    if !(t < ts[it].localtime) {
    } else {
      UpperBoundPastFirst(ts, t, first, step);
    }
  }

  // ---------------------------------------------------------------------
  // The zone data.

  /** `TimeZone::Data`. */
  class ZoneData {
    var transitions: seq<Transition>
    var localtimes: seq<LocalTime>
    var abbreviation: string
    var tzstring: string

    /** Every transition names an existing local-time kind, and its local
        time is its UTC time shifted by that kind's offset. */
    ghost predicate Valid()
      reads this
    {
      forall i :: 0 <= i < |transitions| ==>
        0 <= transitions[i].localtimeIdx < |localtimes| &&
        transitions[i].localtime == transitions[i].gmttime + localtimes[transitions[i].localtimeIdx].gmtOffset
    }

    constructor ()
      ensures Valid()
      ensures transitions == [] && localtimes == [] && abbreviation == [] && tzstring == []
    {
      transitions := [];
      localtimes := [];
      abbreviation := [];
      tzstring := [];
    }

    /** `addLocalTime`: appends a local-time kind. */
    method AddLocalTime(utcOffset: int, isDst: bool, desigIdx: int)
      requires Valid()
      modifies this
      ensures Valid()
      ensures localtimes == old(localtimes) + [LocalTime(utcOffset, isDst, desigIdx)]
      ensures transitions == old(transitions) && abbreviation == old(abbreviation) && tzstring == old(tzstring)
    {
      localtimes := localtimes + [LocalTime(utcOffset, isDst, desigIdx)];
    }

    /** `addTransition`: appends a transition whose local time is `when`
        shifted by the offset of kind `localIdx`. */
    method AddTransition(when: int, localIdx: int)
      requires Valid() && 0 <= localIdx < |localtimes|
      modifies this
      ensures Valid()
      ensures localtimes == old(localtimes) && abbreviation == old(abbreviation) && tzstring == old(tzstring)
      ensures transitions == old(transitions) + [Transition(when, when + localtimes[localIdx].gmtOffset, localIdx)]
    {
      var local := localtimes[localIdx];
      transitions := transitions + [Transition(when, when + local.gmtOffset, localIdx)];
    }

    /** `findLocalTime(const Transition&)`: the kind a recorded transition
        switches to, whose offset is the distance from its UTC time to its
        local time. */
    function LocalTimeOf(trans: Transition): (r: LocalTime)
      reads this
      requires Valid() && trans in transitions
      ensures r in localtimes
      ensures r.gmtOffset == trans.localtime - trans.gmttime
    {
      localtimes[trans.localtimeIdx]
    }

    /** `findLocalTime(time_t)` corrected: the sentry carries the query as
        its local time. Before the first transition, or with none, the
        first kind; otherwise the kind of the transition that
        `upper_bound` finds, one step back. */
    function FindLocalTimeCorrected(localtime: int): (r: LocalTime)
      reads this
      requires Valid() && |localtimes| > 0
      ensures transitions == [] || localtime < transitions[0].localtime ==> r == localtimes[0]
      ensures SortedByLocalTime(transitions) && transitions != [] && transitions[0].localtime <= localtime ==>
        exists k :: 0 <= k < |transitions| && transitions[k].localtime <= localtime &&
          (forall k' :: k < k' < |transitions| ==> localtime < transitions[k'].localtime) &&
          r == localtimes[transitions[k].localtimeIdx]
    {
      if transitions == [] || localtime < transitions[0].localtime then localtimes[0]
      else
        var i := UpperBound(transitions, localtime, 0, |transitions|);
        UpperBoundPastFirst(transitions, localtime, 0, |transitions|);
        assert SortedByLocalTime(transitions) ==>
          transitions[i - 1].localtime <= localtime &&
          forall k' :: i - 1 < k' < |transitions| ==> localtime < transitions[k'].localtime
        by {
          if SortedByLocalTime(transitions) {
            UpperBoundSplits(transitions, localtime, 0, |transitions|);
          }
        }
        localtimes[transitions[i - 1].localtimeIdx]
    }

    /** `findLocalTime(time_t)`: the sentry is built as
        `Transition(localtime, 0, 0)`, which stores the query as its UTC
        time and 0 as its local time, so `upper_bound` searches for local
        time 0 whatever the query. Past the first transition the answer
        is the corrected lookup of local time 0, or, when every transition
        lies after local time 0, the first transition's kind. */
    function FindLocalTime(localtime: int): (r: LocalTime)
      reads this
      requires Valid() && |localtimes| > 0
      ensures r in localtimes
      ensures transitions == [] || localtime < transitions[0].localtime ==> r == localtimes[0]
      ensures transitions != [] && transitions[0].localtime <= localtime && transitions[0].localtime <= 0 ==>
        r == FindLocalTimeCorrected(0)
      ensures SortedByLocalTime(transitions) && transitions != [] && 0 < transitions[0].localtime <= localtime ==>
        r == localtimes[transitions[0].localtimeIdx]
    {
      if transitions == [] || localtime < transitions[0].localtime then localtimes[0]
      else
        var i := UpperBound(transitions, 0, 0, |transitions|);
        assert transitions[0].localtime <= 0 ==> i > 0 by {
          if transitions[0].localtime <= 0 {
            UpperBoundPastFirst(transitions, 0, 0, |transitions|);
          }
        }
        assert SortedByLocalTime(transitions) && 0 < transitions[0].localtime ==> i == 0 by {
          if SortedByLocalTime(transitions) && 0 < transitions[0].localtime {
            UpperBoundSplits(transitions, 0, 0, |transitions|);
          }
        }
        if i != 0 then localtimes[transitions[i - 1].localtimeIdx]
        else localtimes[transitions[0].localtimeIdx]
    }

    /** Every query at or after the first transition gets the
        same answer: the query takes no part in the search. */
    lemma FindLocalTimeIgnoresQuery(t1: int, t2: int)
      requires Valid() && |localtimes| > 0 && transitions != []
      requires transitions[0].localtime <= t1 && transitions[0].localtime <= t2
      ensures FindLocalTime(t1) == FindLocalTime(t2)
    {
    }
  }

  /** Two kinds, standard and daylight time, and transitions into each at
      local times 100 and 200. At local time 250 the zone is in daylight
      time, but the search, looking for local time 0, stops
      before the first transition and answers with its kind, standard
      time. */
  method SentryKeyAsWritten() returns (d: ZoneData)
    ensures d.Valid() && |d.localtimes| == 2 && d.localtimes[0] != d.localtimes[1]
    ensures SortedByLocalTime(d.transitions)
    ensures d.FindLocalTimeCorrected(250) == d.localtimes[1]
    ensures d.FindLocalTime(250) == d.localtimes[0]
  {
    d := new ZoneData();
    d.AddLocalTime(0, false, 0);
    d.AddLocalTime(0, true, 0);
    d.AddTransition(100, 0);
    d.AddTransition(200, 1);
    assert d.transitions == [Transition(100, 100, 0), Transition(200, 200, 1)];
    assert UpperBound(d.transitions, 0, 0, 1) == 0;
  }

  // ---------------------------------------------------------------------
  // The zone.

  /** The zones the name constructor knows, with their offsets in seconds
      east of UTC. */
  const Zones: seq<(string, int)> := [
    ("Asia/Shanghai", 8 * 3600),
    ("Asia/Tokyo", 9 * 3600),
    ("America/New_York", -5 * 3600),
    ("Europe/London", 0),
    ("UTC", 0)
  ]

  /** The offset of the first zone in `zones` called `name`. */
  function ZoneOffset(zones: seq<(string, int)>, name: string): (r: Option<int>)
    ensures r.Some? <==> exists i :: 0 <= i < |zones| && zones[i].0 == name
    ensures r.Some? ==> exists i :: (0 <= i < |zones| && zones[i] == (name, r.value) &&
                                     forall j :: 0 <= j < i ==> zones[j].0 != name)
  {
    if zones == [] then None
    else if zones[0].0 == name then Some(zones[0].1)
    else
      var r := ZoneOffset(zones[1..], name);
      if r.Some? then
        var i :| 1 <= i + 1 < |zones| + 1 && 0 <= i < |zones[1..]| && zones[1..][i] == (name, r.value) &&
          forall j :: 0 <= j < i ==> zones[1..][j].0 != name;
        assert zones[i + 1] == (name, r.value);
        r
      else r
  }

  /** `TimeZone`: a shared pointer to its data, empty when invalid. */
  class TimeZone {
    var data: Option<ZoneData>

    /** `valid()`. */
    predicate IsValid()
      reads this
    {
      data.Some?
    }

    /** The default constructor: an invalid zone. */
    constructor ()
      ensures !IsValid()
    {
      data := None;
    }

    /** `TimeZone(const char* zonefile)`: looks the name up in the table;
        a known name gives one local-time kind with that zone's offset and
        no transitions, an unknown one leaves the zone invalid. */
    constructor Named(zonefile: string)
      ensures IsValid() <==> ZoneOffset(Zones, zonefile).Some?
      ensures IsValid() ==> (fresh(data.value) && data.value.Valid() &&
                             data.value.localtimes == [LocalTime(ZoneOffset(Zones, zonefile).value, false, 0)] &&
                             data.value.transitions == [] && data.value.tzstring == zonefile)
    {
      data := None;
      new;
      var i := 0;
      while i < |Zones|
        invariant 0 <= i <= |Zones|
        invariant data == None
        invariant ZoneOffset(Zones, zonefile) == ZoneOffset(Zones[i..], zonefile)
      {
        if zonefile == Zones[i].0 {
          var d := new ZoneData();
          d.AddLocalTime(Zones[i].1, false, 0);
          d.tzstring := Zones[i].0;
          data := Some(d);
          break;
        }
        assert Zones[i..][1..] == Zones[i + 1..];
        i := i + 1;
      }
    }

    /** `TimeZone(int eastOfUtc, const char* name)`: always valid, with one
        local-time kind of that offset and no transitions. */
    constructor WithOffset(eastOfUtc: int, name: string)
      ensures IsValid() && fresh(data.value) && data.value.Valid()
      ensures data.value.localtimes == [LocalTime(eastOfUtc, false, 0)]
      ensures data.value.transitions == [] && data.value.tzstring == name
    {
      var d := new ZoneData();
      d.AddLocalTime(eastOfUtc, false, 0);
      d.tzstring := name;
      data := Some(d);
    }
  }

  /** The table recognises exactly its five zone names. */
  lemma KnownZones(name: string)
    ensures ZoneOffset(Zones, name).Some? <==>
      name in {"Asia/Shanghai", "Asia/Tokyo", "America/New_York", "Europe/London", "UTC"}
    ensures ZoneOffset(Zones, "Asia/Shanghai") == Some(28800)
    ensures ZoneOffset(Zones, "Asia/Tokyo") == Some(32400)
    ensures ZoneOffset(Zones, "America/New_York") == Some(-18000)
    ensures ZoneOffset(Zones, "Europe/London") == Some(0)
    ensures ZoneOffset(Zones, "UTC") == Some(0)
  {
    assert Zones[0].0 == "Asia/Shanghai" && Zones[1].0 == "Asia/Tokyo" && Zones[2].0 == "America/New_York";
    assert Zones[3].0 == "Europe/London" && Zones[4].0 == "UTC";
  }
}
