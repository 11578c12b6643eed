/**
  The route replayer: which services get a publish socket, the per-segment log
  and frame readers, the time-keyed event list trimmed to a window around the
  current time, seeking by seconds, and one pacing and dispatch step of the
  stream loop over integer nanosecond times.
*/
module ReplayStream {
  import opened Common
  import Text

  // ---------------------------------------------------------------------------
  // Publish sockets

  /**
    A service is wanted unless it is blocked, or an allow list is given (its
    first entry is not empty) and does not name it.
  */
  predicate Wanted(name: string, allow: seq<string>, block: seq<string>)
    requires |allow| >= 1
  {
    !((allow[0] != "" && name !in allow) || name in block)
  }

  /**
    The socket set as the constructor builds it: nothing at all when a
    SubMaster is given, otherwise every wanted service whose socket could be
    created.
  */
  function SocketsAsWritten(services: seq<string>, allow: seq<string>, block: seq<string>,
                            creatable: set<string>, hasSubMaster: bool): (socks: set<string>)
    requires |allow| >= 1
    ensures hasSubMaster ==> socks == {}
    ensures forall name :: name in socks ==> name in services && Wanted(name, allow, block)
  {
    if hasSubMaster then {}
    else set name | name in services && Wanted(name, allow, block) && name in creatable
  }

  /**
    The socket set built over the services: every wanted service, and without a
    SubMaster only those whose publish socket could be created.
  */
  method OpenSockets(services: seq<string>, allow: seq<string>, block: seq<string>,
                     creatable: set<string>, hasSubMaster: bool) returns (socks: set<string>)
    requires |allow| >= 1
    ensures forall name :: name in socks <==>
      name in services && Wanted(name, allow, block) && (hasSubMaster || name in creatable)
  {
    socks := {};
    var k := 0;
    while k < |services|
      invariant 0 <= k <= |services|
      invariant forall name :: name in socks <==>
        name in services[..k] && Wanted(name, allow, block) && (hasSubMaster || name in creatable)
    {
      var name := services[k];
      if Wanted(name, allow, block) && (hasSubMaster || name in creatable) {
        socks := socks + {name};
      }
      assert services[..k + 1] == services[..k] + [name];
      k := k + 1;
    }
    assert services[..k] == services;
  }

  /** Without a SubMaster the loop builds exactly the constructor's socket set. */
  lemma OpenSocketsAgreesWithoutSubMaster(services: seq<string>, allow: seq<string>, block: seq<string>,
                                          creatable: set<string>, socks: set<string>)
    requires |allow| >= 1
    requires forall name :: name in socks <==>
      name in services && Wanted(name, allow, block) && name in creatable
    ensures socks == SocketsAsWritten(services, allow, block, creatable, false)
  {
  }

  // ---------------------------------------------------------------------------
  // Events and dispatch

  /** A logged event: its log time in nanoseconds, its type, and for camera states the frame id. */
  datatype Event = Event(time: int, typ: string, frameId: Option<int>)

  /** What one event leads to: a socket send, a SubMaster update, and the frame pushed, if any. */
  datatype Outcome = Outcome(publish: bool, toSubMaster: bool, frame: Option<(int, int)>)

  /**
    The frame to push for an event: road camera states whose frame id the index
    knows, when the segment holding the frame has a reader.
  */
  function FrameFor(e: Event, eidx: map<int, (int, int)>, frs: map<int, string>): Option<(int, int)> {
    if e.typ == "roadCameraState" && e.frameId.Some? && e.frameId.value in eidx &&
       eidx[e.frameId.value].0 in frs
    then Some(eidx[e.frameId.value])
    else None
  }

  /** Only events whose type has a socket are handled at all. */
  function Dispatch(e: Event, socks: set<string>, hasSubMaster: bool,
                    eidx: map<int, (int, int)>, frs: map<int, string>): Outcome
  {
    if e.typ !in socks then Outcome(false, false, None)
    else Outcome(!hasSubMaster, hasSubMaster, FrameFor(e, eidx, frs))
  }

  /**
    An event goes out iff its type has a socket, to the socket without a
    SubMaster and to the SubMaster otherwise; a frame is pushed exactly for a
    road camera state whose frame is indexed in a segment with a frame reader.
  */
  lemma DispatchRules(e: Event, socks: set<string>, hasSubMaster: bool,
                      eidx: map<int, (int, int)>, frs: map<int, string>)
    ensures var o := Dispatch(e, socks, hasSubMaster, eidx, frs);
      (o.publish || o.toSubMaster <==> e.typ in socks) &&
      !(o.publish && o.toSubMaster) &&
      (o.toSubMaster ==> hasSubMaster) &&
      (o.frame.Some? <==>
        e.typ in socks && e.typ == "roadCameraState" && e.frameId.Some? &&
        e.frameId.value in eidx && eidx[e.frameId.value].0 in frs) &&
      (o.frame.Some? ==> o.frame.value.0 in frs)
  {
  }

  /** As written, a replay driven by a SubMaster never hands it an event. */
  lemma SubMasterReceivesNothing(e: Event, services: seq<string>, allow: seq<string>, block: seq<string>,
                                 creatable: set<string>, eidx: map<int, (int, int)>, frs: map<int, string>)
    requires |allow| >= 1
    ensures !Dispatch(e, SocketsAsWritten(services, allow, block, creatable, true), true, eidx, frs).toSubMaster
  {
  }

  /** With the sockets from `OpenSockets`, a SubMaster receives every event of a wanted service. */
  lemma SubMasterReceivesWanted(e: Event, services: seq<string>, allow: seq<string>, block: seq<string>,
                                socks: set<string>, eidx: map<int, (int, int)>, frs: map<int, string>)
    requires |allow| >= 1
    requires forall name :: name in socks <==> name in services && Wanted(name, allow, block)
    ensures Dispatch(e, socks, true, eidx, frs).toSubMaster <==> e.typ in services && Wanted(e.typ, allow, block)
  {
  }

  // ---------------------------------------------------------------------------
  // Pacing

  const NanosPerMicro := 1000
  const MaxLagMicros := 1_000_000

  /** `((etime - rtime) * 1e-3) + 0.5` truncated to a whole number of microseconds. */
  function UsBehind(etime: int, rtime: int): int {
    TruncDiv(etime - rtime + 500, NanosPerMicro)
  }

  /** The lag is rounded to the nearest microsecond, halves up, and is positive from half a microsecond on. */
  lemma UsBehindRounds(etime: int, rtime: int)
    ensures var x, u := etime - rtime, UsBehind(etime, rtime);
      (x >= -500 ==> 1000 * u <= x + 500 < 1000 * u + 1000) &&
      (u > 0 <==> x >= 500)
  {
    var x, u := etime - rtime, UsBehind(etime, rtime);
    if x + 500 < 0 {
      assert 0 <= u * 1000 - (x + 500) < 1000;
      assert u * 1000 < 1000;
    } else {
      assert 0 <= (x + 500) - u * 1000 < 1000;
    }
  }

  /** The result of one pacing step: the sleep and the (possibly new) time anchors. */
  datatype Pacing = Pacing(sleepUs: int, t0: int, t0r: int)

  /**
    One pacing step for an event logged at `tm`, with the log anchored at `t0`
    and the wall clock at `t0r`, at wall time `now`.
  */
  function Pace(tm: int, t0: int, t0r: int, now: int): (p: Pacing)
    ensures 0 <= p.sleepUs <= MaxLagMicros
  {
    var us := UsBehind(tm - t0, now - t0r);
    if us > 0 then
      if us > MaxLagMicros then Pacing(0, tm, now) else Pacing(us, t0, t0r)
    else Pacing(0, t0, t0r)
  }

  /**
    The replay sleeps for its lag when it is ahead of the log by up to a second,
    not at all when it is behind, and when more than a second ahead it does not
    sleep but re-anchors both clocks at the current event, after which its lag
    is zero.
  */
  lemma PaceMeaning(tm: int, t0: int, t0r: int, now: int)
    ensures var p, us := Pace(tm, t0, t0r, now), UsBehind(tm - t0, now - t0r);
      (p.sleepUs > 0 <==> 0 < us <= MaxLagMicros) &&
      (p.sleepUs > 0 ==> p.sleepUs == us) &&
      (us <= MaxLagMicros ==> p.t0 == t0 && p.t0r == t0r) &&
      (us > MaxLagMicros ==> p.sleepUs == 0 && p.t0 == tm && p.t0r == now &&
                             UsBehind(tm - p.t0, now - p.t0r) == 0)
  {
    var p, us := Pace(tm, t0, t0r, now), UsBehind(tm - t0, now - t0r);
    if us > MaxLagMicros {
      assert UsBehind(tm - p.t0, now - p.t0r) == TruncDiv(500, 1000);
    }
  }

  /** A sleep of `s` microseconds covers the lag to within half a microsecond. */
  lemma SleepMatchesLag(tm: int, t0: int, t0r: int, now: int)
    requires Pace(tm, t0, t0r, now).sleepUs > 0
    ensures var s, x := Pace(tm, t0, t0r, now).sleepUs, (tm - t0) - (now - t0r);
      1000 * s - 500 <= x < 1000 * s + 500
  {
    PaceMeaning(tm, t0, t0r, now);
    UsBehindRounds(tm - t0, now - t0r);
  }

  // ---------------------------------------------------------------------------
  // Segments and the event window

  /** A segment's readers are added once, for the log and the camera file of that segment. */
  function WithSegment(lrs: map<int, string>, frs: map<int, string>, i: int,
                       logPath: string, cameraPath: string): (r: (map<int, string>, map<int, string>))
    ensures i in r.0 && (i !in lrs ==> i in r.1)
    ensures i in lrs ==> r == (lrs, frs)
    ensures i !in lrs ==> r.0[i] == logPath && r.1[i] == cameraPath
    ensures forall k :: k != i ==> (k in r.0 <==> k in lrs) && (k in r.1 <==> k in frs)
    ensures forall k :: k != i && k in lrs ==> r.0[k] == lrs[k]
    ensures forall k :: k != i && k in frs ==> r.1[k] == frs[k]
  {
    if i in lrs then (lrs, frs) else (lrs[i := logPath], frs[i := cameraPath])
  }

  function WithoutSegment(lrs: map<int, string>, frs: map<int, string>, n: int): (r: (map<int, string>, map<int, string>))
    ensures n !in r.0 && n !in r.1
    ensures forall k :: k != n ==> (k in r.0 <==> k in lrs) && (k in r.1 <==> k in frs)
    ensures forall k :: k in r.0 ==> r.0[k] == lrs[k]
    ensures forall k :: k in r.1 ==> r.1[k] == frs[k]
  {
    (lrs - {n}, frs - {n})
  }

  /** Adding a segment twice is adding it once. */
  lemma AddSegmentIdempotent(lrs: map<int, string>, frs: map<int, string>, i: int, logPath: string, cameraPath: string)
    ensures var r := WithSegment(lrs, frs, i, logPath, cameraPath);
      WithSegment(r.0, r.1, i, logPath, cameraPath) == r
  {
  }

  /** Trimming a segment that was just added gives back the readers held before. */
  lemma TrimUndoesAdd(lrs: map<int, string>, frs: map<int, string>, i: int, logPath: string, cameraPath: string)
    requires i !in lrs && i !in frs
    ensures var r := WithSegment(lrs, frs, i, logPath, cameraPath);
      WithoutSegment(r.0, r.1, i) == (lrs, frs)
  {
    var r := WithSegment(lrs, frs, i, logPath, cameraPath);
    var w := WithoutSegment(r.0, r.1, i);
    assert w.0 == lrs by {
      assert forall k :: k in w.0 <==> k in lrs;
    }
    assert w.1 == frs by {
      assert forall k :: k in w.1 <==> k in frs;
    }
  }

  /** The trimming window: within `windowPadding` minutes of the current time. */
  predicate InWindow(t: int, now: int, windowPadding: int) {
    Abs(t - now) <= windowPadding * 60 * 1_000_000_000
  }

  /** The events left after trimming, in their original order. */
  function Trimmed(events: seq<Event>, now: int, windowPadding: int): (r: seq<Event>)
    ensures |r| <= |events|
  {
    if events == [] then []
    else
      var n := |events| - 1;
      Trimmed(events[..n], now, windowPadding) +
        (if InWindow(events[n].time, now, windowPadding) then [events[n]] else [])
  }

  predicate SortedByTime(events: seq<Event>) {
    forall i, j :: 0 <= i < j < |events| ==> events[i].time <= events[j].time
  }

  /** Trimming keeps exactly the events inside the window. */
  lemma {:induction false} TrimmedMeaning(events: seq<Event>, now: int, windowPadding: int)
    ensures forall e :: e in Trimmed(events, now, windowPadding) <==>
      e in events && InWindow(e.time, now, windowPadding)
  {
    if events != [] {
      var n := |events| - 1;
      TrimmedMeaning(events[..n], now, windowPadding);
      assert events == events[..n] + [events[n]];
    }
  }

  /** Trimming keeps the time order of the events. */
  lemma {:induction false} TrimmedSorted(events: seq<Event>, now: int, windowPadding: int)
    requires SortedByTime(events)
    ensures SortedByTime(Trimmed(events, now, windowPadding))
  {
    if events != [] {
      var n := |events| - 1;
      assert SortedByTime(events[..n]);
      TrimmedSorted(events[..n], now, windowPadding);
      TrimmedMeaning(events[..n], now, windowPadding);
      var p := Trimmed(events[..n], now, windowPadding);
      forall e | e in p ensures e.time <= events[n].time {
        var a :| 0 <= a < n && events[a] == e;
      }
    }
  }

  /** The first position whose event is not earlier than `t` (`QMap::lowerBound`). */
  function LowerBound(events: seq<Event>, t: int): (k: nat)
    ensures k <= |events|
    ensures forall i :: 0 <= i < k ==> events[i].time < t
    ensures k < |events| ==> events[k].time >= t
  {
    if events == [] || events[0].time >= t then 0
    else 1 + LowerBound(events[1..], t)
  }

  /**
    The stream starts from the anchor at the second event; the lookup finds an
    event at that very time, so the wait for a later event never spins.
  */
  lemma StartFindsAnchor(events: seq<Event>)
    requires |events| >= 2 && SortedByTime(events)
    ensures LowerBound(events, events[1].time) <= 1
    ensures events[LowerBound(events, events[1].time)].time == events[1].time
    ensures !(events[LowerBound(events, events[1].time)].time - events[1].time > 1_000_000_000)
  {
  }

  // ---------------------------------------------------------------------------
  // The replay

  class Replay {
    const windowPadding: int
    const hasSubMaster: bool
    var socks: set<string>
    var logPaths: seq<string>
    var cameraPaths: seq<string>
    var lrs: map<int, string>
    var frs: map<int, string>
    var events: seq<Event>
    var eidx: map<int, (int, int)>
    var currentSegment: int
    var routeStartTs: int
    var tc: int
    var t0: int
    var t0r: int

    /**
      The environment's allow and block lists are split at commas; the current
      segment starts just before the window.
    */
    constructor(services: seq<string>, allowEnv: string, blockEnv: string, creatable: set<string>,
                windowPadding: int, hasSubMaster: bool)
      ensures this.windowPadding == windowPadding && this.hasSubMaster == hasSubMaster
      ensures forall name :: name in socks <==>
        name in services && Wanted(name, Text.Split(allowEnv, ','), Text.Split(blockEnv, ',')) &&
        (hasSubMaster || name in creatable)
      ensures currentSegment == -windowPadding - 1
      ensures lrs == map[] && frs == map[] && events == [] && eidx == map[]
      ensures logPaths == [] && cameraPaths == []
    {
      this.windowPadding := windowPadding;
      this.hasSubMaster := hasSubMaster;
      var sockets := OpenSockets(services, Text.Split(allowEnv, ','), Text.Split(blockEnv, ','), creatable, hasSubMaster);
      socks := sockets;
      logPaths, cameraPaths := [], [];
      lrs, frs := map[], map[];
      events, eidx := [], map[];
      currentSegment := -windowPadding - 1;
      routeStartTs, tc, t0, t0r := 0, 0, 0, 0;
    }

    /** `addSegment`: open the readers of segment `i` unless it already has a log reader. */
    method AddSegment(i: int)
      requires 0 <= i < |logPaths| && i < |cameraPaths|
      modifies this`lrs, this`frs
      ensures (lrs, frs) == WithSegment(old(lrs), old(frs), i, logPaths[i], cameraPaths[i])
    {
      if i in lrs {
        return;
      }
      lrs := lrs[i := logPaths[i]];
      frs := frs[i := cameraPaths[i]];
    }

    /** `trimSegment`: drop the readers of segment `n` and every event outside the window. */
    method TrimSegment(n: int, now: int)
      modifies this`lrs, this`frs, this`events
      ensures (lrs, frs) == WithoutSegment(old(lrs), old(frs), n)
      ensures events == Trimmed(old(events), now, windowPadding)
    {
      if n in lrs {
        lrs := lrs - {n};
      } else {
        assert lrs - {n} == lrs;
      }
      if n in frs {
        frs := frs - {n};
      } else {
        assert frs - {n} == frs;
      }
      var kept: seq<Event> := [];
      var i := 0;
      while i < |events|
        invariant 0 <= i <= |events|
        invariant kept == Trimmed(events[..i], now, windowPadding)
      {
        assert events[..i + 1][..i] == events[..i];
        if InWindow(events[i].time, now, windowPadding) {
          kept := kept + [events[i]];
        }
        i := i + 1;
      }
      assert events[..i] == events;
      events := kept;
    }

    /** `seekTime`: seconds to segment, by C integer division, then add that segment. */
    method SeekTime(ts: int)
      requires 0 <= TruncDiv(ts, 60) < |logPaths| && TruncDiv(ts, 60) < |cameraPaths|
      modifies this`currentSegment, this`lrs, this`frs
      ensures currentSegment == TruncDiv(ts, 60)
      ensures ts >= 0 ==> 60 * currentSegment <= ts < 60 * currentSegment + 60
      ensures (lrs, frs) == WithSegment(old(lrs), old(frs), currentSegment,
                                        logPaths[currentSegment], cameraPaths[currentSegment])
    {
      currentSegment := TruncDiv(ts, 60);
      AddSegment(currentSegment);
    }

    /** `parseResponse`: take the route's file lists and seek to its start. */
    method ParseResponse(cameras: seq<string>, logs: seq<string>)
      requires |cameras| >= 1 && |logs| >= 1
      modifies this`cameraPaths, this`logPaths, this`currentSegment, this`lrs, this`frs
      ensures cameraPaths == cameras && logPaths == logs && currentSegment == 0
      ensures (lrs, frs) == WithSegment(old(lrs), old(frs), 0, logs[0], cameras[0])
    {
      cameraPaths := cameras;
      logPaths := logs;
      SeekTime(0);
    }

    /** The start of the stream loop: anchor the log at its second event and the wall clock at `now`. */
    method StartStream(now: int) returns (start: nat)
      requires |events| >= 2 && SortedByTime(events)
      modifies this`t0, this`t0r
      ensures t0 == events[1].time && t0r == now
      ensures start <= 1 && events[start].time == t0
    {
      t0 := events[1].time;
      t0r := now;
      start := LowerBound(events, t0);
      StartFindsAnchor(events);
    }

    /** One pass of the stream loop over event `e` at wall time `now`. */
    method StreamEvent(e: Event, now: int) returns (sleepUs: int, out: Outcome)
      modifies this`routeStartTs, this`tc, this`t0, this`t0r
      ensures routeStartTs == (if e.typ == "initData" then e.time else old(routeStartTs))
      ensures tc == e.time
      ensures out == Dispatch(e, socks, hasSubMaster, eidx, frs)
      ensures e.typ in socks ==> Pacing(sleepUs, t0, t0r) == Pace(e.time, old(t0), old(t0r), now)
      ensures e.typ !in socks ==> sleepUs == 0 && t0 == old(t0) && t0r == old(t0r)
    {
      if e.typ == "initData" {
        routeStartTs := e.time;
      }
      var tm := e.time;
      tc := tm;
      sleepUs := 0;
      if e.typ in socks {
        var etime := tm - t0;
        var rtime := now - t0r;
        var usBehind := UsBehind(etime, rtime);
        if usBehind > 0 {
          if usBehind > MaxLagMicros {
            usBehind := 0;
            t0 := tm;
            t0r := now;
          }
          sleepUs := usBehind;
        }
      }
      out := Dispatch(e, socks, hasSubMaster, eidx, frs);
    }
  }
}
