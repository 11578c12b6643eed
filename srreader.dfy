/**
  Segment-range reading: resolving the first and last segment of a range
  (which may leave either out), the three ways of turning the range into one
  log reader per segment, and reading every message of those logs in order.
*/
module SrReader {
  import opened Common
  import Text

  /** A parsed segment range: the route and the start and end texts as written (either may be absent). */
  datatype SegmentRange = SegmentRange(routeName: string, dongleId: string, timestamp: string, start: Option<string>, end: Option<string>)

  /** What the route service reports about a route. */
  datatype Route = Route(maxSegNumber: int, logPaths: seq<string>)

  /**
    `parse_start_end`: an absent start is 0, an absent end is the start when
    a start was given and otherwise the route's last segment. Without a route
    an open end is an error, and so is text `int()` cannot read.
  */
  function ParseStartEnd(sr: SegmentRange, route: Option<Route>): (r: Result<(int, int)>)
    ensures sr.start.None? && sr.end.None? && route.Some? ==> r == Ok((0, route.value.maxSegNumber))
    ensures sr.start.None? && sr.end.None? && route.None? ==> r.Err?
    ensures sr.start.Some? && sr.end.None? && Text.PyInt(sr.start.value).Some? ==>
      r == Ok((Text.PyInt(sr.start.value).value, Text.PyInt(sr.start.value).value))
    ensures sr.start.None? && sr.end.Some? && Text.PyInt(sr.end.value).Some? ==>
      r == Ok((0, Text.PyInt(sr.end.value).value))
    ensures sr.start.Some? && sr.end.Some? && Text.PyInt(sr.start.value).Some? && Text.PyInt(sr.end.value).Some? ==>
      r == Ok((Text.PyInt(sr.start.value).value, Text.PyInt(sr.end.value).value))
    ensures sr.start.Some? && Text.PyInt(sr.start.value).None? ==> r.Err?
    ensures sr.end.Some? && Text.PyInt(sr.end.value).None? ==> r.Err?
  {
    var start :- ParseOptional(sr.start, 0);
    if sr.end.Some? then
      var end :- ParseOptional(sr.end, 0);
      Ok((start, end))
    else if sr.start.Some? then Ok((start, start))
    else if route.None? then Err("segment(s) must be provided for non-api sources")
    else Ok((start, route.value.maxSegNumber))
  }

  /** `int(text)` when the text is present, `default` otherwise. */
  function ParseOptional(text: Option<string>, default: int): (r: Result<int>)
    ensures text.None? ==> r == Ok(default)
    ensures text.Some? ==> (r.Ok? <==> Text.PyInt(text.value).Some?)
    ensures text.Some? && r.Ok? ==> r.value == Text.PyInt(text.value).value
  {
    match text
    case None => Ok(default)
    case Some(t) =>
      match Text.PyInt(t)
      case Some(v) => Ok(v)
      case None => Err("invalid literal for int()")
  }

  /** `range(start, end + 1)`. */
  function Segments(start: int, end: int): (segs: seq<int>)
    ensures |segs| == if end >= start then end - start + 1 else 0
    ensures forall k :: 0 <= k < |segs| ==> segs[k] == start + k
  {
    if end < start then [] else seq(end - start + 1, k requires 0 <= k <= end - start => start + k)
  }

  /** The segments of a range come out strictly increasing and within [start, end]. */
  lemma SegmentsIncreasing(start: int, end: int)
    ensures forall j, k :: 0 <= j < k < |Segments(start, end)| ==> Segments(start, end)[j] < Segments(start, end)[k]
    ensures forall k :: 0 <= k < |Segments(start, end)| ==> start <= Segments(start, end)[k] <= end
  {
  }

  /** A log to open: by path, or by route name and segment through the CI storage. */
  datatype Reader = PathReader(path: string) | CiReader(routeName: string, seg: int)

  /** Python list indexing: a negative index counts from the end; anything else out of range raises. */
  function PyIndex<T>(xs: seq<T>, i: int): (r: Result<T>)
    ensures r.Ok? <==> -|xs| <= i < |xs|
    ensures 0 <= i < |xs| ==> r == Ok(xs[i])
    ensures -|xs| <= i < 0 ==> r == Ok(xs[|xs| + i])
  {
    if 0 <= i < |xs| then Ok(xs[i])
    else if -|xs| <= i < 0 then Ok(xs[|xs| + i])
    else Err("list index out of range")
  }

  /**
    What a generator produced before it stopped: the readers it yielded, and
    the error it raised after them, if any.
  */
  datatype Yielded = Yielded(readers: seq<Reader>, raised: Option<string>)

  /**
    `comma_api_source`: one reader per segment from the route's log paths,
    yielded lazily. Unreadable bounds raise before anything is yielded; a
    segment without a path raises after the readers of the segments before it.
  */
  function CommaApiSource(sr: SegmentRange, route: Route): (r: Yielded)
    ensures ParseStartEnd(sr, Some(route)).Err? ==> r.readers == [] && r.raised.Some?
    ensures ParseStartEnd(sr, Some(route)).Ok? ==>
      var bounds := ParseStartEnd(sr, Some(route)).value;
      |r.readers| <= |Segments(bounds.0, bounds.1)| &&
      ReadsPathsFrom(r.readers, route.logPaths, bounds.0) &&
      (r.raised.None? ==> |r.readers| == |Segments(bounds.0, bounds.1)|) &&
      (r.raised.Some? ==> PyIndex(route.logPaths, bounds.0 + |r.readers|).Err?)
  {
    match ParseStartEnd(sr, Some(route))
    case Err(e) => Yielded([], Some(e))
    case Ok(bounds) =>
      var segs := Segments(bounds.0, bounds.1);
      ReadersForSegments(route.logPaths, bounds.0, bounds.1);
      ReadersFor(route.logPaths, segs)
  }

  /** `readers[k]` opens the path of segment `start + k`. */
  predicate ReadsPathsFrom(readers: seq<Reader>, paths: seq<string>, start: int) {
    forall k :: 0 <= k < |readers| ==> ReadsPathAt(readers, paths, start, k)
  }

  predicate ReadsPathAt(readers: seq<Reader>, paths: seq<string>, start: int, k: int)
    requires 0 <= k < |readers|
  {
    PyIndex(paths, start + k).Ok? && readers[k] == PathReader(PyIndex(paths, start + k).value)
  }

  lemma ReadersForSegments(paths: seq<string>, start: int, end: int)
    ensures ReadsPathsFrom(ReadersFor(paths, Segments(start, end)).readers, paths, start)
  {
    var segs := Segments(start, end);
    var readers := ReadersFor(paths, segs).readers;
    forall k | 0 <= k < |readers| ensures ReadsPathAt(readers, paths, start, k) {
      var i := segs[k];
      assert i == start + k;
      assert PyIndex(paths, i).Ok? && readers[k] == PathReader(PyIndex(paths, i).value);
    }
  }

  /**
    The readers for `segs`, one at a time: each segment's path is looked up in
    turn, and the first lookup that fails ends the run with its error.
  */
  function ReadersFor(paths: seq<string>, segs: seq<int>): (r: Yielded)
    ensures |r.readers| <= |segs|
    ensures forall k :: 0 <= k < |r.readers| ==>
      PyIndex(paths, segs[k]).Ok? && r.readers[k] == PathReader(PyIndex(paths, segs[k]).value)
    ensures r.raised.None? ==> |r.readers| == |segs|
    ensures r.raised.Some? ==> |r.readers| < |segs| && PyIndex(paths, segs[|r.readers|]).Err?
    ensures r.raised.Some? <==> exists k :: 0 <= k < |segs| && PyIndex(paths, segs[k]).Err?
  {
    if segs == [] then Yielded([], None)
    else
      match PyIndex(paths, segs[0])
      case Err(e) => Yielded([], Some(e))
      case Ok(p) =>
        var rest := ReadersFor(paths, segs[1..]);
        assert forall k :: 1 <= k < |segs| ==> segs[k] == segs[1..][k - 1];
        Yielded([PathReader(p)] + rest.readers, rest.raised)
  }

  /** The internal storage's path of a segment's raw log. */
  function InternalPath(sr: SegmentRange, seg: int): string {
    "cd:/" + sr.dongleId + "/" + sr.timestamp + "/" + Text.IntToString(seg) + "/rlog.bz2"
  }

  /** One reader per segment from the internal storage. */
  function InternalSource(sr: SegmentRange): (r: Result<seq<Reader>>)
    ensures r.Ok? <==> ParseStartEnd(sr, None).Ok?
    ensures r.Ok? ==>
      var (start, end) := ParseStartEnd(sr, None).value;
      |r.value| == |Segments(start, end)| &&
      forall k :: 0 <= k < |r.value| ==> r.value[k] == PathReader(InternalPath(sr, start + k))
  {
    var (start, end) :- ParseStartEnd(sr, None);
    Ok(seq(|Segments(start, end)|, k requires 0 <= k < |Segments(start, end)| => PathReader(InternalPath(sr, start + k))))
  }

  /** One reader per segment from the CI storage. */
  function OpenpilotCiSource(sr: SegmentRange): (r: Result<seq<Reader>>)
    ensures r.Ok? <==> ParseStartEnd(sr, None).Ok?
    ensures r.Ok? ==>
      var (start, end) := ParseStartEnd(sr, None).value;
      |r.value| == |Segments(start, end)| &&
      forall k :: 0 <= k < |r.value| ==> r.value[k] == CiReader(sr.routeName, start + k)
  {
    var (start, end) :- ParseStartEnd(sr, None);
    Ok(seq(|Segments(start, end)|, k requires 0 <= k < |Segments(start, end)| => CiReader(sr.routeName, start + k)))
  }

  /** Iterating the range reader: every message of the first log, then of the second, and so on. */
  function ReadAll<M>(readers: seq<Reader>, messages: Reader -> seq<M>): (ms: seq<M>)
  {
    if readers == [] then [] else messages(readers[0]) + ReadAll(readers[1..], messages)
  }

  function TotalCount<M>(readers: seq<Reader>, messages: Reader -> seq<M>): nat
  {
    if readers == [] then 0 else |messages(readers[0])| + TotalCount(readers[1..], messages)
  }

  /** Nothing is dropped or added: the message count is the sum of the logs' counts. */
  lemma {:induction false} ReadAllCount<M>(readers: seq<Reader>, messages: Reader -> seq<M>)
    ensures |ReadAll(readers, messages)| == TotalCount(readers, messages)
  {
    if readers != [] {
      ReadAllCount(readers[1..], messages);
    }
  }

  /** Reading two runs of logs one after the other is reading them together. */
  lemma {:induction false} ReadAllAppend<M>(r1: seq<Reader>, r2: seq<Reader>, messages: Reader -> seq<M>)
    ensures ReadAll(r1 + r2, messages) == ReadAll(r1, messages) + ReadAll(r2, messages)
  {
    if r1 != [] {
      assert (r1 + r2)[1..] == r1[1..] + r2;
      ReadAllAppend(r1[1..], r2, messages);
    } else {
      assert r1 + r2 == r2;
    }
  }

  /** Each log's messages appear contiguously, in their own order, after those of the logs before it. */
  lemma ReadAllBlock<M>(readers: seq<Reader>, messages: Reader -> seq<M>, k: int)
    requires 0 <= k < |readers|
    ensures ReadAll(readers, messages) ==
      ReadAll(readers[..k], messages) + messages(readers[k]) + ReadAll(readers[k + 1..], messages)
  {
    var rest := readers[k..];
    assert readers == readers[..k] + rest;
    ReadAllAppend(readers[..k], rest, messages);
    assert rest[0] == readers[k] && rest[1..] == readers[k + 1..];
    assert ReadAll(rest, messages) == messages(readers[k]) + ReadAll(readers[k + 1..], messages);
  }
}
