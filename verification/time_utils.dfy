/**
 * The `StopWatch` of helpers/time_utils.py over an abstract integer clock
 * in milliseconds.  A watch moves from unstarted to started to stopped;
 * each call that the source guards with `assert` returns `Err` with the
 * assertion's message when the guard fails: the fixed text followed by
 * ` id: ` and the watch's identifier.
 */
module TimeUtils {
  import opened Wrappers

  /** A recorded time, or the `NO_DATE` sentinel of a time not yet recorded. */
  datatype Instant = NoDate | At(ms: int)

  /** A watch: its identifier (the text of its `uuid4`) and its two recorded times. */
  datatype StopWatch = StopWatch(id: string, start: Instant, stop: Instant)

  /** The fixed part of each guard's message; the watch's identifier follows it. */
  const STARTED_ALREADY: string := "StopWatch started already. id: "
  const NOT_STARTED: string := "StopWatch must be started before calling stop. id: "
  const STOPPED_ALREADY: string := "StopWatch stopped already. id: "
  const NOT_RECORDED: string := "StopWatch start time or stop time has not been recorded before calculating elapsed time. id: "

  /** The message of a failed guard of watch `w`: the fixed text, then the identifier. */
  function Failure(text: string, w: StopWatch): string {
    text + w.id
  }

  /** A new watch with identifier `id`: neither time recorded. */
  function New(id: string): StopWatch {
    StopWatch(id, NoDate, NoDate)
  }

  /** `start`: records `now` as the start of a watch not started before; the watch is returned for chaining. */
  function Start(w: StopWatch, now: int): (r: Result<StopWatch, string>)
    ensures r.Ok? <==> w.start.NoDate?
    ensures r.Ok? ==> r.value.start == At(now) && r.value.stop == w.stop && r.value.id == w.id
    ensures r.Err? ==> r.error == "StopWatch started already. id: " + w.id
  {
    if w.start != NoDate then Err(Failure(STARTED_ALREADY, w)) else Ok(w.(start := At(now)))
  }

  /**
   * `stop`: records `now` as the stop of a started watch not stopped
   * before; the "not started" check comes first.
   */
  function Stop(w: StopWatch, now: int): (r: Result<StopWatch, string>)
    ensures r.Ok? <==> w.start.At? && w.stop.NoDate?
    ensures r.Ok? ==> r.value.stop == At(now) && r.value.start == w.start && r.value.id == w.id
    ensures w.start.NoDate? ==> r == Err("StopWatch must be started before calling stop. id: " + w.id)
    ensures w.start.At? && w.stop.At? ==> r == Err("StopWatch stopped already. id: " + w.id)
  {
    if w.start == NoDate then Err(Failure(NOT_STARTED, w))
    else if w.stop != NoDate then Err(Failure(STOPPED_ALREADY, w))
    else Ok(w.(stop := At(now)))
  }

  /** `get_elapsed_time`: the stop time minus the start time, once both are recorded. */
  function ElapsedTime(w: StopWatch): (r: Result<int, string>)
    ensures r.Ok? <==> w.start.At? && w.stop.At?
    ensures r.Ok? ==> w.start.ms + r.value == w.stop.ms
    ensures r.Err? ==> r.error == "StopWatch start time or stop time has not been recorded before calculating elapsed time. id: " + w.id
  {
    if w.start != NoDate && w.stop != NoDate then Ok(w.stop.ms - w.start.ms) else Err(Failure(NOT_RECORDED, w))
  }

  /** The calls a watch receives, with the clock reading each one takes. */
  datatype Call = StartAt(now: int) | StopAt(now: int)

  /** The watch after one call. */
  function Apply(w: StopWatch, call: Call): Result<StopWatch, string> {
    match call
    case StartAt(now) => Start(w, now)
    case StopAt(now) => Stop(w, now)
  }

  /** The watch after a sequence of calls, or the first failed assertion. */
  function Run(w: StopWatch, calls: seq<Call>): (r: Result<StopWatch, string>)
    decreases |calls|
  {
    if |calls| == 0 then Ok(w)
    else
      var next := Apply(w, calls[0]);
      if next.Err? then next else Run(next.value, calls[1..])
  }

  /** A watch that every call sequence from a new watch can reach: it is never stopped without being started. */
  predicate Consistent(w: StopWatch) {
    w.stop.At? ==> w.start.At?
  }

  /**
   * Every watch reached from a consistent one is consistent, so on such a
   * watch the elapsed time is available exactly when it has been stopped.
   */
  lemma {:induction false} RunKeepsConsistent(w: StopWatch, calls: seq<Call>)
    requires Consistent(w)
    ensures Run(w, calls).Ok? ==> Consistent(Run(w, calls).value)
    ensures Run(w, calls).Ok? ==> (ElapsedTime(Run(w, calls).value).Ok? <==> Run(w, calls).value.stop.At?)
    decreases |calls|
  {
    if |calls| > 0 {
      var next := Apply(w, calls[0]);
      if next.Ok? {
        RunKeepsConsistent(next.value, calls[1..]);
      }
    }
  }

  /** The clock readings of a call sequence never go back. */
  predicate ClockNeverGoesBack(calls: seq<Call>) {
    forall i, j :: 0 <= i < j < |calls| ==> calls[i].now <= calls[j].now
  }

  /**
   * From a new watch, with a clock that never goes back, a run that ends
   * stopped has a nonnegative elapsed time: the difference of the readings
   * of its only successful start and stop.
   */
  lemma {:induction false} ElapsedIsNonnegative(id: string, calls: seq<Call>)
    requires ClockNeverGoesBack(calls)
    ensures Run(New(id), calls).Ok? && Run(New(id), calls).value.stop.At? ==>
              ElapsedTime(Run(New(id), calls).value).Ok? && ElapsedTime(Run(New(id), calls).value).value >= 0
  {
    if |calls| > 0 {
      RunReadingsOrdered(New(id), calls, calls[0].now);
    }
  }

  /**
   * Along a run whose readings never go back and are all at least `floor`,
   * from a watch started no later than `floor` and stopped no earlier than
   * it started, a recorded stop is never before the recorded start.
   */
  lemma {:induction false} RunReadingsOrdered(w: StopWatch, calls: seq<Call>, floor: int)
    requires ClockNeverGoesBack(calls)
    requires forall i :: 0 <= i < |calls| ==> floor <= calls[i].now
    requires w.start.At? ==> w.start.ms <= floor
    requires w.stop.At? ==> w.start.At? && w.start.ms <= w.stop.ms
    ensures Run(w, calls).Ok? ==>
              var v := Run(w, calls).value;
              v.stop.At? ==> v.start.At? && v.start.ms <= v.stop.ms
    decreases |calls|
  {
    if |calls| > 0 {
      var t := calls[0].now;
      var next := Apply(w, calls[0]);
      if next.Ok? {
        var v := next.value;
        assert v.start.At? ==> v.start.ms <= t;
        assert v.stop.At? ==> v.start.At? && v.start.ms <= v.stop.ms;
        forall i | 0 <= i < |calls[1..]|
          ensures t <= calls[1..][i].now
        {
          assert calls[1..][i] == calls[i + 1];
        }
        RunReadingsOrdered(v, calls[1..], t);
      }
    }
  }

  /**
   * The repository's tests: start then stop then elapsed gives the clock
   * difference (2000 ms for a two-second sleep); elapsed on a new or merely
   * started watch fails; stop on a new watch fails; start twice and stop
   * twice fail, each message naming the watch.
   */
  lemma RepositoryTestCases(id: string, t0: int)
    ensures Run(New(id), [StartAt(t0), StopAt(t0 + 2000)]).Ok?
    ensures ElapsedTime(Run(New(id), [StartAt(t0), StopAt(t0 + 2000)]).value) == Ok(2000)
    ensures ElapsedTime(New(id)).Err?
    ensures Stop(New(id), t0) == Err("StopWatch must be started before calling stop. id: " + id)
    ensures ElapsedTime(Start(New(id), t0).value).Err?
    ensures Run(New(id), [StartAt(t0), StartAt(t0)]) == Err("StopWatch started already. id: " + id)
    ensures Run(New(id), [StartAt(t0), StopAt(t0), StopAt(t0)]) == Err("StopWatch stopped already. id: " + id)
  {
    var started := StopWatch(id, At(t0), NoDate);
    var stopped := StopWatch(id, At(t0), At(t0 + 2000));
    assert Run(stopped, []) == Ok(stopped);
    assert Run(started, [StopAt(t0 + 2000)]) == Run(stopped, []);
    assert [StartAt(t0), StopAt(t0 + 2000)][1..] == [StopAt(t0 + 2000)];
    assert Run(New(id), [StartAt(t0), StopAt(t0 + 2000)]) == Run(started, [StopAt(t0 + 2000)]);
    assert Run(started, [StartAt(t0)]) == Err(Failure(STARTED_ALREADY, started));
    assert [StartAt(t0), StartAt(t0)][1..] == [StartAt(t0)];
    var stoppedAtOnce := StopWatch(id, At(t0), At(t0));
    assert Run(stoppedAtOnce, [StopAt(t0)]) == Err(Failure(STOPPED_ALREADY, stoppedAtOnce));
    assert [StopAt(t0), StopAt(t0)][1..] == [StopAt(t0)];
    assert Run(started, [StopAt(t0), StopAt(t0)]) == Run(stoppedAtOnce, [StopAt(t0)]);
    assert [StartAt(t0), StopAt(t0), StopAt(t0)][1..] == [StopAt(t0), StopAt(t0)];
  }
}
