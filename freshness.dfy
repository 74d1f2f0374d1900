/** The freshness decision of isUpToDate. Modification times are integers;
    0 stands for Go's zero time.Time, which the pattern lookups return when no
    file matched. */
module Freshness {
  import opened Taskfile

  /** isUpToDate, given the results of the two time lookups: the latest
      modification time among the files matching t.sources and the earliest
      among the files matching t.generates. */
  predicate IsUpToDate(t: Task, sourcesMax: Result<int>, generatesMin: Result<int>) {
    if |t.sources| == 0 || |t.generates| == 0 then false
    else if sourcesMax.Err? || sourcesMax.value == 0 then false
    else if generatesMin.Err? || generatesMin.value == 0 then false
    else generatesMin.value > sourcesMax.value
  }

  /** A task is stale whenever one side is undeclared or a lookup fails or
      finds no file; otherwise it is fresh exactly when the earliest output is
      strictly newer than the latest input. */
  lemma UpToDateCases(t: Task, sourcesMax: Result<int>, generatesMin: Result<int>)
    ensures |t.sources| == 0 || |t.generates| == 0 ==> !IsUpToDate(t, sourcesMax, generatesMin)
    ensures sourcesMax.Err? || generatesMin.Err? ==> !IsUpToDate(t, sourcesMax, generatesMin)
    ensures sourcesMax == Ok(0) || generatesMin == Ok(0) ==> !IsUpToDate(t, sourcesMax, generatesMin)
    ensures |t.sources| > 0 && |t.generates| > 0 && sourcesMax.Ok? && generatesMin.Ok?
            && sourcesMax.value != 0 && generatesMin.value != 0
            ==> (IsUpToDate(t, sourcesMax, generatesMin) <==> generatesMin.value > sourcesMax.value)
  {
  }

  /** The latest of the matched files' times; the zero time when none matched. */
  function LatestTime(times: seq<int>): (r: int)
    ensures times == [] ==> r == 0
    ensures forall i :: 0 <= i < |times| ==> times[i] <= r
    ensures times != [] ==> exists i :: 0 <= i < |times| && times[i] == r
  {
    if times == [] then 0
    else if |times| == 1 then times[0]
    else
      var rest := LatestTime(times[1..]);
      if times[0] >= rest then times[0] else rest
  }

  /** The earliest of the matched files' times; the zero time when none matched. */
  function EarliestTime(times: seq<int>): (r: int)
    ensures times == [] ==> r == 0
    ensures forall i :: 0 <= i < |times| ==> r <= times[i]
    ensures times != [] ==> exists i :: 0 <= i < |times| && times[i] == r
  {
    if times == [] then 0
    else if |times| == 1 then times[0]
    else
      var rest := EarliestTime(times[1..]);
      if times[0] <= rest then times[0] else rest
  }

  /** With real modification times (all after the zero time), a task is up to
      date exactly when both pattern lists are declared, both match some file,
      and every generated file is strictly newer than every source file. */
  lemma {:induction false} UpToDateIffEveryOutputNewer(t: Task, sourceTimes: seq<int>, generateTimes: seq<int>)
    requires forall i :: 0 <= i < |sourceTimes| ==> sourceTimes[i] > 0
    requires forall j :: 0 <= j < |generateTimes| ==> generateTimes[j] > 0
    ensures IsUpToDate(t, Ok(LatestTime(sourceTimes)), Ok(EarliestTime(generateTimes)))
            <==> |t.sources| > 0 && |t.generates| > 0 && sourceTimes != [] && generateTimes != []
                 && forall i, j :: 0 <= i < |sourceTimes| && 0 <= j < |generateTimes|
                                   ==> generateTimes[j] > sourceTimes[i]
  {
    var latest, earliest := LatestTime(sourceTimes), EarliestTime(generateTimes);
    if sourceTimes != [] && generateTimes != [] {
      var i :| 0 <= i < |sourceTimes| && sourceTimes[i] == latest;
      var j :| 0 <= j < |generateTimes| && generateTimes[j] == earliest;
      assert latest > 0 && earliest > 0;
      if forall i, j :: 0 <= i < |sourceTimes| && 0 <= j < |generateTimes| ==> generateTimes[j] > sourceTimes[i] {
        assert generateTimes[j] > sourceTimes[i];
      }
    }
  }
}
