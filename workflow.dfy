/**
 * The catalogue workflow: a catalogue row starts in `new`, `download` moves
 * it to `downloaded` and `process` moves it to `processed`. The workflow
 * library applies a transition only when the row's marking is one of the
 * transition's `from` places.
 */
module CatalogWorkflow {
  import opened Wrappers

  datatype Place = New | Downloaded | Processed
  {
    /** The marking string stored on a row. */
    function Name(): string
    {
      match this
      case New => "new"
      case Downloaded => "downloaded"
      case Processed => "processed"
    }
  }

  datatype Transition = Download | Process
  {
    function Name(): string
    {
      if Download? then "download" else "process"
    }

    /** The single place the transition is declared `from`. */
    function From(): Place
    {
      if Download? then New else Downloaded
    }

    /** The place the transition is declared `to`. */
    function To(): Place
    {
      if Download? then Downloaded else Processed
    }
  }

  /** The place marked initial. */
  const Initial: Place := New

  /** The marking after applying t in place p; None when t is not enabled there. */
  function Apply(p: Place, t: Transition): Option<Place>
  {
    if p == t.From() then Some(t.To()) else None
  }

  /** Applying a sequence of transitions in order; None as soon as one is not enabled. */
  function Run(p: Place, ts: seq<Transition>): Option<Place>
    decreases |ts|
  {
    if ts == [] then Some(p)
    else match Apply(p, ts[0])
      case None => None
      case Some(q) => Run(q, ts[1..])
  }

  /** How far along the workflow a place is. */
  function Stage(p: Place): nat
  {
    match p
    case New => 0
    case Downloaded => 1
    case Processed => 2
  }

  /**
   * The transition table: download is enabled only in new and leads to
   * downloaded; process is enabled only in downloaded and leads to processed.
   */
  lemma TransitionTable(p: Place)
    ensures Apply(p, Download).Some? <==> p == New
    ensures Apply(p, Process).Some? <==> p == Downloaded
    ensures Apply(New, Download) == Some(Downloaded)
    ensures Apply(Downloaded, Process) == Some(Processed)
  {
  }

  /** Processed has no outgoing transition, and no transition leads back to new. */
  lemma ProcessedIsFinal(p: Place, t: Transition)
    ensures Apply(Processed, t).None?
    ensures Apply(p, t).Some? ==> Apply(p, t).value != New
  {
  }

  /** Every applicable transition moves the marking exactly one stage forward. */
  lemma ApplyMovesForward(p: Place, t: Transition)
    ensures Apply(p, t).Some? ==> Stage(Apply(p, t).value) == Stage(p) + 1
  {
  }

  /**
   * Markings only move forward: a run of n transitions that succeeds ends n
   * stages further on, so no run from new is longer than two steps and no
   * non-empty run comes back to where it started.
   */
  lemma {:induction false} RunMovesForward(p: Place, ts: seq<Transition>)
    ensures Run(p, ts).Some? ==> Stage(Run(p, ts).value) == Stage(p) + |ts|
    ensures Run(p, ts).Some? ==> |ts| <= 2 - Stage(p)
    ensures ts != [] && Run(p, ts).Some? ==> Run(p, ts).value != p
    decreases |ts|
  {
    if ts != [] {
      var q := Apply(p, ts[0]);
      if q.Some? {
        ApplyMovesForward(p, ts[0]);
        RunMovesForward(q.value, ts[1..]);
      }
    }
  }

  /** From the initial place, the only complete run is download then process. */
  lemma InitialReachesProcessed(ts: seq<Transition>)
    ensures Run(Initial, [Download, Process]) == Some(Processed)
    ensures Run(Initial, ts) == Some(Processed) ==> ts == [Download, Process]
  {
    assert [Download, Process][1..] == [Process];
    if Run(Initial, ts) == Some(Processed) {
      RunMovesForward(Initial, ts);
      assert |ts| == 2;
      var q := Apply(Initial, ts[0]);
      assert q.Some?;
      assert ts[0] == Download;
      assert ts[1..] == [ts[1]];
      assert Run(Downloaded, ts[1..]) == Apply(Downloaded, ts[1]) == Some(Processed);
      assert ts[1] == Process;
    }
  }

  /** The marking strings of distinct places are distinct. */
  lemma PlaceNamesDistinct(p: Place, q: Place)
    ensures p.Name() == q.Name() ==> p == q
  {
  }
}
