/**
 * The state of a run of the two script versions that keep their messages in
 * global lists: the lists, `total_saved` and the filesystem.
 */
module RunState {
  import opened Wrappers
  import opened Media

  /** The state a run changes: the global lists, `total_saved` and the filesystem. */
  datatype Run = Run(log: Journal, totalSaved: int, fs: FileSystem)
  {
    function Note(e: Event): (r: Run)
      ensures r.totalSaved == totalSaved && r.fs == fs && r.log == log.Record(e)
    {
      this.(log := log.Record(e))
    }

    function Log(es: seq<Event>): (r: Run)
      ensures r.totalSaved == totalSaved && r.fs == fs && r.log == log.RecordAll(es)
    {
      this.(log := log.RecordAll(es))
    }
  }

  /** A run's state and the exception it raised, if any. */
  datatype Outcome = Outcome(run: Run, fault: Option<Fault>)

  /** The run after a comparison: its events logged and, unless it raised, the saved bytes added. */
  function Compared(st: Run, c: Comparison): (r: Run)
    ensures r.fs == st.fs && r.log == st.log.RecordAll(c.events)
    ensures r.totalSaved == st.totalSaved + (if c.outcome.Ok? then c.outcome.value.Saved() else 0)
  {
    Run(st.log.RecordAll(c.events), st.totalSaved + (if c.outcome.Ok? then c.outcome.value.Saved() else 0), st.fs)
  }
}
