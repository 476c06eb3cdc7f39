/** The pool of prewarmed library indexes (internal/grpc/libindex.go).

    Each locked section of a method is one method here, proved against a function on the pool's fields;
    index_pool_runs.dfy interleaves those functions. An index is named by the number of its build. */
module IndexPool {

  datatype Stats = Stats(pooled: nat, inlined: nat, built: nat)

  datatype Pool = Pool(size: nat, ready: seq<nat>, inflight: nat, target: nat, closed: bool, stats: Stats)

  datatype Option<T> = None | Some(value: T)

  // ----- The locked sections, as functions -----

  function New(size: int): Pool {
    Pool(if size < 0 then 0 else size, [], 0, 0, false, Stats(0, 0, 0))
  }

  predicate Starts(p: Pool) {
    !p.closed && p.inflight == 0 && |p.ready| < p.target
  }

  /** fillLocked: the count of builds goes up when one is started. */
  function Filled(p: Pool): Pool {
    if Starts(p) then p.(inflight := p.inflight + 1) else p
  }

  /** prewarm, before it fills. */
  function Aimed(p: Pool): Pool { p.(target := p.size) }

  /** get's first section, before it fills. */
  function Taken(p: Pool): Pool {
    if p.ready != [] then
      p.(ready := p.ready[..|p.ready| - 1], stats := p.stats.(pooled := p.stats.pooled + 1))
    else p.(stats := p.stats.(inlined := p.stats.inlined + 1))
  }

  function Handed(p: Pool): Option<nat> {
    if p.ready != [] then Some(p.ready[|p.ready| - 1]) else None
  }

  /** get's second section, after an inline build. */
  function Counted(p: Pool): Pool { p.(stats := p.stats.(built := p.stats.built + 1)) }

  predicate Drops(p: Pool) {
    p.closed || |p.ready| >= p.size
  }

  /** fillOne's section, before it fills. */
  function Finished(p: Pool, idx: nat): Pool
    requires p.inflight > 0
  {
    var q := Counted(p).(inflight := p.inflight - 1);
    if Drops(p) then q else q.(ready := p.ready + [idx])
  }

  /** fillOne fills only after keeping its index. */
  function FinishedFilled(p: Pool, idx: nat): Pool
    requires p.inflight > 0
  {
    if Drops(p) then Finished(p, idx) else Filled(Finished(p, idx))
  }

  function Flagged(p: Pool): Pool { p.(closed := true) }

  function Cleared(p: Pool): Pool { p.(ready := []) }

  // ----- The locked sections, as methods -----

  class IndexPool {
    const size: nat
    var ready: seq<nat>
    var inflight: nat
    var target: nat
    var closed: bool
    var stats: Stats

    ghost function Value(): Pool
      reads this
    {
      Pool(size, ready, inflight, target, closed, stats)
    }

    constructor (wanted: int)
      ensures Value() == New(wanted) && (size == wanted || (wanted < 0 && size == 0))
    {
      size := if wanted < 0 then 0 else wanted;
      ready, inflight, target, closed, stats := [], 0, 0, false, Stats(0, 0, 0);
    }

    /** Says whether a background build is to be started. */
    method FillLocked() returns (started: bool)
      modifies this
      ensures Value() == Filled(old(Value())) && started == Starts(old(Value()))
    {
      if closed || inflight > 0 || |ready| >= target {
        return false;
      }
      inflight := inflight + 1;
      return true;
    }

    method Prewarm() returns (started: bool)
      modifies this
      ensures Value() == Filled(Aimed(old(Value()))) && started == Starts(Aimed(old(Value())))
    {
      target := size;
      started := FillLocked();
    }

    /** None means that the caller has to build. */
    method Take() returns (idx: Option<nat>, started: bool)
      modifies this
      ensures Value() == Filled(Taken(old(Value()))) && idx == Handed(old(Value())) && started == Starts(Taken(old(Value())))
    {
      idx := None;
      var n := |ready|;
      if n > 0 {
        idx := Some(ready[n - 1]);
        ready := ready[..n - 1];
        stats := stats.(pooled := stats.pooled + 1);
      } else {
        stats := stats.(inlined := stats.inlined + 1);
      }
      started := FillLocked();
    }

    method CountInline()
      modifies this
      ensures Value() == Counted(old(Value()))
    {
      stats := stats.(built := stats.built + 1);
    }

    method FillOne(idx: nat) returns (kept: bool, started: bool)
      requires inflight > 0
      modifies this
      ensures Value() == FinishedFilled(old(Value()), idx)
      ensures kept <==> !old(closed) && |old(ready)| < size
      ensures ready == (if kept then old(ready) + [idx] else old(ready)) && started == (kept && Starts(Finished(old(Value()), idx)))
    {
      inflight := inflight - 1;
      stats := stats.(built := stats.built + 1);
      if closed || |ready| >= size {
        return false, false;
      }
      ready := ready + [idx];
      kept := true;
      started := FillLocked();
    }

    method BeginClose()
      modifies this
      ensures Value() == Flagged(old(Value()))
    {
      closed := true;
    }

    method EndClose()
      modifies this
      ensures Value() == Cleared(old(Value()))
    {
      ready := [];
    }
  }
}
