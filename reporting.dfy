/**
 * The figures and choices the tracker's reports are built from, as functions
 * of the module ids (in iteration order) and the module records: the
 * progress total, the completed-module count, the average, the module to
 * continue with, and the modules listed as worked on.
 */
module Reporting {
  import opened ProgressState

  /** Every id in `ids` has a record in `mods`. */
  predicate Covers(ids: seq<string>, mods: map<string, ModuleState>) {
    forall id :: id in ids ==> id in mods
  }

  /** Every progress value is a percentage. */
  predicate ProgressInRange(ids: seq<string>, mods: map<string, ModuleState>)
    requires Covers(ids, mods)
  {
    forall id :: id in ids ==> 0 <= mods[id].progress <= 100
  }

  function Init(ids: seq<string>): seq<string>
    requires ids != []
  {
    ids[..|ids| - 1]
  }

  function Last(ids: seq<string>): string
    requires ids != []
  {
    ids[|ids| - 1]
  }

  /** The sum of the progress values of the modules in `ids`. */
  function ProgressSum(ids: seq<string>, mods: map<string, ModuleState>): (total: int)
    requires Covers(ids, mods)
    ensures ProgressInRange(ids, mods) ==> 0 <= total <= 100 * |ids|
  {
    if ids == [] then 0 else ProgressSum(Init(ids), mods) + mods[Last(ids)].progress
  }

  /** The number of modules in `ids` whose progress is exactly 100 (status plays no part). */
  function CompletedModules(ids: seq<string>, mods: map<string, ModuleState>): (n: nat)
    requires Covers(ids, mods)
    ensures n <= |ids|
  {
    if ids == [] then 0
    else CompletedModules(Init(ids), mods) + (if mods[Last(ids)].progress == 100 then 1 else 0)
  }

  /** The modules in `ids` whose progress is exactly 100, as a set. */
  ghost function Finished(ids: seq<string>, mods: map<string, ModuleState>): set<string>
    requires Covers(ids, mods)
  {
    set id | id in ids && mods[id].progress == 100
  }

  /**
   * The completed-module count is the number of distinct modules whose
   * progress is 100.
   */
  lemma {:induction false} CompletedModulesCountsFinished(ids: seq<string>, mods: map<string, ModuleState>)
    requires Covers(ids, mods) && NoDuplicates(ids)
    ensures CompletedModules(ids, mods) == |Finished(ids, mods)|
  {
    if ids != [] {
      var init, last := Init(ids), Last(ids);
      assert ids == init + [last];
      CompletedModulesCountsFinished(init, mods);
      assert last !in init by {
        forall k | 0 <= k < |init| ensures init[k] != last {
          assert ids[k] != ids[|ids| - 1];
        }
      }
      if mods[last].progress == 100 {
        assert Finished(ids, mods) == Finished(init, mods) + {last};
      } else {
        assert Finished(ids, mods) == Finished(init, mods);
      }
    }
  }

  /** With no module at 100% the completed count is zero. */
  lemma {:induction false} NoneFinished(ids: seq<string>, mods: map<string, ModuleState>)
    requires Covers(ids, mods)
    requires forall x | x in ids :: mods[x].progress != 100
    ensures CompletedModules(ids, mods) == 0
  {
    if ids != [] {
      NoneFinished(Init(ids), mods);
    }
  }

  /** Exactly one distinct module at 100% makes a completed count of one. */
  lemma ExactlyOneFinished(ids: seq<string>, mods: map<string, ModuleState>, id: string)
    requires Covers(ids, mods) && NoDuplicates(ids) && id in ids
    requires forall x | x in ids :: mods[x].progress == 100 <==> x == id
    ensures CompletedModules(ids, mods) == 1
  {
    CompletedModulesCountsFinished(ids, mods);
    assert Finished(ids, mods) == {id};
  }

  /**
   * With percentages in range, the total reaches its maximum 100 * |ids|
   * exactly when every module counts as completed.
   */
  lemma {:induction false} FullTotalIffAllCompleted(ids: seq<string>, mods: map<string, ModuleState>)
    requires Covers(ids, mods) && ProgressInRange(ids, mods)
    ensures ProgressSum(ids, mods) == 100 * |ids| <==> CompletedModules(ids, mods) == |ids|
  {
    if ids != [] {
      assert Covers(Init(ids), mods) && ProgressInRange(Init(ids), mods);
      FullTotalIffAllCompleted(Init(ids), mods);
    }
  }

  /** Every module counts as completed exactly when each one's progress is 100. */
  lemma {:induction false} AllCompletedIffEvery(ids: seq<string>, mods: map<string, ModuleState>)
    requires Covers(ids, mods)
    ensures CompletedModules(ids, mods) == |ids| <==> forall i | 0 <= i < |ids| :: mods[ids[i]].progress == 100
  {
    if ids != [] {
      var init := Init(ids);
      AllCompletedIffEvery(init, mods);
      if forall i | 0 <= i < |ids| :: mods[ids[i]].progress == 100 {
        assert forall i | 0 <= i < |init| :: mods[init[i]].progress == 100 by {
          forall i | 0 <= i < |init| ensures mods[init[i]].progress == 100 {
            assert init[i] == ids[i];
          }
        }
      }
      if CompletedModules(ids, mods) == |ids| {
        forall i | 0 <= i < |ids| ensures mods[ids[i]].progress == 100 {
          if i < |init| {
            assert init[i] == ids[i];
          }
        }
      }
    }
  }

  /** The overall progress shown by the status report: the mean over all modules. */
  function AverageProgress(ids: seq<string>, mods: map<string, ModuleState>): (average: real)
    requires Covers(ids, mods) && |ids| > 0
    ensures average * |ids| as real == ProgressSum(ids, mods) as real
  {
    ProgressSum(ids, mods) as real / |ids| as real
  }

  /**
   * With percentages in range the average is a percentage, and it is 100
   * exactly when every module counts as completed.
   */
  lemma AverageProgressBounds(ids: seq<string>, mods: map<string, ModuleState>)
    requires Covers(ids, mods) && |ids| > 0 && ProgressInRange(ids, mods)
    ensures 0.0 <= AverageProgress(ids, mods) <= 100.0
    ensures AverageProgress(ids, mods) == 100.0 <==> CompletedModules(ids, mods) == |ids|
  {
    var total := ProgressSum(ids, mods);
    FullTotalIffAllCompleted(ids, mods);
    ScaledBounds(total as real, |ids| as real);
    assert total as real == 100.0 * |ids| as real <==> total == 100 * |ids|;
  }

  /** For a positive count n, 0 <= t <= 100 n gives 0 <= t / n <= 100, with 100 only for t = 100 n. */
  lemma ScaledBounds(t: real, n: real)
    requires n > 0.0 && 0.0 <= t <= 100.0 * n
    ensures 0.0 <= t / n <= 100.0
    ensures t / n == 100.0 <==> t == 100.0 * n
  {
    var q := t / n;
    assert q * n == t;
    if q == 100.0 {
      assert t == 100.0 * n;
    }
  }

  /** `k` is the first position in `ids` whose module has status `status`. */
  predicate IsFirstWith(ids: seq<string>, mods: map<string, ModuleState>, status: string, k: int)
    requires Covers(ids, mods)
  {
    && 0 <= k < |ids|
    && mods[ids[k]].status == status
    && forall j | 0 <= j < k :: mods[ids[j]].status != status
  }

  /** The position of the first module in `ids` with the given status, if any. */
  function FirstWithStatus(ids: seq<string>, mods: map<string, ModuleState>, status: string): (r: Option<nat>)
    requires Covers(ids, mods)
    ensures r.Some? ==> IsFirstWith(ids, mods, status, r.value)
    ensures r.None? ==> forall i | 0 <= i < |ids| :: mods[ids[i]].status != status
  {
    if ids == [] then None
    else if mods[ids[0]].status == status then Some(0)
    else match FirstWithStatus(ids[1..], mods, status)
      case Some(k) => Some(k + 1)
      case None => None
  }

  /**
   * The module the next-steps report tells the learner to continue with: the
   * first one in progress, else the first one not started, else none.
   */
  function CurrentModule(ids: seq<string>, mods: map<string, ModuleState>): (r: Option<string>)
    requires Covers(ids, mods)
    ensures r.None? <==> forall i | 0 <= i < |ids| :: mods[ids[i]].status != InProgress && mods[ids[i]].status != NotStarted
    ensures forall k | IsFirstWith(ids, mods, InProgress, k) :: r == Some(ids[k])
    ensures (forall i | 0 <= i < |ids| :: mods[ids[i]].status != InProgress) ==>
              forall k | IsFirstWith(ids, mods, NotStarted, k) :: r == Some(ids[k])
    ensures r.Some? ==> r.value in ids && (mods[r.value].status == InProgress || mods[r.value].status == NotStarted)
  {
    match FirstWithStatus(ids, mods, InProgress)
    case Some(k) => Some(ids[k])
    case None =>
      match FirstWithStatus(ids, mods, NotStarted)
      case Some(k) => Some(ids[k])
      case None => None
  }

  /** Whether the weekly report lists a module as worked on. */
  predicate IsWorkedOn(m: ModuleState) {
    m.status == InProgress || m.status == Completed
  }

  /** The display names of the modules listed as worked on, in iteration order. */
  function WorkedOn(ids: seq<string>, mods: map<string, ModuleState>): (names: seq<string>)
    requires Covers(ids, mods)
    ensures |names| <= |ids|
  {
    if ids == [] then []
    else WorkedOn(Init(ids), mods) + (if IsWorkedOn(mods[Last(ids)]) then [mods[Last(ids)].name] else [])
  }

  /** The modules in `ids` listed as worked on, as a set. */
  ghost function Worked(ids: seq<string>, mods: map<string, ModuleState>): set<string>
    requires Covers(ids, mods)
  {
    set id | id in ids && IsWorkedOn(mods[id])
  }

  /**
   * The count the weekly report prints is the number of distinct modules in
   * progress or completed: each such module is listed exactly once.
   */
  lemma {:induction false} WorkedOnCountsWorked(ids: seq<string>, mods: map<string, ModuleState>)
    requires Covers(ids, mods) && NoDuplicates(ids)
    ensures |WorkedOn(ids, mods)| == |Worked(ids, mods)|
  {
    if ids != [] {
      var init, last := Init(ids), Last(ids);
      assert ids == init + [last];
      WorkedOnCountsWorked(init, mods);
      assert last !in init by {
        forall k | 0 <= k < |init| ensures init[k] != last {
          assert ids[k] != ids[|ids| - 1];
        }
      }
      if IsWorkedOn(mods[last]) {
        assert Worked(ids, mods) == Worked(init, mods) + {last};
      } else {
        assert Worked(ids, mods) == Worked(init, mods);
      }
    }
  }

  /**
   * The weekly report lists the name of every module in progress or
   * completed, and nothing else.
   */
  lemma {:induction false} WorkedOnListsExactly(ids: seq<string>, mods: map<string, ModuleState>)
    requires Covers(ids, mods)
    ensures forall i | 0 <= i < |ids| && IsWorkedOn(mods[ids[i]]) :: mods[ids[i]].name in WorkedOn(ids, mods)
    ensures forall name | name in WorkedOn(ids, mods) ::
              exists i | 0 <= i < |ids| :: IsWorkedOn(mods[ids[i]]) && mods[ids[i]].name == name
  {
    if ids != [] {
      var init, last := Init(ids), Last(ids);
      WorkedOnListsExactly(init, mods);
      var tail := if IsWorkedOn(mods[last]) then [mods[last].name] else [];
      assert WorkedOn(ids, mods) == WorkedOn(init, mods) + tail;
      forall name | name in WorkedOn(ids, mods)
        ensures exists i | 0 <= i < |ids| :: IsWorkedOn(mods[ids[i]]) && mods[ids[i]].name == name
      {
        if name in WorkedOn(init, mods) {
          var i :| 0 <= i < |init| && IsWorkedOn(mods[init[i]]) && mods[init[i]].name == name;
          assert ids[i] == init[i];
        } else {
          assert IsWorkedOn(mods[ids[|ids| - 1]]) && mods[ids[|ids| - 1]].name == name;
        }
      }
      forall i | 0 <= i < |ids| && IsWorkedOn(mods[ids[i]])
        ensures mods[ids[i]].name in WorkedOn(ids, mods)
      {
        if i < |init| {
          assert init[i] == ids[i];
        }
      }
    }
  }
}
