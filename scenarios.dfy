/**
 * Call sequences on a fresh tracker, proved from the
 * contracts of the class alone.
 */
module Scenarios {
  import opened ProgressState
  import opened Reporting
  import opened Cli
  import opened Tracker

  /** `update 01-operating-systems 50 3` on a fresh tracker. */
  method UpdateFreshModule(now: Timestamp) returns (m: ModuleState)
    ensures m.status == InProgress && m.progress == 50 && m.timeSpent == 3.0
    ensures m.labsCompleted == [] && m.notes == []
  {
    var t := new LearningTracker(now);
    var msg := t.UpdateModuleProgress(ModuleIds[0], 50, Some(StatusFromProgress(50)), 3.0);
    m := t.modules[ModuleIds[0]];
  }

  /**
   * `update <id> 0` then `update <id> 100`: the status goes from not started
   * to completed and the status report counts one completed module.
   */
  method ZeroThenFull(now: Timestamp) returns (before: string, after: string, completed: nat)
    ensures before == NotStarted && after == Completed && completed == 1
  {
    var atZero, atFull := StatusFromProgress(0), StatusFromProgress(100);
    assert atZero == NotStarted && IsGiven(Some(atZero));
    assert atFull == Completed && IsGiven(Some(atFull));
    var t := new LearningTracker(now);
    var id := ModuleIds[3];
    var msg := t.UpdateModuleProgress(id, 0, Some(atZero), 0.0);
    before := t.modules[id].status;
    msg := t.UpdateModuleProgress(id, 100, Some(atFull), 0.0);
    after := t.modules[id].status;
    var summary := t.ShowProgress();
    completed := summary.completedModules;
    ModuleIdsDistinct();
    ExactlyOneFinished(t.order, t.modules, id);
  }

  /** `lab 04-database-management lab1` twice leaves the lab listed once. */
  method SameLabTwice(now: Timestamp) returns (labs: seq<string>, second: Message)
    ensures labs == ["lab1"]
    ensures second == LabAlreadyCompleted("lab1")
  {
    var t := new LearningTracker(now);
    var first := t.CompleteLab(ModuleIds[3], "lab1");
    second := t.CompleteLab(ModuleIds[3], "lab1");
    labs := t.modules[ModuleIds[3]].labsCompleted;
  }

  /**
   * `cert AWS-SAA in_progress` files one entry; `cert X bogus` is refused and
   * changes no bucket.
   */
  method FileCertifications(now: Timestamp) returns (certs: Buckets, refused: Message)
    ensures certs == Buckets([], [Entry("AWS-SAA", now)], [])
    ensures refused == InvalidStatus("bogus")
  {
    var t := new LearningTracker(now);
    var msg := t.AddCertification("AWS-SAA", InProgress, now);
    refused := t.AddCertification("X", "bogus", now);
    certs := t.certifications;
  }
}
