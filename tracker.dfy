/**
 * The tracker object. It keeps the progress document in its fields and edits
 * them in place; each edit is proved to leave the fields equal to the
 * corresponding function of module ProgressState applied to the old
 * document, and each report is proved to compute the figures defined in
 * module Reporting. Saving is not modelled beyond counting, in `saveCount`,
 * the times the document would be written back.
 */
module Tracker {
  import opened ProgressState
  import opened Reporting
  import opened Cli

  /** What an edit reports to the user. */
  datatype Message =
    | Updated(name: string, progress: int)
    | ModuleNotFound(moduleId: string)
    | LabCompleted(lab: string)
    | LabAlreadyCompleted(lab: string)
    | NoteAdded(name: string)
    | CertificationAdded(name: string, status: string)
    | InvalidStatus(status: string)

  /** The outcomes after which the document is saved. */
  predicate Persists(msg: Message) {
    msg.Updated? || msg.LabCompleted? || msg.NoteAdded? || msg.CertificationAdded?
  }

  datatype BucketCounts = BucketCounts(planned: nat, inProgress: nat, completed: nat)

  function Counts(b: Buckets): BucketCounts {
    BucketCounts(|b.planned|, |b.inProgress|, |b.completed|)
  }

  /** The figures of the status report. */
  datatype ProgressSummary = ProgressSummary(
    totalProgress: int,
    average: real,
    completedModules: nat,
    certifications: BucketCounts,
    projects: BucketCounts)

  /** The advice of the next-steps report. */
  datatype NextSteps =
    | ContinueWith(moduleId: string, name: string, path: string, readme: Option<string>)
    | AllModulesCompleted

  /** The conventional folder of a module; the id can be read back from it. */
  function ModulePath(moduleId: string): (path: string)
    ensures |path| == |moduleId| + 9
    ensures path[..8] == "modules/" && path[8..|path| - 1] == moduleId && path[|path| - 1] == '/'
  {
    "modules/" + moduleId + "/"
  }

  /** The README the next-steps report looks for, inside the module's folder. */
  function ReadmePath(moduleId: string): (path: string)
    ensures ModulePath(moduleId) <= path
    ensures |path| == |moduleId| + 18 && path[|path| - 9..] == "README.md"
  {
    ModulePath(moduleId) + "README.md"
  }

  /** What one command-line run shows. */
  datatype Output =
    | Usage(moduleIds: seq<string>)
    | StatusAndNextSteps(summary: ProgressSummary, next: NextSteps)
    | Printed(msg: Message)
    | Weekly(hours: real, modulesWorkedOn: seq<string>)
    | InvalidCommand

  class LearningTracker {
    var startDate: Timestamp
    var order: seq<string>
    var modules: map<string, ModuleState>
    var certifications: Buckets
    var projects: Buckets
    ghost var saveCount: nat

    /** The document the fields hold. */
    ghost function Document(): State
      reads this
    {
      State(startDate, order, modules, certifications, projects)
    }

    ghost predicate Valid()
      reads this
    {
      WellFormed(Document())
    }

    /** The tracker as created when there is no saved document. */
    constructor (now: Timestamp)
      ensures Valid()
      ensures Document() == DefaultState(now)
      ensures saveCount == 0
    {
      var s := DefaultState(now);
      startDate := s.startDate;
      order := s.order;
      modules := s.modules;
      certifications := s.certifications;
      projects := s.projects;
      saveCount := 0;
    }

    method UpdateModuleProgress(moduleId: string, progress: int, status: Option<string>, hours: real) returns (msg: Message)
      requires Valid()
      modifies this
      ensures Valid()
      ensures Document() == UpdateProgress(old(Document()), moduleId, progress, status, hours)
      ensures msg == if moduleId in old(modules) then Updated(old(modules)[moduleId].name, progress)
                     else ModuleNotFound(moduleId)
      ensures saveCount == old(saveCount) + (if Persists(msg) then 1 else 0)
    {
      if moduleId in modules {
        modules := modules[moduleId := modules[moduleId].(progress := progress)];
        modules := modules[moduleId := modules[moduleId].(timeSpent := modules[moduleId].timeSpent + hours)];
        if IsGiven(status) {
          modules := modules[moduleId := modules[moduleId].(status := status.value)];
        }
        assert modules == old(modules)[moduleId := modules[moduleId]];
        assert modules[moduleId] == UpdateProgress(old(Document()), moduleId, progress, status, hours).modules[moduleId];
        saveCount := saveCount + 1;
        msg := Updated(modules[moduleId].name, progress);
      } else {
        msg := ModuleNotFound(moduleId);
      }
    }

    method CompleteLab(moduleId: string, lab: string) returns (msg: Message)
      requires Valid()
      modifies this
      ensures Valid()
      ensures Document() == ProgressState.CompleteLab(old(Document()), moduleId, lab)
      ensures msg == if moduleId !in old(modules) then ModuleNotFound(moduleId)
                     else if lab in old(modules)[moduleId].labsCompleted then LabAlreadyCompleted(lab)
                     else LabCompleted(lab)
      ensures saveCount == old(saveCount) + (if Persists(msg) then 1 else 0)
    {
      if moduleId in modules {
        if lab !in modules[moduleId].labsCompleted {
          modules := modules[moduleId := modules[moduleId].(labsCompleted := modules[moduleId].labsCompleted + [lab])];
          saveCount := saveCount + 1;
          msg := LabCompleted(lab);
        } else {
          msg := LabAlreadyCompleted(lab);
        }
      } else {
        msg := ModuleNotFound(moduleId);
      }
    }

    method AddNote(moduleId: string, content: string, now: Timestamp) returns (msg: Message)
      requires Valid()
      modifies this
      ensures Valid()
      ensures Document() == ProgressState.AddNote(old(Document()), moduleId, Note(now, content))
      ensures msg == if moduleId in old(modules) then NoteAdded(old(modules)[moduleId].name)
                     else ModuleNotFound(moduleId)
      ensures saveCount == old(saveCount) + (if Persists(msg) then 1 else 0)
    {
      if moduleId in modules {
        var entry := Note(now, content);
        modules := modules[moduleId := modules[moduleId].(notes := modules[moduleId].notes + [entry])];
        saveCount := saveCount + 1;
        msg := NoteAdded(modules[moduleId].name);
      } else {
        msg := ModuleNotFound(moduleId);
      }
    }

    method AddCertification(name: string, status: string, now: Timestamp) returns (msg: Message)
      requires Valid()
      modifies this
      ensures Valid()
      ensures Document() == ProgressState.AddCertification(old(Document()), name, status, now)
      ensures msg == if IsBucketName(status) then CertificationAdded(name, status) else InvalidStatus(status)
      ensures saveCount == old(saveCount) + (if Persists(msg) then 1 else 0)
    {
      var entry := Entry(name, now);
      if status == Planned {
        certifications := certifications.(planned := certifications.planned + [entry]);
      } else if status == InProgress {
        certifications := certifications.(inProgress := certifications.inProgress + [entry]);
      } else if status == Completed {
        certifications := certifications.(completed := certifications.completed + [entry]);
      } else {
        msg := InvalidStatus(status);
        return;
      }
      saveCount := saveCount + 1;
      msg := CertificationAdded(name, status);
    }

    /**
     * The figures of the status report: the progress total, the number of
     * modules at 100%, the average over all modules and the bucket sizes.
     */
    method ShowProgress() returns (summary: ProgressSummary)
      requires Valid()
      ensures Covers(order, modules) && |order| == 7
      ensures summary.totalProgress == ProgressSum(order, modules)
      ensures summary.completedModules == CompletedModules(order, modules) <= 7
      ensures summary.average == AverageProgress(order, modules)
      ensures summary.certifications == Counts(certifications) && summary.projects == Counts(projects)
    {
      ModuleCount(Document());
      var total := 0;
      var completed := 0;
      var i := 0;
      while i < |order|
        invariant 0 <= i <= |order|
        invariant total == ProgressSum(order[..i], modules)
        invariant completed == CompletedModules(order[..i], modules)
      {
        assert Init(order[..i + 1]) == order[..i] && Last(order[..i + 1]) == order[i];
        var progress := modules[order[i]].progress;
        total := total + progress;
        if progress == 100 {
          completed := completed + 1;
        }
        i := i + 1;
      }
      assert order[..i] == order;
      var average := total as real / |modules| as real;
      summary := ProgressSummary(total, average, completed, Counts(certifications), Counts(projects));
    }

    /**
     * One search loop of the next-steps report: the first module, in
     * iteration order, whose status is `status`.
     */
    method FindFirstWithStatus(status: string) returns (found: Option<string>)
      requires Valid()
      ensures Covers(order, modules)
      ensures found.None? <==> forall j | 0 <= j < |order| :: modules[order[j]].status != status
      ensures forall k | IsFirstWith(order, modules, status, k) :: found == Some(order[k])
    {
      found := None;
      var i := 0;
      while i < |order|
        invariant 0 <= i <= |order|
        invariant forall j | 0 <= j < i :: modules[order[j]].status != status
      {
        if modules[order[i]].status == status {
          assert IsFirstWith(order, modules, status, i);
          found := Some(order[i]);
          break;
        }
        i := i + 1;
      }
    }

    /**
     * The advice of the next-steps report: continue with the first module in
     * progress, else the first one not started, pointing at its README when
     * `readmeExists` says there is one; otherwise all modules are done.
     */
    method ShowNextSteps(readmeExists: string -> bool) returns (next: NextSteps)
      requires Valid()
      ensures Covers(order, modules)
      ensures next.AllModulesCompleted? <==> CurrentModule(order, modules).None?
      ensures next.ContinueWith? ==>
        && CurrentModule(order, modules) == Some(next.moduleId)
        && next.moduleId in modules
        && next.name == modules[next.moduleId].name
        && next.path == ModulePath(next.moduleId)
        && next.readme == (if readmeExists(ReadmePath(next.moduleId)) then Some(ReadmePath(next.moduleId)) else None)
    {
      var current := FindFirstWithStatus(InProgress);
      if current.None? {
        current := FindFirstWithStatus(NotStarted);
      }
      assert current == CurrentModule(order, modules);
      if current.Some? {
        var moduleId := current.value;
        var readme := ReadmePath(moduleId);
        next := ContinueWith(moduleId, modules[moduleId].name, ModulePath(moduleId),
                             if readmeExists(readme) then Some(readme) else None);
      } else {
        next := AllModulesCompleted;
      }
    }

    /**
     * The weekly report: the names of the modules in progress or completed,
     * in iteration order, and an hours figure that is always 0.
     */
    method GenerateWeeklyReport() returns (hours: real, worked: seq<string>)
      requires Valid()
      ensures Covers(order, modules)
      ensures hours == 0.0
      ensures worked == WorkedOn(order, modules)
    {
      hours := 0.0;
      worked := [];
      var i := 0;
      while i < |order|
        invariant 0 <= i <= |order|
        invariant worked == WorkedOn(order[..i], modules)
      {
        assert Init(order[..i + 1]) == order[..i] && Last(order[..i + 1]) == order[i];
        var m := modules[order[i]];
        if m.status == InProgress || m.status == Completed {
          worked := worked + [m.name];
        }
        i := i + 1;
      }
      assert order[..i] == order;
    }

    /** One command-line run on this tracker: the selected command is carried out. */
    method Execute(c: Command, now: Timestamp, readmeExists: string -> bool) returns (out: Output)
      requires Valid()
      modifies this
      ensures Valid()
      ensures Document() == Apply(old(Document()), c, now)
      ensures c.ShowUsage? ==> out == Usage(order)
      ensures c.Rejected? ==> out == InvalidCommand
      ensures c.ShowReport? ==> Covers(order, modules) && out == Weekly(0.0, WorkedOn(order, modules))
      ensures c.ShowStatus? ==>
        && Covers(order, modules) && |order| == 7
        && out.StatusAndNextSteps?
        && out.summary.totalProgress == ProgressSum(order, modules)
        && out.summary.average == AverageProgress(order, modules)
        && out.summary.completedModules == CompletedModules(order, modules)
        && out.summary.certifications == Counts(certifications)
        && out.summary.projects == Counts(projects)
        && (out.next.AllModulesCompleted? <==> CurrentModule(order, modules).None?)
        && (out.next.ContinueWith? ==>
              && CurrentModule(order, modules) == Some(out.next.moduleId)
              && out.next.moduleId in modules
              && out.next.name == modules[out.next.moduleId].name
              && out.next.path == ModulePath(out.next.moduleId)
              && out.next.readme == (if readmeExists(ReadmePath(out.next.moduleId))
                                     then Some(ReadmePath(out.next.moduleId)) else None))
      ensures c.SetProgress? ==>
        out == Printed(if c.moduleId in old(modules) then Updated(old(modules)[c.moduleId].name, c.progress)
                       else ModuleNotFound(c.moduleId))
      ensures c.MarkLab? ==>
        out == Printed(if c.moduleId !in old(modules) then ModuleNotFound(c.moduleId)
                       else if c.lab in old(modules)[c.moduleId].labsCompleted then LabAlreadyCompleted(c.lab)
                       else LabCompleted(c.lab))
      ensures c.WriteNote? ==>
        out == Printed(if c.moduleId in old(modules) then NoteAdded(old(modules)[c.moduleId].name)
                       else ModuleNotFound(c.moduleId))
      ensures c.TrackCertification? ==>
        out == Printed(if IsBucketName(c.status) then CertificationAdded(c.name, c.status)
                       else InvalidStatus(c.status))
      ensures saveCount == old(saveCount) + (if out.Printed? && Persists(out.msg) then 1 else 0)
    {
      match c {
        case ShowUsage =>
          out := Usage(order);
        case ShowStatus =>
          var summary := ShowProgress();
          var next := ShowNextSteps(readmeExists);
          out := StatusAndNextSteps(summary, next);
        case SetProgress(moduleId, progress, status, hours) =>
          var msg := UpdateModuleProgress(moduleId, progress, Some(status), hours);
          out := Printed(msg);
        case MarkLab(moduleId, lab) =>
          var msg := CompleteLab(moduleId, lab);
          out := Printed(msg);
        case WriteNote(moduleId, text) =>
          var msg := AddNote(moduleId, text, now);
          out := Printed(msg);
        case TrackCertification(name, status) =>
          var msg := AddCertification(name, status, now);
          out := Printed(msg);
        case ShowReport =>
          var hours, worked := GenerateWeeklyReport();
          out := Weekly(hours, worked);
        case Rejected =>
          out := InvalidCommand;
      }
    }
  }
}
