/**
 * The study-progress document kept by the tracker: seven fixed modules, each
 * with a status, a progress percentage, the labs done, the hours spent and
 * study notes, plus two lists split into three buckets (certifications and
 * projects). The edits the tracker applies to the document are written here
 * as functions from the old document to the new one; the class in module
 * Tracker performs the same edits in place and is proved against them.
 */
module ProgressState {

  /** An ISO-8601 time stamp; reading the clock is the caller's business. */
  type Timestamp = string

  datatype Option<T> = None | Some(value: T)

  // Module status values. The bucket names of certifications and projects
  // are "planned", "in_progress" and "completed".
  const NotStarted: string := "not_started"
  const InProgress: string := "in_progress"
  const Completed: string := "completed"
  const Planned: string := "planned"

  datatype Note = Note(date: Timestamp, content: string)

  /** A certification (or project) entry. */
  datatype Entry = Entry(name: string, addedDate: Timestamp)

  datatype ModuleState = ModuleState(
    name: string,
    status: string,
    progress: int,
    labsCompleted: seq<string>,
    timeSpent: real,
    notes: seq<Note>)

  datatype Buckets = Buckets(planned: seq<Entry>, inProgress: seq<Entry>, completed: seq<Entry>)

  /**
   * The whole document. `order` is the iteration order of the `modules`
   * dictionary, which is the order in which its keys were inserted.
   */
  datatype State = State(
    startDate: Timestamp,
    order: seq<string>,
    modules: map<string, ModuleState>,
    certifications: Buckets,
    projects: Buckets)

  /** The seven module ids, in insertion order, and their display names. */
  const ModuleIds: seq<string> := [
    "01-operating-systems",
    "02-virtualization-cloud",
    "03-container-management",
    "04-database-management",
    "05-automation-tools",
    "06-programming",
    "07-soft-skills"
  ]
  const ModuleNames: seq<string> := [
    "Hệ Điều Hành",
    "Ảo hóa & Cloud",
    "Container Management",
    "Database Management",
    "Automation Tools",
    "Programming",
    "Soft Skills"
  ]

  const NoEntries: Buckets := Buckets([], [], [])

  predicate NoDuplicates<T(==)>(s: seq<T>) {
    forall i, j | 0 <= i < j < |s| :: s[i] != s[j]
  }

  /** The invariant every reachable document keeps. */
  ghost predicate WellFormed(s: State) {
    && s.order == ModuleIds
    && (forall id :: id in s.modules <==> id in s.order)
    && (forall id :: id in s.modules ==> NoDuplicates(s.modules[id].labsCompleted))
  }

  lemma ModuleIdsDistinct()
    ensures |ModuleIds| == |ModuleNames| == 7 && NoDuplicates(ModuleIds)
  {
    forall i, j | 0 <= i < j < |ModuleIds|
      ensures ModuleIds[i] != ModuleIds[j]
    {
      assert ModuleIds[i][1] != ModuleIds[j][1];
    }
  }

  /** A sequence without duplicates has as many distinct elements as positions. */
  lemma {:induction false} DistinctElements(ids: seq<string>)
    requires NoDuplicates(ids)
    ensures |set id | id in ids| == |ids|
  {
    if ids != [] {
      var rest := ids[1..];
      DistinctElements(rest);
      assert ids[0] !in rest by {
        forall k | 0 <= k < |rest| ensures rest[k] != ids[0] {
          assert rest[k] == ids[k + 1];
        }
      }
      assert (set id | id in ids) == (set id | id in rest) + {ids[0]};
    }
  }

  /** A well-formed document holds exactly seven modules. */
  lemma ModuleCount(s: State)
    requires WellFormed(s)
    ensures |s.modules| == |s.order| == 7
  {
    ModuleIdsDistinct();
    DistinctElements(s.order);
    assert s.modules.Keys == set id | id in s.order;
  }

  /** A module as first created: not started and nothing recorded. */
  function FreshModule(name: string): ModuleState {
    ModuleState(name, NotStarted, 0, [], 0.0, [])
  }

  predicate IsUntouched(m: ModuleState) {
    m.status == NotStarted && m.progress == 0 && m.labsCompleted == [] && m.timeSpent == 0.0 && m.notes == []
  }

  /** One fresh module per id, with the name at the same position. */
  function FreshModules(ids: seq<string>, names: seq<string>): (m: map<string, ModuleState>)
    requires |ids| == |names| && NoDuplicates(ids)
    ensures forall id :: id in m <==> id in ids
    ensures forall i | 0 <= i < |ids| :: m[ids[i]] == FreshModule(names[i])
    ensures forall id | id in m :: IsUntouched(m[id])
  {
    map i | 0 <= i < |ids| :: ids[i] := FreshModule(names[i])
  }

  /**
   * The document created when no saved one exists: the seven modules, all
   * untouched, and every certification and project bucket empty.
   */
  function DefaultState(now: Timestamp): (s: State)
    ensures s.startDate == now
    ensures s.order == ModuleIds && |s.order| == 7 && NoDuplicates(s.order)
    ensures forall id :: id in s.modules <==> id in ModuleIds
    ensures forall i | 0 <= i < |ModuleIds| :: s.modules[ModuleIds[i]].name == ModuleNames[i]
    ensures forall id | id in s.modules :: IsUntouched(s.modules[id])
    ensures s.certifications == NoEntries && s.projects == NoEntries
    ensures WellFormed(s)
  {
    ModuleIdsDistinct();
    State(now, ModuleIds, FreshModules(ModuleIds, ModuleNames), NoEntries, NoEntries)
  }

  /**
   * `r` differs from `s` at most in the record of module `moduleId`: the start
   * date, the order, the set of module ids, every other module and both
   * bucket lists are as they were.
   */
  predicate OnlyModuleChanged(s: State, r: State, moduleId: string) {
    && r.startDate == s.startDate
    && r.order == s.order
    && r.certifications == s.certifications
    && r.projects == s.projects
    && r.modules.Keys == s.modules.Keys
    && (forall id :: id in s.modules && id != moduleId ==> r.modules[id] == s.modules[id])
  }

  /**
   * Python truthiness of the optional status argument: both a missing status
   * and the empty string count as not given.
   */
  function IsGiven(status: Option<string>): (given: bool)
    ensures status.None? ==> !given
    ensures status == Some("") ==> !given
    ensures status.Some? && |status.value| > 0 ==> given
  {
    status.Some? && status.value != ""
  }

  /**
   * update_module_progress: on a known module, set the progress, add the
   * hours, and overwrite the status only when one is given; an unknown id
   * changes nothing.
   */
  function UpdateProgress(s: State, moduleId: string, progress: int, status: Option<string>, hours: real): (r: State)
    ensures OnlyModuleChanged(s, r, moduleId)
    ensures moduleId !in s.modules ==> r == s
    ensures moduleId in s.modules ==>
      var was, now := s.modules[moduleId], r.modules[moduleId];
      && now.progress == progress
      && now.timeSpent == was.timeSpent + hours
      && now.status == (if IsGiven(status) then status.value else was.status)
      && now.name == was.name
      && now.labsCompleted == was.labsCompleted
      && now.notes == was.notes
    ensures WellFormed(s) ==> WellFormed(r)
  {
    if moduleId in s.modules then
      var m := s.modules[moduleId];
      var m := m.(progress := progress, timeSpent := m.timeSpent + hours);
      var m := if IsGiven(status) then m.(status := status.value) else m;
      s.(modules := s.modules[moduleId := m])
    else
      s
  }

  /**
   * complete_lab: on a known module, append the lab unless it is already
   * listed; an unknown id changes nothing.
   */
  function CompleteLab(s: State, moduleId: string, lab: string): (r: State)
    ensures OnlyModuleChanged(s, r, moduleId)
    ensures moduleId !in s.modules ==> r == s
    ensures moduleId in s.modules ==>
      var was, now := s.modules[moduleId], r.modules[moduleId];
      && now == was.(labsCompleted := now.labsCompleted)
      && (lab in was.labsCompleted ==> now.labsCompleted == was.labsCompleted)
      && (lab !in was.labsCompleted ==> now.labsCompleted == was.labsCompleted + [lab])
      && (NoDuplicates(was.labsCompleted) ==> NoDuplicates(now.labsCompleted))
    ensures WellFormed(s) ==> WellFormed(r)
  {
    if moduleId in s.modules then
      var m := s.modules[moduleId];
      if lab !in m.labsCompleted then
        s.(modules := s.modules[moduleId := m.(labsCompleted := m.labsCompleted + [lab])])
      else
        s
    else
      s
  }

  /** add_note: on a known module, append one note; an unknown id changes nothing. */
  function AddNote(s: State, moduleId: string, note: Note): (r: State)
    ensures OnlyModuleChanged(s, r, moduleId)
    ensures moduleId !in s.modules ==> r == s
    ensures moduleId in s.modules ==>
      var was, now := s.modules[moduleId], r.modules[moduleId];
      && now == was.(notes := now.notes)
      && |now.notes| == |was.notes| + 1
      && now.notes[..|was.notes|] == was.notes
      && now.notes[|was.notes|] == note
    ensures WellFormed(s) ==> WellFormed(r)
  {
    if moduleId in s.modules then
      var m := s.modules[moduleId];
      s.(modules := s.modules[moduleId := m.(notes := m.notes + [note])])
    else
      s
  }

  /** The names under which a certification may be filed. */
  predicate IsBucketName(status: string) {
    status == Planned || status == InProgress || status == Completed
  }

  function Bucket(b: Buckets, status: string): seq<Entry>
    requires IsBucketName(status)
  {
    if status == Planned then b.planned
    else if status == InProgress then b.inProgress
    else b.completed
  }

  /**
   * add_certification: a valid bucket name appends one entry to that bucket
   * only; any other name leaves the document as it was. Projects, modules and
   * the start date are never touched.
   */
  function AddCertification(s: State, name: string, status: string, now: Timestamp): (r: State)
    ensures r.startDate == s.startDate && r.order == s.order
    ensures r.modules == s.modules && r.projects == s.projects
    ensures !IsBucketName(status) ==> r == s
    ensures IsBucketName(status) ==>
      && Bucket(r.certifications, status) == Bucket(s.certifications, status) + [Entry(name, now)]
      && (forall other | IsBucketName(other) && other != status ::
            Bucket(r.certifications, other) == Bucket(s.certifications, other))
    ensures WellFormed(s) ==> WellFormed(r)
  {
    var entry := Entry(name, now);
    var c := s.certifications;
    if status == Planned then
      s.(certifications := c.(planned := c.planned + [entry]))
    else if status == InProgress then
      s.(certifications := c.(inProgress := c.inProgress + [entry]))
    else if status == Completed then
      s.(certifications := c.(completed := c.completed + [entry]))
    else
      s
  }

  /** Calling complete_lab a second time with the same arguments does nothing more. */
  lemma CompleteLabIdempotent(s: State, moduleId: string, lab: string)
    ensures CompleteLab(CompleteLab(s, moduleId, lab), moduleId, lab) == CompleteLab(s, moduleId, lab)
  {
  }

  /** The document after complete_lab has been called once per lab in `labs`, in order. */
  function CompleteLabs(s: State, moduleId: string, labs: seq<string>): State
    decreases |labs|
  {
    if labs == [] then s else CompleteLabs(CompleteLab(s, moduleId, labs[0]), moduleId, labs[1..])
  }

  /**
   * Any run of complete_lab calls on one module keeps its lab list free of
   * duplicates, keeps the earlier labs as a prefix, and leaves exactly the
   * earlier labs together with the new ones.
   */
  lemma {:induction false} CompleteLabsKeepsLabsUnique(s: State, moduleId: string, labs: seq<string>)
    requires moduleId in s.modules
    requires NoDuplicates(s.modules[moduleId].labsCompleted)
    ensures moduleId in CompleteLabs(s, moduleId, labs).modules
    ensures OnlyModuleChanged(s, CompleteLabs(s, moduleId, labs), moduleId)
    ensures var was, now := s.modules[moduleId].labsCompleted, CompleteLabs(s, moduleId, labs).modules[moduleId].labsCompleted;
      && NoDuplicates(now)
      && |was| <= |now| && now[..|was|] == was
      && (forall lab :: lab in now <==> lab in was || lab in labs)
    decreases |labs|
  {
    if labs != [] {
      var s' := CompleteLab(s, moduleId, labs[0]);
      CompleteLabsKeepsLabsUnique(s', moduleId, labs[1..]);
      var was, mid := s.modules[moduleId].labsCompleted, s'.modules[moduleId].labsCompleted;
      var now := CompleteLabs(s', moduleId, labs[1..]).modules[moduleId].labsCompleted;
      assert now[..|was|] == mid[..|mid|][..|was|];
      forall lab
        ensures lab in now <==> lab in was || lab in labs
      {
        assert lab in labs <==> lab == labs[0] || lab in labs[1..];
      }
    }
  }

  /** The document after add_note has been called once per note in `batch`, in order. */
  function AddNotes(s: State, moduleId: string, batch: seq<Note>): State
    decreases |batch|
  {
    if batch == [] then s else AddNotes(AddNote(s, moduleId, batch[0]), moduleId, batch[1..])
  }

  /**
   * Notes are append-only: after N add_note calls the notes are the earlier
   * ones followed by exactly those N notes, in the order they were added.
   */
  lemma {:induction false} AddNotesAppends(s: State, moduleId: string, batch: seq<Note>)
    requires moduleId in s.modules
    ensures moduleId in AddNotes(s, moduleId, batch).modules
    ensures OnlyModuleChanged(s, AddNotes(s, moduleId, batch), moduleId)
    ensures AddNotes(s, moduleId, batch).modules[moduleId].notes == s.modules[moduleId].notes + batch
    decreases |batch|
  {
    if batch != [] {
      var s' := AddNote(s, moduleId, batch[0]);
      AddNotesAppends(s', moduleId, batch[1..]);
      assert s'.modules[moduleId].notes == s.modules[moduleId].notes + [batch[0]];
      assert [batch[0]] + batch[1..] == batch;
    }
  }
}
