/**
 * The command-line front end: how the arguments select one operation, how
 * the `update` command derives a status from the progress it is given, and
 * what the selected operation does to the document. Turning argument text
 * into numbers is left to the `parseInt` and `parseFloat` parameters.
 */
module Cli {
  import opened ProgressState
  import opened Reporting

  /** The status the `update` command files with a progress value. */
  function StatusFromProgress(progress: int): (status: string)
    ensures status == NotStarted <==> progress == 0
    ensures status == Completed <==> progress == 100
    ensures status == InProgress <==> progress != 0 && progress != 100
  {
    if progress == 0 then NotStarted
    else if progress == 100 then Completed
    else InProgress
  }

  datatype Command =
    | ShowUsage
    | ShowStatus
    | SetProgress(moduleId: string, progress: int, status: string, hours: real)
    | MarkLab(moduleId: string, lab: string)
    | WriteNote(moduleId: string, text: string)
    | TrackCertification(name: string, status: string)
    | ShowReport
    | Rejected

  /** The words joined with single spaces, as Python's `" ".join(words)`. */
  function JoinWords(words: seq<string>): (joined: string)
    ensures words == [] ==> joined == ""
    ensures words != [] ==> words[0] <= joined
    ensures |words| > 1 ==> |words[0]| < |joined| && joined[|words[0]|] == ' '
  {
    if words == [] then ""
    else if |words| == 1 then words[0]
    else words[0] + " " + JoinWords(words[1..])
  }

  /** The text cut at every space, as Python's `text.split(" ")`. */
  function SplitAtSpaces(text: string): (parts: seq<string>)
    ensures |parts| >= 1
  {
    if text == [] then [""]
    else
      var rest := SplitAtSpaces(text[1..]);
      if text[0] == ' ' then [""] + rest
      else [[text[0]] + rest[0]] + rest[1..]
  }

  /** A word without spaces in front of `tail` extends the first part of `tail`. */
  lemma {:induction false} SplitAfterWord(word: string, tail: string)
    requires ' ' !in word
    ensures SplitAtSpaces(word + tail)
         == [word + SplitAtSpaces(tail)[0]] + SplitAtSpaces(tail)[1..]
  {
    if word != [] {
      assert (word + tail)[0] == word[0];
      assert (word + tail)[1..] == word[1..] + tail;
      SplitAfterWord(word[1..], tail);
      assert [word[0]] + (word[1..] + SplitAtSpaces(tail)[0]) == word + SplitAtSpaces(tail)[0];
    } else {
      var parts := SplitAtSpaces(tail);
      assert word + tail == tail && word + parts[0] == parts[0];
      assert [parts[0]] + parts[1..] == parts;
    }
  }

  /**
   * Joining words that hold no space and cutting the result at the spaces
   * gives the words back: the note text keeps every word of the command line.
   */
  lemma {:induction false} JoinThenSplit(words: seq<string>)
    requires words != []
    requires forall i | 0 <= i < |words| :: ' ' !in words[i]
    ensures SplitAtSpaces(JoinWords(words)) == words
  {
    if |words| == 1 {
      SplitAfterWord(words[0], "");
      assert words[0] + "" == words[0];
    } else {
      var rest := JoinWords(words[1..]);
      JoinThenSplit(words[1..]);
      assert JoinWords(words) == words[0] + (" " + rest);
      SplitAfterWord(words[0], " " + rest);
      assert (" " + rest)[1..] == rest;
      assert SplitAtSpaces(" " + rest) == [""] + words[1..];
      assert words[0] + "" == words[0];
      assert words == [words[0]] + words[1..];
    }
  }

  /**
   * The operation selected by the argument vector (`argv[0]` is the program
   * name): the command word and the least number of arguments each command
   * needs; surplus arguments are ignored.
   */
  function Dispatch(argv: seq<string>, parseInt: string -> int, parseFloat: string -> real): (c: Command)
    ensures c.ShowUsage? <==> |argv| < 2
    ensures c.ShowStatus? <==> |argv| >= 2 && argv[1] == "status"
    ensures c.SetProgress? <==> |argv| >= 4 && argv[1] == "update"
    ensures c.MarkLab? <==> |argv| >= 4 && argv[1] == "lab"
    ensures c.WriteNote? <==> |argv| >= 4 && argv[1] == "note"
    ensures c.TrackCertification? <==> |argv| >= 3 && argv[1] == "cert"
    ensures c.ShowReport? <==> |argv| >= 2 && argv[1] == "report"
    ensures c.SetProgress? ==>
      && c.moduleId == argv[2]
      && c.progress == parseInt(argv[3])
      && c.status == StatusFromProgress(c.progress)
      && c.hours == (if |argv| > 4 then parseFloat(argv[4]) else 0.0)
    ensures c.MarkLab? ==> c.moduleId == argv[2] && c.lab == argv[3]
    ensures c.WriteNote? ==> c.moduleId == argv[2] && c.text == JoinWords(argv[3..])
    ensures c.TrackCertification? ==>
      c.name == argv[2] && c.status == (if |argv| > 3 then argv[3] else Planned)
  {
    if |argv| < 2 then ShowUsage
    else
      var command := argv[1];
      if command == "status" then ShowStatus
      else if command == "update" && |argv| >= 4 then
        var progress := parseInt(argv[3]);
        var hours := if |argv| > 4 then parseFloat(argv[4]) else 0.0;
        SetProgress(argv[2], progress, StatusFromProgress(progress), hours)
      else if command == "lab" && |argv| >= 4 then MarkLab(argv[2], argv[3])
      else if command == "note" && |argv| >= 4 then WriteNote(argv[2], JoinWords(argv[3..]))
      else if command == "cert" && |argv| >= 3 then
        TrackCertification(argv[2], if |argv| > 3 then argv[3] else Planned)
      else if command == "report" then ShowReport
      else Rejected
  }

  /** The document after running one command; `now` stamps new notes and entries. */
  function Apply(s: State, c: Command, now: Timestamp): (r: State)
    ensures WellFormed(s) ==> WellFormed(r)
    ensures r.startDate == s.startDate && r.order == s.order && r.projects == s.projects
    ensures c.ShowUsage? || c.ShowStatus? || c.ShowReport? || c.Rejected? ==> r == s
  {
    match c
    case SetProgress(moduleId, progress, status, hours) => UpdateProgress(s, moduleId, progress, Some(status), hours)
    case MarkLab(moduleId, lab) => CompleteLab(s, moduleId, lab)
    case WriteNote(moduleId, text) => AddNote(s, moduleId, Note(now, text))
    case TrackCertification(name, status) => AddCertification(s, name, status, now)
    case _ => s
  }

  /**
   * Every module's status is the one the `update` command derives from its
   * progress. Status and progress are separate fields, so only a document
   * edited through the command line is bound to keep this.
   */
  ghost predicate CliConsistent(s: State) {
    forall id :: id in s.modules ==> s.modules[id].status == StatusFromProgress(s.modules[id].progress)
  }

  lemma DefaultIsCliConsistent(now: Timestamp)
    ensures CliConsistent(DefaultState(now))
  {
  }

  /** Every command the arguments can select keeps the document consistent. */
  lemma DispatchKeepsCliConsistent(s: State, argv: seq<string>, parseInt: string -> int, parseFloat: string -> real, now: Timestamp)
    requires CliConsistent(s)
    ensures CliConsistent(Apply(s, Dispatch(argv, parseInt, parseFloat), now))
  {
  }

  /**
   * On a document edited only through the command line the two signals
   * agree: the next-steps report selects no module exactly when the status
   * report counts every module as completed.
   */
  lemma AllDoneIffAllCompleted(s: State)
    requires WellFormed(s) && CliConsistent(s)
    ensures Covers(s.order, s.modules)
    ensures CurrentModule(s.order, s.modules).None? <==> CompletedModules(s.order, s.modules) == |s.order|
  {
    AllCompletedIffEvery(s.order, s.modules);
  }

  /**
   * Setting a status directly, without the command line's derivation, lets
   * the status and the completed count disagree: a fresh document with one
   * module filed as completed at 50% still counts no completed module.
   */
  lemma StatusCanDisagreeWithProgress(now: Timestamp)
    ensures var s := UpdateProgress(DefaultState(now), ModuleIds[0], 50, Some(Completed), 0.0);
      && Covers(s.order, s.modules)
      && s.modules[ModuleIds[0]].status == Completed
      && CompletedModules(s.order, s.modules) == 0
  {
    var s0, id := DefaultState(now), ModuleIds[0];
    assert id in s0.modules && IsGiven(Some(Completed));
    var s := UpdateProgress(s0, id, 50, Some(Completed), 0.0);
    forall x | x in s.order
      ensures s.modules[x].progress != 100
    {
      if x != id {
        assert s.modules[x] == s0.modules[x];
      }
    }
    NoneFinished(s.order, s.modules);
  }
}
