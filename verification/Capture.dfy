// An image capture: uploads from the captured machine, the manifest that ends them, cancellation from
// the console, the background verification that puts the image into the library, and restarts.
module Capture {
  import opened Words
  import opened Wrappers

  datatype Task = Pending | Running | Verifying | Done | Failed | Cancelled

  predicate Open(t: Task) { t.Pending? || t.Running? }

  // A stream file of the manifest and its digest.
  datatype Part = Part(file: string, sha: string)

  // The staging folder, or the image folder in the library. `records` holds, beside each file, the
  // digest computed while it was received.
  datatype Folder = Folder(files: map<string, bytes>, records: map<string, string>, manifest: Option<seq<Part>>)

  // Where the file or folder behind an open handle is now.
  datatype Home = InStaging | InLibrary | Unlinked

  // Where one agent request is.
  datatype Agent =
    | Idle
    | Uploading(file: string, got: bytes, home: Home)   // streaming; `got` has been received
    | MustFail                       // about to mark the task failed, without looking at its state
    | Checking(parts: seq<Part>)     // past the open-task check, the manifest received
    | Approved(parts: seq<Part>)     // the manifest agrees with the received files
    | Refused                        // marked failed, about to remove the staging folder
    | Deleting(home: Home)           // removing it, entry by entry, through an open handle
    | Written                        // manifest.json is staged

  datatype Verifier = Off | Rereading(parts: seq<Part>, k: nat) | Entered | Removing

  datatype State = State(
    task: Task, staging: Option<Folder>, library: Option<Folder>,
    agents: seq<Agent>, removing: bool, verifier: Verifier)

  datatype Step =
    | BeginUpload(a: nat, file: string)
    | NoRoom(a: nat)                   // refused before the first byte
    | WriteSome(a: nat, data: bytes)   // more of the file arrives
    | EndUpload(a: nat)
    | DropUpload(a: nat)               // the disk filled up on the way
    | FailTask(a: nat)
    | BeginFinish(a: nat, parts: seq<Part>)
    | CheckManifest(a: nat)
    | RefuseManifest(a: nat)           // malformed, or of a disk it does not describe
    | RemoveStaging(a: nat)
    | DeleteFile(a: nat, file: string)
    | DeleteRecord(a: nat, file: string)
    | DeleteManifest(a: nat)
    | EndRemove(a: nat)                // every entry gone, or what is left is left
    | StageManifest(a: nat)
    | CloseUploads(a: nat)
    | Break(a: nat)                    // the request dies where it is: a lost connection, anything raised
    | Cancel | CancelRemoves
    | VerifyStart | Reread | Enter | MarkDone | VerifyFails | VerifyRemoves
    | Restart

  function At(s: State, a: nat, agent: Agent): State
    requires a < |s.agents|
  {
    s.(agents := s.agents[a := agent])
  }

  // Open handles on a file, or on a whole folder and all its files, go where it goes.
  function Rehome(agents: seq<Agent>, file: Option<string>, from: Home, to: Home): (r: seq<Agent>)
    ensures |r| == |agents|
  {
    seq(|agents|, i requires 0 <= i < |agents| =>
      var g := agents[i];
      if g.Uploading? && g.home == from && (file.None? || file.value == g.file) then g.(home := to)
      else if g.Deleting? && g.home == from && file.None? then g.(home := to)
      else g)
  }

  function DropStaging(s: State): State { s.(staging := None, agents := Rehome(s.agents, None, InStaging, Unlinked)) }

  function DropFile(s: State, file: string): State {
    if s.staging.None? then s
    else
      var f := s.staging.value;
      s.(staging := Some(f.(files := f.files - {file}, records := f.records - {file})),
         agents := Rehome(s.agents, Some(file), InStaging, Unlinked))
  }

  function Behind(s: State, home: Home): Option<Folder> {
    match home
    case InStaging => s.staging
    case InLibrary => s.library
    case Unlinked => None
  }

  // Changes the folder a handle is on.
  function Change(s: State, home: Home, f: Folder): State {
    match home
    case InStaging => s.(staging := Some(f))
    case InLibrary => s.(library := Some(f))
    case Unlinked => s
  }

  // A handle writes at its own offset, over whatever another handle has put there.
  function Patched(b: bytes, at: nat, data: bytes): bytes {
    (if at <= |b| then b[..at] else b + Zeros(at - |b|)) + data + (if at + |data| <= |b| then b[at + |data|..] else [])
  }

  function WriteTo(f: Folder, file: string, at: nat, data: bytes): Folder {
    if file !in f.files then f else f.(files := f.files[file := Patched(f.files[file], at, data)])
  }

  predicate Matches(p: Part, f: Folder, sha: bytes -> string) { p.file in f.files && sha(f.files[p.file]) == p.sha }

  // Every file has arrived, and the digest computed on arrival is the manifest's.
  predicate Received(parts: seq<Part>, f: Folder) {
    forall p | p in parts :: p.file in f.files && p.file in f.records && f.records[p.file] == p.sha
  }

  predicate IsUpload(step: Step) {
    step.BeginUpload? || step.NoRoom? || step.WriteSome? || step.EndUpload? || step.DropUpload?
  }

  predicate IsFinish(step: Step) {
    || step.FailTask? || step.BeginFinish? || step.CheckManifest? || step.RefuseManifest?
    || step.StageManifest? || step.CloseUploads? || step.Break?
  }

  predicate IsRemoval(step: Step) {
    step.RemoveStaging? || step.DeleteFile? || step.DeleteRecord? || step.DeleteManifest? || step.EndRemove?
  }

  // Steps of an upload. Opening removes the old record and truncates the file.
  function UploadStep(s: State, step: Step, sha: bytes -> string): State
    requires IsUpload(step)
  {
    if step.a >= |s.agents| then s
    else
      var a := step.a;
      match (step, s.agents[a])
      case (BeginUpload(_, file), Idle) =>
        if !Open(s.task) then s
        else
          var f := if s.staging.None? then Folder(map[], map[], None) else s.staging.value;
          At(s.(staging := Some(f.(files := f.files[file := []], records := f.records - {file}))), a,
             Uploading(file, [], InStaging))
      case (NoRoom(_), Idle) =>
        if !Open(s.task) then s
        else
          At(s.(staging := if s.staging.None? then Some(Folder(map[], map[], None)) else s.staging), a, MustFail)
      case (WriteSome(_, data), Uploading(file, got, home)) =>
        var s := At(s, a, Uploading(file, got + data, home));
        if Behind(s, home).None? then s else Change(s, home, WriteTo(Behind(s, home).value, file, |got|, data))
      case (EndUpload(_), Uploading(file, got, _)) =>
        if Open(s.task) then
          if s.staging.None? then At(s.(task := Running), a, MustFail)
          else
            var f := s.staging.value;
            At(s.(task := Running, staging := Some(f.(records := f.records[file := sha(got)]))), a, Idle)
        else At(DropFile(s, file), a, Idle)
      case (DropUpload(_), Uploading(file, _, _)) => At(DropFile(s, file), a, MustFail)
      case _ => s
  }

  // Steps of the request that ends the uploads.
  function FinishStep(s: State, step: Step): State
    requires IsFinish(step)
  {
    if step.a >= |s.agents| then s
    else
      var a := step.a;
      match (step, s.agents[a])
      case (FailTask(_), MustFail) => At(s.(task := Failed), a, Idle)
      case (BeginFinish(_, parts), Idle) => if Open(s.task) then At(s, a, Checking(parts)) else s
      case (CheckManifest(_), Checking(parts)) =>
        if s.staging.Some? && Received(parts, s.staging.value) then At(s, a, Approved(parts))
        else At(s.(task := Failed), a, Refused)
      case (RefuseManifest(_), Checking(_)) => At(s.(task := Failed), a, Refused)
      case (StageManifest(_), Approved(parts)) =>
        if s.staging.None? then At(s, a, Idle)   // the write raises
        else
          At(s.(staging := Some(s.staging.value.(manifest := Some(parts)))), a,
             if s.library.Some? then MustFail else Written)
      case (CloseUploads(_), Written) =>
        if Open(s.task) then At(s.(task := Verifying), a, Idle) else At(s, a, Idle)
      case (Break(_), _) => At(s, a, Idle)
      case _ => s
  }

  // Steps of rmtree. The folder may be renamed in the meantime; its handle is still on it.
  function RemovalStep(s: State, step: Step): State
    requires IsRemoval(step)
  {
    if step.a >= |s.agents| then s
    else
      var a := step.a;
      if s.agents[a].Refused? then
        if step.RemoveStaging? then At(s, a, if s.staging.None? then Idle else Deleting(InStaging)) else s
      else if !s.agents[a].Deleting? then s
      else if step.EndRemove? then
        At(if s.agents[a].home.InStaging? && s.staging == Some(Folder(map[], map[], None)) then DropStaging(s) else s,
           a, Idle)
      else
        var home := s.agents[a].home;
        if Behind(s, home).None? then s
        else
          var f := Behind(s, home).value;
          match step
          case DeleteFile(_, file) =>
            Change(s, home, f.(files := f.files - {file})).(agents := Rehome(s.agents, Some(file), home, Unlinked))
          case DeleteRecord(_, file) => Change(s, home, f.(records := f.records - {file}))
          case DeleteManifest(_) => Change(s, home, f.(manifest := None))
          case _ => s
  }

  function ServerStep(s: State, step: Step, sha: bytes -> string): State {
    match step
    case Cancel => if Open(s.task) then s.(task := Cancelled, removing := true) else s
    case CancelRemoves => if s.removing then DropStaging(s).(removing := false) else s
    case VerifyStart =>
      if s.verifier.Off? && s.task.Verifying? && s.staging.Some? && s.staging.value.manifest.Some?
      then s.(verifier := Rereading(s.staging.value.manifest.value, 0)) else s
    case Reread =>
      if s.verifier.Rereading? && s.verifier.k < |s.verifier.parts| && s.staging.Some?
         && Matches(s.verifier.parts[s.verifier.k], s.staging.value, sha)
      then s.(verifier := s.verifier.(k := s.verifier.k + 1)) else s
    case Enter =>
      // the records are removed, and the folder is renamed into the library
      if s.verifier.Rereading? && s.verifier.k == |s.verifier.parts| && s.staging.Some? && s.library.None?
      then s.(library := Some(s.staging.value.(records := map[])), staging := None, verifier := Entered,
              agents := Rehome(s.agents, None, InStaging, InLibrary))
      else s
    case MarkDone =>
      if s.verifier.Entered? then s.(task := if s.task.Verifying? then Done else s.task, verifier := Off) else s
    case VerifyFails =>
      // a mismatch, an existing target, an unreadable manifest, or anything the thread raises: also
      // after the rename, when it could not write the task's row
      if s.verifier.Rereading? || s.verifier.Entered? then
        if s.task.Verifying? then s.(task := Failed, verifier := Removing) else s.(verifier := Off)
      else s
    case VerifyRemoves => if s.verifier.Removing? then DropStaging(s).(verifier := Off) else s
    case Restart =>
      var landed := s.library.Some? && s.library.value.manifest.Some?;
      var staged := s.staging.Some? && s.staging.value.manifest.Some?;
      s.(agents := seq(|s.agents|, _ => Idle), removing := false, verifier := Off,
         task := if s.task.Running? then (if landed then Done else Failed)
                 else if s.task.Verifying? then (if landed then Done else if staged then Verifying else Failed)
                 else s.task)
    case _ => s
  }

  function Next(s: State, step: Step, sha: bytes -> string): State {
    if IsUpload(step) then UploadStep(s, step, sha)
    else if IsFinish(step) then FinishStep(s, step)
    else if IsRemoval(step) then RemovalStep(s, step)
    else ServerStep(s, step, sha)
  }

  function Run(s: State, steps: seq<Step>, sha: bytes -> string): State {
    if steps == [] then s else Next(Run(s, steps[..|steps| - 1], sha), steps[|steps| - 1], sha)
  }

  // A task that has left pending and running does not return, however many requests overlap.
  lemma ClosedStaysClosed(s: State, step: Step, sha: bytes -> string)
    requires !Open(s.task)
    ensures !Open(Next(s, step, sha).task)
  { }

  // Every stream file of the image matches its digest.
  ghost predicate Good(f: Folder, sha: bytes -> string) {
    f.manifest.Some? && forall p | p in f.manifest.value :: Matches(p, f, sha)
  }

  // What holds throughout when agent requests are served one at a time.
  ghost predicate Inv(s: State, sha: bytes -> string) {
    && |s.agents| == 1
    && (s.library.Some? ==>
          && Good(s.library.value, sha) && s.agents[0].Idle? && !Open(s.task) && s.task != Cancelled
          && (s.task.Verifying? ==> s.verifier.Entered?))
    && (s.task.Done? ==> s.library.Some?)
    && (s.task.Verifying? || s.task.Done? ==> s.agents[0].Idle? && !s.removing)
    && (s.verifier.Rereading? ==>
          && s.task.Verifying? && s.staging.Some? && s.staging.value.manifest == Some(s.verifier.parts)
          && s.verifier.k <= |s.verifier.parts|
          && forall j | 0 <= j < s.verifier.k :: Matches(s.verifier.parts[j], s.staging.value, sha))
    && (s.verifier.Entered? ==> s.task.Verifying? && s.library.Some?)
    && (s.verifier.Removing? ==> s.task.Failed?)
    && (s.agents[0].Refused? || s.agents[0].Deleting? ==> s.task.Failed?)
    && (s.agents[0].Deleting? ==> s.agents[0].home != InLibrary)
    && (s.agents[0].Uploading? ==> s.agents[0].home != InLibrary)
    && (s.removing ==> !Open(s.task))
  }

  // The task ends failed although its image is in the library.
  predicate FailedButIn(s: State) { s.task.Failed? && s.library.Some? }

  // What one step may do to an image and to the verdict about it.
  ghost predicate StepOk(s: State, step: Step, e: State, sha: bytes -> string) {
    && Inv(e, sha)
    && (s.library.None? && e.library.Some? ==>
          step.Enter? && s.staging.Some? && Good(s.staging.value, sha)
          && e.library == Some(s.staging.value.(records := map[])))
    && (s.library.Some? ==> e.library == s.library)
    && (FailedButIn(e) <==> FailedButIn(s) || (step.VerifyFails? && s.verifier.Entered?))
  }

  lemma UploadKeeps(s: State, step: Step, sha: bytes -> string)
    requires Inv(s, sha) && IsUpload(step)
    ensures StepOk(s, step, UploadStep(s, step, sha), sha)
  {
    hide Matches, Patched;
  }

  lemma FinishKeeps(s: State, step: Step, sha: bytes -> string)
    requires Inv(s, sha) && IsFinish(step)
    ensures StepOk(s, step, FinishStep(s, step), sha)
  {
    hide Matches, Received;
  }

  lemma RemovalKeeps(s: State, step: Step, sha: bytes -> string)
    requires Inv(s, sha) && IsRemoval(step)
    ensures StepOk(s, step, RemovalStep(s, step), sha)
  {
    hide Matches;
  }

  lemma ServerKeeps(s: State, step: Step, sha: bytes -> string)
    requires Inv(s, sha)
    ensures StepOk(s, step, ServerStep(s, step, sha), sha)
  { }

  lemma StepKeeps(s: State, step: Step, sha: bytes -> string)
    requires Inv(s, sha)
    ensures StepOk(s, step, Next(s, step, sha), sha)
  {
    hide Inv, StepOk, UploadStep, FinishStep, RemovalStep, ServerStep;
    if IsUpload(step) { UploadKeeps(s, step, sha); }
    else if IsFinish(step) { FinishKeeps(s, step, sha); }
    else if IsRemoval(step) { RemovalKeeps(s, step, sha); }
    else { ServerKeeps(s, step, sha); }
  }

  ghost predicate Init(s: State) {
    && Open(s.task) && s.library.None? && s.agents == [Idle] && !s.removing && s.verifier.Off?
  }

  lemma {:induction false} RunKeeps(s: State, steps: seq<Step>, sha: bytes -> string)
    requires Init(s)
    ensures Inv(Run(s, steps, sha), sha)
  {
    hide Next, Inv, Init;
    if steps == [] {
      InitHolds(s, sha);
    } else {
      RunKeeps(s, steps[..|steps| - 1], sha);
      StepKeeps(Run(s, steps[..|steps| - 1], sha), steps[|steps| - 1], sha);
    }
  }

  lemma InitHolds(s: State, sha: bytes -> string)
    requires Init(s)
    ensures Inv(s, sha)
  { }

  lemma {:induction false} RunSplits(s: State, a: seq<Step>, b: seq<Step>, sha: bytes -> string)
    ensures Run(s, a + b, sha) == Run(Run(s, a, sha), b, sha)
  {
    hide Next;
    if b == [] {
      assert a + b == a;
    } else {
      assert (a + b)[..|a + b| - 1] == a + b[..|b| - 1];
      RunSplits(s, a, b[..|b| - 1], sha);
    }
  }

  lemma {:induction false} ClosedForGood(s: State, steps: seq<Step>, sha: bytes -> string)
    requires !Open(s.task)
    ensures !Open(Run(s, steps, sha).task)
  {
    hide Next;
    if steps != [] {
      ClosedForGood(s, steps[..|steps| - 1], sha);
      ClosedStaysClosed(Run(s, steps[..|steps| - 1], sha), steps[|steps| - 1], sha);
    }
  }

  lemma {:induction false} LibraryStays(s: State, steps: seq<Step>, sha: bytes -> string)
    requires Inv(s, sha) && s.library.Some?
    ensures Inv(Run(s, steps, sha), sha) && Run(s, steps, sha).library == s.library
  {
    hide Next, Inv;
    if steps != [] {
      LibraryStays(s, steps[..|steps| - 1], sha);
      StepKeeps(Run(s, steps[..|steps| - 1], sha), steps[|steps| - 1], sha);
    }
  }

  // Over a whole run with agent requests one at a time: a task that is closed at some point is closed
  // ever after, a task that is done has its image in the library, and whatever is in the library
  // matches its manifest and never changes again.
  lemma Lifecycle(s: State, first: seq<Step>, rest: seq<Step>, sha: bytes -> string)
    requires Init(s)
    ensures var mid, end := Run(s, first, sha), Run(s, first + rest, sha);
      && (!Open(mid.task) ==> !Open(end.task))
      && (end.task.Done? ==> end.library.Some?)
      && (end.library.Some? ==> Good(end.library.value, sha))
      && (mid.library.Some? ==> end.library == mid.library)
  {
    hide Next, Good, Init;
    RunSplits(s, first, rest, sha);
    RunKeeps(s, first, sha);
    RunKeeps(s, first + rest, sha);
    var mid := Run(s, first, sha);
    if !Open(mid.task) { ClosedForGood(mid, rest, sha); }
    if mid.library.Some? { LibraryStays(mid, rest, sha); }
  }

  // The verifier failed after its own rename.
  predicate LateFailure(s: State, steps: seq<Step>, k: nat, sha: bytes -> string)
    requires k < |steps|
  {
    steps[k].VerifyFails? && Run(s, steps[..k], sha).verifier.Entered?
  }

  // A failed verification leaves the image outside the library, except when what failed came after the
  // rename: exactly then the task is failed and the image is in.
  lemma {:induction false} FailedButInIff(s: State, steps: seq<Step>, sha: bytes -> string)
    requires Init(s)
    ensures FailedButIn(Run(s, steps, sha)) <==> exists k: nat :: k < |steps| && LateFailure(s, steps, k, sha)
  {
    hide Next, Inv;
    if steps != [] {
      var n := |steps| - 1;
      var front := steps[..n];
      FailedButInIff(s, front, sha);
      RunKeeps(s, front, sha);
      StepKeeps(Run(s, front, sha), steps[n], sha);
      forall k: nat | k < n ensures LateFailure(s, front, k, sha) <==> LateFailure(s, steps, k, sha) {
        assert front[..k] == steps[..k];
      }
      if exists k: nat :: k < n && LateFailure(s, front, k, sha) {
        var k: nat :| k < n && LateFailure(s, front, k, sha);
        assert LateFailure(s, steps, k, sha);
      }
      if steps[n].VerifyFails? && Run(s, front, sha).verifier.Entered? { assert LateFailure(s, steps, n, sha); }
    }
  }

  // --- runs ---

  lemma OneStep(s: State, step: Step, sha: bytes -> string)
    ensures Run(s, [step], sha) == Next(s, step, sha)
  {
    assert Run(s, [], sha) == s;
    assert [step][..0] == [];
  }

  lemma OneMore(s: State, steps: seq<Step>, step: Step, sha: bytes -> string) returns (more: seq<Step>)
    ensures more == steps + [step]
    ensures Run(s, more, sha) == Next(Run(s, steps, sha), step, sha)
  {
    more := steps + [step];
    assert more[..|more| - 1] == steps;
  }

  lemma FirstBytes(data: bytes)
    ensures Patched([], 0, data) == data
  { }

  function Fresh(agents: seq<Agent>): State { State(Pending, None, None, agents, false, Off) }

  // The state in which one file is just being opened, perhaps by several requests.
  function Opened(file: string, agents: seq<Agent>): State {
    Fresh(agents).(staging := Some(Folder(map[][file := []], map[], None)))
  }

  function Submitted(p: Part, data: bytes): Folder { Folder(map[][p.file := data], map[][p.file := p.sha], Some([p])) }

  // The first request receives the file, and the manifest that ends the uploads is taken.
  lemma ReceivesFile(p: Part, data: bytes, agents: seq<Agent>, sha: bytes -> string) returns (steps: seq<Step>)
    requires |agents| > 0 && agents[0] == Uploading(p.file, [], InStaging) && p.sha == sha(data)
    ensures Run(Opened(p.file, agents), steps, sha) ==
            Fresh(agents[0 := Idle]).(task := Running, staging := Some(Submitted(p, data).(manifest := None)))
  {
    hide Run, ServerStep, FinishStep, Patched;
    var s := Opened(p.file, agents);
    FirstBytes(data);
    OneStep(s, WriteSome(0, data), sha);
    assert [] + data == data;
    var wrote := Run(s, [WriteSome(0, data)], sha);
    var none: map<string, bytes> := map[];
    assert none[p.file := []][p.file := data] == none[p.file := data];
    assert wrote.agents == agents[0 := Uploading(p.file, data, InStaging)];
    assert wrote.staging == Some(Folder(map[][p.file := data], map[], None));
    steps := OneMore(s, [WriteSome(0, data)], EndUpload(0), sha);
    assert Run(s, steps, sha).agents == agents[0 := Idle];
  }

  lemma TakesManifest(p: Part, data: bytes, agents: seq<Agent>, sha: bytes -> string) returns (steps: seq<Step>)
    requires |agents| > 0 && agents[0].Idle?
    ensures Run(Fresh(agents).(task := Running, staging := Some(Submitted(p, data).(manifest := None))), steps, sha) ==
            Fresh(agents).(task := Verifying, staging := Some(Submitted(p, data)))
  {
    hide Run, UploadStep, ServerStep, Rehome;
    var s := Fresh(agents).(task := Running, staging := Some(Submitted(p, data).(manifest := None)));
    OneStep(s, BeginFinish(0, [p]), sha);
    steps := OneMore(s, [BeginFinish(0, [p])], CheckManifest(0), sha);
    assert Run(s, steps, sha) == s.(agents := agents[0 := Approved([p])]) by { Approves(p, s, sha); }
    hide Received;
    steps := OneMore(s, steps, StageManifest(0), sha);
    steps := OneMore(s, steps, CloseUploads(0), sha);
    assert Run(s, steps, sha).agents == agents;
  }

  lemma Approves(p: Part, s: State, sha: bytes -> string)
    requires |s.agents| > 0 && s.agents[0].Idle? && Open(s.task) && s.staging.Some?
    requires Received([p], s.staging.value)
    ensures Next(Next(s, BeginFinish(0, [p]), sha), CheckManifest(0), sha) ==
            s.(agents := s.agents[0 := Approved([p])])
  {
    hide Received, UploadStep, ServerStep;
    assert s.agents[0 := Checking([p])][0 := Approved([p])] == s.agents[0 := Approved([p])];
  }

  // The verifier has read the file back and found it right.
  lemma RereadsFile(p: Part, data: bytes, agents: seq<Agent>, sha: bytes -> string) returns (steps: seq<Step>)
    requires p.sha == sha(data)
    ensures var s := Fresh(agents).(task := Verifying, staging := Some(Submitted(p, data)));
      Run(s, steps, sha) == s.(verifier := Rereading([p], 1))
  {
    hide Run, UploadStep, FinishStep;
    var s := Fresh(agents).(task := Verifying, staging := Some(Submitted(p, data)));
    OneStep(s, VerifyStart, sha);
    steps := OneMore(s, [VerifyStart], Reread, sha);
  }

  lemma VerifiesFile(p: Part, data: bytes, agents: seq<Agent>, sha: bytes -> string) returns (steps: seq<Step>)
    requires |agents| > 0 && agents[0] == Uploading(p.file, [], InStaging) && p.sha == sha(data)
    ensures Run(Opened(p.file, agents), steps, sha) ==
            Fresh(agents[0 := Idle]).(
              task := Verifying, staging := Some(Submitted(p, data)), verifier := Rereading([p], 1))
  {
    hide Run, Next;
    var s := Opened(p.file, agents);
    var a := ReceivesFile(p, data, agents, sha);
    var b := TakesManifest(p, data, agents[0 := Idle], sha);
    var c := RereadsFile(p, data, agents[0 := Idle], sha);
    RunSplits(s, a, b, sha);
    RunSplits(s, a + b, c, sha);
    steps := a + b + c;
  }

  // The failing run, for any file and its bytes.
  lemma FailedThoughEntered(file: string, data: bytes, sha: bytes -> string)
    ensures Init(Fresh([Idle])) && exists steps :: FailedButIn(Run(Fresh([Idle]), steps, sha))
  {
    hide Run, Next;
    var s := Fresh([Idle]);
    var p := Part(file, sha(data));
    var agents := [Uploading(file, [], InStaging)];
    OneStep(s, BeginUpload(0, file), sha);
    assert Next(s, BeginUpload(0, file), sha) == Opened(file, agents) by { OpensOne(file, sha); }
    var rest := VerifiesFile(p, data, agents, sha);
    RunSplits(s, [BeginUpload(0, file)], rest, sha);
    var steps := OneMore(s, [BeginUpload(0, file)] + rest, Enter, sha);
    steps := OneMore(s, steps, VerifyFails, sha);
    LateCrash(Run(s, [BeginUpload(0, file)] + rest, sha), p, sha);
    assert FailedButIn(Run(s, steps, sha));
  }

  lemma OpensOne(file: string, sha: bytes -> string)
    ensures Next(Fresh([Idle]), BeginUpload(0, file), sha) == Opened(file, [Uploading(file, [], InStaging)])
  { }

  lemma LateCrash(t: State, p: Part, sha: bytes -> string)
    requires t.verifier == Rereading([p], 1) && t.task.Verifying? && t.library.None? && t.staging.Some?
    ensures FailedButIn(Next(Next(t, Enter, sha), VerifyFails, sha))
  { }

  ghost predicate DoneButBad(s: State, sha: bytes -> string) {
    s.task.Done? && s.library.Some? && !Good(s.library.value, sha)
  }

  // Nothing in the server keeps two requests of one agent apart. Both open the file, the first receives
  // it and its record is the manifest's; after the verifier has reread it, the second writes.
  lemma OverlapAdmitsUnverified(file: string, data: bytes, late: bytes, sha: bytes -> string)
    requires sha(Patched(data, 0, late)) != sha(data)
    ensures exists steps :: DoneButBad(Run(Fresh([Idle, Idle]), steps, sha), sha)
  {
    hide Run, Next, DoneButBad, Patched;
    var s := Fresh([Idle, Idle]);
    var p := Part(file, sha(data));
    var up := Uploading(file, [], InStaging);
    var both := OpensBoth(file, sha);
    var rest := VerifiesFile(p, data, [up, up], sha);
    RunSplits(s, both, rest, sha);
    var t := Run(s, both + rest, sha);
    var steps := OneMore(s, both + rest, WriteSome(1, late), sha);
    steps := OneMore(s, steps, Enter, sha);
    steps := OneMore(s, steps, MarkDone, sha);
    LateWrite(t, p, data, late, sha);
    assert DoneButBad(Run(s, steps, sha), sha);
  }

  lemma OpensBoth(file: string, sha: bytes -> string) returns (steps: seq<Step>)
    ensures var up := Uploading(file, [], InStaging);
      Run(Fresh([Idle, Idle]), steps, sha) == Opened(file, [up, up])
  {
    hide Run, ServerStep, FinishStep;
    var s := Fresh([Idle, Idle]);
    OneStep(s, BeginUpload(0, file), sha);
    steps := OneMore(s, [BeginUpload(0, file)], BeginUpload(1, file), sha);
    var none: map<string, bytes> := map[];
    assert none[file := []][file := []] == none[file := []];
    assert Run(s, steps, sha).agents == [Uploading(file, [], InStaging), Uploading(file, [], InStaging)];
  }

  lemma LateWrite(t: State, p: Part, data: bytes, late: bytes, sha: bytes -> string)
    requires t.verifier == Rereading([p], 1) && t.task.Verifying? && t.library.None? && |t.agents| == 2
    requires t.agents[1] == Uploading(p.file, [], InStaging) && t.staging == Some(Submitted(p, data))
    requires sha(Patched(data, 0, late)) != p.sha
    ensures DoneButBad(Next(Next(Next(t, WriteSome(1, late), sha), Enter, sha), MarkDone, sha), sha)
  {
    hide Patched, FinishStep;
    assert p in [p];
  }
}
