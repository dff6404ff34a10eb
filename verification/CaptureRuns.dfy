// What whole captures come to: one that nothing disturbs ends with its image in the library, a cancelled one
// leaves nothing in the staging area, and a restart takes up what it finds.
module CaptureRuns {
  import opened Words
  import opened Wrappers
  import opened Capture

  // --- what arrived is what was recorded ---

  ghost predicate RecordsRight(f: Folder, sha: bytes -> string) {
    forall n | n in f.records && n in f.files :: f.records[n] == sha(f.files[n])
  }

  // With one request at a time: a record beside a file is the digest of the file's bytes, a file on its way
  // has no record, and a manifest is approved and staged only after everything it names has arrived.
  ghost predicate Sound(s: State, sha: bytes -> string)
    requires |s.agents| == 1
  {
    var g := s.agents[0];
    && (s.staging.Some? ==>
          && RecordsRight(s.staging.value, sha)
          && (g.Uploading? && g.home.InStaging? ==>
                g.file !in s.staging.value.records &&
                (g.file in s.staging.value.files ==> s.staging.value.files[g.file] == g.got))
          && (g.Approved? ==> Received(g.parts, s.staging.value))
          && (g.Written? ==> Staged(s)))
    && (g.Written? && Open(s.task) ==> Staged(s))
    && (g.Uploading? && !g.home.InStaging? ==> s.staging.None?)
    && (s.task.Verifying? && !s.verifier.Entered? ==> Staged(s))
  }

  ghost predicate Staged(s: State) {
    s.staging.Some? && s.staging.value.manifest.Some? && Received(s.staging.value.manifest.value, s.staging.value)
  }

  lemma PatchedAtEnd(got: bytes, data: bytes)
    ensures Patched(got, |got|, data) == got + data
  { }

  lemma UploadSound(s: State, step: Step, sha: bytes -> string)
    requires Inv(s, sha) && Sound(s, sha) && IsUpload(step)
    ensures |UploadStep(s, step, sha).agents| == 1 && Sound(UploadStep(s, step, sha), sha)
  {
    hide Matches, Patched, Received;
    if step.WriteSome? && step.a == 0 && s.agents[0].Uploading? { PatchedAtEnd(s.agents[0].got, step.data); }
  }

  lemma FinishSound(s: State, step: Step, sha: bytes -> string)
    requires Inv(s, sha) && Sound(s, sha) && IsFinish(step)
    ensures |FinishStep(s, step).agents| == 1 && Sound(FinishStep(s, step), sha)
  {
    hide Matches;
  }

  lemma RemovalSound(s: State, step: Step, sha: bytes -> string)
    requires Inv(s, sha) && Sound(s, sha) && IsRemoval(step)
    ensures |RemovalStep(s, step).agents| == 1 && Sound(RemovalStep(s, step), sha)
  {
    hide Matches, Received;
  }

  lemma ServerSound(s: State, step: Step, sha: bytes -> string)
    requires Inv(s, sha) && Sound(s, sha)
    ensures |ServerStep(s, step, sha).agents| == 1 && Sound(ServerStep(s, step, sha), sha)
  {
    hide Matches, Received;
  }

  lemma {:induction false} RunSound(s: State, steps: seq<Step>, sha: bytes -> string)
    requires Init(s) && Sound(s, sha)
    ensures |Run(s, steps, sha).agents| == 1 && Sound(Run(s, steps, sha), sha)
  {
    hide Next, Inv, Sound;
    if steps != [] {
      var front, step := steps[..|steps| - 1], steps[|steps| - 1];
      RunSound(s, front, sha);
      RunKeeps(s, front, sha);
      SoundStep(Run(s, front, sha), step, sha);
    }
  }

  lemma SoundStep(s: State, step: Step, sha: bytes -> string)
    requires Inv(s, sha) && Sound(s, sha)
    ensures |Next(s, step, sha).agents| == 1 && Sound(Next(s, step, sha), sha)
  {
    hide Inv, Sound, UploadStep, FinishStep, RemovalStep, ServerStep;
    if IsUpload(step) { UploadSound(s, step, sha); }
    else if IsFinish(step) { FinishSound(s, step, sha); }
    else if IsRemoval(step) { RemovalSound(s, step, sha); }
    else { ServerSound(s, step, sha); }
  }

  // A task that waits for its verification has every file the manifest names, with the bytes the record
  // was computed from: the reread has nothing left to find.
  lemma VerifyingIsGood(s: State, steps: seq<Step>, sha: bytes -> string)
    requires Init(s) && s.staging.None?
    ensures var e := Run(s, steps, sha);
      e.task.Verifying? && !e.verifier.Entered? ==> e.staging.Some? && Good(e.staging.value, sha)
  {
    hide Run, Next, Inv, Init;
    assert |s.agents| == 1 && Sound(s, sha) by { InitSound(s, sha); }
    RunSound(s, steps, sha);
  }

  lemma InitSound(s: State, sha: bytes -> string)
    requires Init(s) && s.staging.None?
    ensures |s.agents| == 1 && Sound(s, sha)
  { }

  // --- cancellation ---

  // With the task closed nothing creates a staging folder any more, and a cancelled task can only fail.
  lemma ClosedStep(s: State, step: Step, sha: bytes -> string)
    requires s.task.Cancelled? || s.task.Failed?
    ensures Next(s, step, sha).task.Cancelled? || Next(s, step, sha).task.Failed?
    ensures s.staging.None? ==> Next(s, step, sha).staging.None?
    ensures s.removing && !step.CancelRemoves? && !step.Restart? ==> Next(s, step, sha).removing
  { }

  lemma {:induction false} ClosedRun(s: State, steps: seq<Step>, sha: bytes -> string)
    requires s.task.Cancelled? || s.task.Failed?
    ensures Run(s, steps, sha).task.Cancelled? || Run(s, steps, sha).task.Failed?
    ensures s.staging.None? ==> Run(s, steps, sha).staging.None?
    ensures s.removing && (forall p | p in steps :: !p.CancelRemoves? && !p.Restart?) ==> Run(s, steps, sha).removing
  {
    hide Next;
    if steps != [] {
      assert forall p | p in steps[..|steps| - 1] :: p in steps;
      ClosedRun(s, steps[..|steps| - 1], sha);
      ClosedStep(Run(s, steps[..|steps| - 1], sha), steps[|steps| - 1], sha);
    }
  }

  // A cancellation closes an open task, and only an open one, at once and for good; and once the
  // cancelling request has come to its removal, without a restart in between, the task has no staging
  // folder and gets none, whatever uploads and finishes, any number of them, are still under way.
  lemma CancelClears(s: State, until: seq<Step>, rest: seq<Step>, sha: bytes -> string)
    ensures !Open(s.task) ==> Next(s, Cancel, sha) == s
    ensures Open(s.task) ==> Next(s, Cancel, sha) == s.(task := Cancelled, removing := true)
    ensures Open(s.task) && (forall p | p in until :: !p.CancelRemoves? && !p.Restart?) ==>
      var e := Run(Next(s, Cancel, sha), until + [CancelRemoves] + rest, sha);
      (e.task.Cancelled? || e.task.Failed?) && e.staging.None?
  {
    if Open(s.task) && forall p | p in until :: !p.CancelRemoves? && !p.Restart? {
      var c := Next(s, Cancel, sha);
      hide Run, Next;
      ClosedRun(c, until, sha);
      RunSplits(c, until + [CancelRemoves], rest, sha);
      var most := OneMore(c, until, CancelRemoves, sha);
      var d := Run(c, until, sha);
      assert Next(d, CancelRemoves, sha).staging.None? by { Removes(d, sha); }
      ClosedStep(d, CancelRemoves, sha);
      ClosedRun(Run(c, most, sha), rest, sha);
    }
  }

  lemma Removes(s: State, sha: bytes -> string)
    requires s.removing
    ensures Next(s, CancelRemoves, sha).staging.None?
  { }

  // With one request at a time the image of a cancelled task never enters the library.
  lemma {:induction false} CancelledStaysOut(s: State, steps: seq<Step>, sha: bytes -> string)
    requires Inv(s, sha) && Open(s.task)
    ensures var e := Run(Next(s, Cancel, sha), steps, sha);
      Inv(e, sha) && (e.task.Cancelled? || e.task.Failed?) && e.library.None?
  {
    StepKeeps(s, Cancel, sha);
    var c := Next(s, Cancel, sha);
    assert c.task.Cancelled? && c.library.None?;
    ClosedRun(c, steps, sha);
    hide Next, Inv;
    if steps != [] {
      var front := steps[..|steps| - 1];
      CancelledStaysOut(s, front, sha);
      ClosedRun(c, front, sha);
      StepKeeps(Run(c, front, sha), steps[|steps| - 1], sha);
      EntersOnlyVerifying(Run(c, front, sha), steps[|steps| - 1], sha);
    }
  }

  lemma EntersOnlyVerifying(s: State, step: Step, sha: bytes -> string)
    requires Inv(s, sha)
    ensures s.library.None? && Next(s, step, sha).library.Some? ==> s.task.Verifying?
  { }

  // --- a restart ---

  // After a restart of the server no request, no removal and no verification is under way, and the tasks that
  // were under way go by the disk: done if the image is in the library, verifying again if the whole
  // upload waits there and the reread can begin at once, and failed otherwise.
  lemma RestartTakesUp(s: State, sha: bytes -> string)
    requires Inv(s, sha) && Sound(s, sha)
    ensures var e := Next(s, Restart, sha);
      && e.agents == [Idle] && !e.removing && e.verifier.Off? && e.library == s.library && e.staging == s.staging
      && !e.task.Running?
      && (e.task.Verifying? <==> s.task.Verifying? && s.library.None?)
      && (e.task.Done? <==> s.task.Done? || (s.task.Verifying? && s.library.Some?))
      && (e.task.Failed? <==> s.task.Failed? || s.task.Running?)
      && (e.task.Pending? <==> s.task.Pending?)
      && (e.task.Verifying? ==> Next(e, VerifyStart, sha).verifier == Rereading(e.staging.value.manifest.value, 0))
  { }

  // --- a capture that nothing disturbs ---

  datatype Upload = Upload(file: string, data: bytes)

  // What the staging folder holds after these uploads; a later one of the same name replaces the earlier.
  function Held(ups: seq<Upload>, sha: bytes -> string): Folder {
    if ups == [] then Folder(map[], map[], None)
    else
      var f, u := Held(ups[..|ups| - 1], sha), ups[|ups| - 1];
      Folder(f.files[u.file := u.data], f.records[u.file := sha(u.data)], None)
  }

  function After(ups: seq<Upload>, sha: bytes -> string): State {
    if ups == [] then Fresh([Idle]) else Fresh([Idle]).(task := Running, staging := Some(Held(ups, sha)))
  }

  lemma {:induction false} HeldRight(ups: seq<Upload>, sha: bytes -> string)
    ensures RecordsRight(Held(ups, sha), sha)
  {
    if ups != [] { HeldRight(ups[..|ups| - 1], sha); }
  }

  lemma {:induction false} Uploads(ups: seq<Upload>, sha: bytes -> string) returns (steps: seq<Step>)
    ensures Run(Fresh([Idle]), steps, sha) == After(ups, sha)
  {
    hide Run, Next, Held;
    if ups == [] {
      steps := [];
      assert Run(Fresh([Idle]), [], sha) == Fresh([Idle]) by { NoStep(Fresh([Idle]), sha); }
    } else {
      var front, u := ups[..|ups| - 1], ups[|ups| - 1];
      var some := Uploads(front, sha);
      var s := Fresh([Idle]);
      var one := OneMore(s, some, BeginUpload(0, u.file), sha);
      var two := OneMore(s, one, WriteSome(0, u.data), sha);
      steps := OneMore(s, two, EndUpload(0), sha);
      UploadsOne(ups, sha);
    }
  }

  lemma NoStep(s: State, sha: bytes -> string)
    ensures Run(s, [], sha) == s
  { }

  lemma UploadsOne(ups: seq<Upload>, sha: bytes -> string)
    requires ups != []
    ensures var u := ups[|ups| - 1];
      Next(Next(Next(After(ups[..|ups| - 1], sha), BeginUpload(0, u.file), sha), WriteSome(0, u.data), sha),
           EndUpload(0), sha) == After(ups, sha)
  {
    hide ServerStep, FinishStep, RemovalStep, Patched;
    var f, u := Held(ups[..|ups| - 1], sha), ups[|ups| - 1];
    FirstBytes(u.data);
    assert [] + u.data == u.data;
    assert f.files[u.file := []][u.file := u.data] == f.files[u.file := u.data];
    assert (f.records - {u.file})[u.file := sha(u.data)] == f.records[u.file := sha(u.data)];
    var a := Next(After(ups[..|ups| - 1], sha), BeginUpload(0, u.file), sha);
    assert a.agents == [Uploading(u.file, [], InStaging)];
    assert a.staging == Some(Folder(f.files[u.file := []], f.records - {u.file}, None));
    var b := Next(a, WriteSome(0, u.data), sha);
    assert b.agents == [Uploading(u.file, u.data, InStaging)];
    assert b.staging == Some(Folder(f.files[u.file := u.data], f.records - {u.file}, None));
    assert Next(b, EndUpload(0), sha).agents == [Idle];
  }

  // The finished upload with its manifest, and the image it becomes.
  function Finished(ups: seq<Upload>, parts: seq<Part>, sha: bytes -> string): Folder {
    Held(ups, sha).(manifest := Some(parts))
  }

  // The request that ends the uploads takes the manifest exactly when every file it names has arrived with
  // the digest it names, and otherwise fails the task.
  lemma FinishDecides(ups: seq<Upload>, parts: seq<Part>, sha: bytes -> string)
    ensures var e := Next(Next(After(ups, sha), BeginFinish(0, parts), sha), CheckManifest(0), sha);
      if ups != [] && Received(parts, Held(ups, sha)) then e == After(ups, sha).(agents := [Approved(parts)])
      else e == After(ups, sha).(agents := [Refused], task := Failed)
  {
    hide UploadStep, ServerStep, RemovalStep, Held, Received;
    assert Next(After(ups, sha), BeginFinish(0, parts), sha).agents == [Checking(parts)];
    assert [Checking(parts)][0 := Approved(parts)] == [Approved(parts)];
    assert [Checking(parts)][0 := Refused] == [Refused];
  }

  // A manifest that was taken is staged, and the task waits for its verification.
  lemma FinishCloses(ups: seq<Upload>, parts: seq<Part>, sha: bytes -> string)
    requires ups != []
    ensures Next(Next(After(ups, sha).(agents := [Approved(parts)]), StageManifest(0), sha), CloseUploads(0), sha) ==
            Fresh([Idle]).(task := Verifying, staging := Some(Finished(ups, parts, sha)))
  {
    hide UploadStep, ServerStep, RemovalStep, Held, Received;
    assert [Approved(parts)][0 := Written] == [Written] && [Written][0 := Idle] == [Idle];
  }

  function Reading(f: Folder, parts: seq<Part>, k: nat): State {
    Fresh([Idle]).(task := Verifying, staging := Some(f), verifier := Rereading(parts, k))
  }

  lemma {:induction false} Rereads(f: Folder, parts: seq<Part>, k: nat, sha: bytes -> string) returns (steps: seq<Step>)
    requires k <= |parts| && f.manifest == Some(parts) && RecordsRight(f, sha) && Received(parts, f)
    ensures Run(Fresh([Idle]).(task := Verifying, staging := Some(f)), steps, sha) == Reading(f, parts, k)
  {
    hide Run, UploadStep, FinishStep, RemovalStep;
    var s := Fresh([Idle]).(task := Verifying, staging := Some(f));
    if k == 0 {
      OneStep(s, VerifyStart, sha);
      steps := [VerifyStart];
    } else {
      var some := Rereads(f, parts, k - 1, sha);
      steps := OneMore(s, some, Reread, sha);
      assert parts[k - 1] in parts;
    }
  }

  lemma EntersAndEnds(f: Folder, parts: seq<Part>, sha: bytes -> string)
    ensures Next(Next(Reading(f, parts, |parts|), Enter, sha), MarkDone, sha) ==
            Fresh([Idle]).(task := Done, library := Some(f.(records := map[])))
  {
    var a := Next(Reading(f, parts, |parts|), Enter, sha);
    assert a.agents == [Idle];
  }

  // For every non-empty series of uploads, a file perhaps sent again, and every manifest that describes what
  // arrived, the capture can end done, with exactly the files that arrived last and that manifest in the
  // library.
  lemma Completes(ups: seq<Upload>, parts: seq<Part>, sha: bytes -> string) returns (steps: seq<Step>)
    requires ups != [] && Received(parts, Held(ups, sha))
    ensures Init(Fresh([Idle]))
    ensures Run(Fresh([Idle]), steps, sha) ==
            Fresh([Idle]).(task := Done, library := Some(Finished(ups, parts, sha).(records := map[])))
  {
    hide Run, Next, Held, Received;
    var s := Fresh([Idle]);
    var sent := Uploads(ups, sha);
    steps := OneMore(s, sent, BeginFinish(0, parts), sha);
    steps := OneMore(s, steps, CheckManifest(0), sha);
    FinishDecides(ups, parts, sha);
    steps := OneMore(s, steps, StageManifest(0), sha);
    steps := OneMore(s, steps, CloseUploads(0), sha);
    FinishCloses(ups, parts, sha);
    HeldRight(ups, sha);
    assert Received(parts, Finished(ups, parts, sha)) by { ReceivedStays(ups, parts, sha); }
    var reread := Rereads(Finished(ups, parts, sha), parts, |parts|, sha);
    RunSplits(s, steps, reread, sha);
    steps := steps + reread;
    steps := OneMore(s, steps, Enter, sha);
    steps := OneMore(s, steps, MarkDone, sha);
    EntersAndEnds(Finished(ups, parts, sha), parts, sha);
  }

  lemma ReceivedStays(ups: seq<Upload>, parts: seq<Part>, sha: bytes -> string)
    requires Received(parts, Held(ups, sha))
    ensures Received(parts, Finished(ups, parts, sha))
  { }

  // What arrived last under a name is what is held under it.
  lemma {:induction false} LastIsHeld(ups: seq<Upload>, i: nat, sha: bytes -> string)
    requires i < |ups| && forall j | i < j < |ups| :: ups[j].file != ups[i].file
    ensures var f := Held(ups, sha);
      && ups[i].file in f.files && f.files[ups[i].file] == ups[i].data
      && ups[i].file in f.records && f.records[ups[i].file] == sha(ups[i].data)
  {
    if i < |ups| - 1 { LastIsHeld(ups[..|ups| - 1], i, sha); }
  }

  // --- what a failure leaves ---

  // A file that arrives after its task was closed, or that the disk had no room for, is gone with its
  // record; in the second case the task fails next.
  lemma LostUploadIsRemoved(s: State, a: nat, sha: bytes -> string)
    requires a < |s.agents| && s.agents[a].Uploading?
    ensures var file, e := s.agents[a].file, Next(s, EndUpload(a), sha);
      && (!Open(s.task) ==> e.task == s.task)
      && (!Open(s.task) && e.staging.Some? ==> file !in e.staging.value.files && file !in e.staging.value.records)
    ensures var file, e := s.agents[a].file, Next(s, DropUpload(a), sha);
      && (e.staging.Some? ==> file !in e.staging.value.files && file !in e.staging.value.records)
      && Next(e, FailTask(a), sha).task.Failed?
  { }

  // A verification that fails before the rename closes the task as failed and removes the staging folder.
  lemma FailedVerificationClears(s: State, sha: bytes -> string)
    requires Inv(s, sha) && s.verifier.Rereading?
    ensures var e := Next(Next(s, VerifyFails, sha), VerifyRemoves, sha);
      e.task.Failed? && e.staging.None? && e.library.None? && e.verifier.Off?
  { }

  function Entries(f: Folder): nat { |f.files| + |f.records| + if f.manifest.Some? then 1 else 0 }

  lemma FirstThen(s: State, step: Step, rest: seq<Step>, sha: bytes -> string)
    ensures Run(s, [step] + rest, sha) == Run(Next(s, step, sha), rest, sha)
  {
    OneStep(s, step, sha);
    RunSplits(s, [step], rest, sha);
  }

  // The removal a refused manifest starts can come to its end, and then the staging folder is gone.
  lemma {:induction false} RemovalEnds(s: State, a: nat, sha: bytes -> string) returns (steps: seq<Step>)
    requires a < |s.agents| && s.agents[a] == Deleting(InStaging) && s.staging.Some?
    ensures Run(s, steps, sha).staging.None? && Run(s, steps, sha).task == s.task
    decreases Entries(s.staging.value)
  {
    hide Run, Next, Entries;
    if Entries(s.staging.value) == 0 {
      steps := [EndRemove(a)];
      OneStep(s, EndRemove(a), sha);
      RemovesEmpty(s, a, sha);
    } else {
      var step := RemovesOne(s, a, sha);
      var rest := RemovalEnds(Next(s, step, sha), a, sha);
      steps := [step] + rest;
      FirstThen(s, step, rest, sha);
    }
  }

  lemma RemovesEmpty(s: State, a: nat, sha: bytes -> string)
    requires a < |s.agents| && s.agents[a] == Deleting(InStaging) && s.staging.Some? && Entries(s.staging.value) == 0
    ensures Next(s, EndRemove(a), sha).staging.None? && Next(s, EndRemove(a), sha).task == s.task
  {
    assert s.staging.value == Folder(map[], map[], None);
  }

  // One entry of the folder goes.
  predicate Goes(f: Folder, e: Folder, step: Step) {
    || (step.DeleteFile? && e == f.(files := f.files - {step.file}))
    || (step.DeleteRecord? && e == f.(records := f.records - {step.file}))
    || (step.DeleteManifest? && e == f.(manifest := None))
  }

  lemma RemovalGoes(s: State, a: nat, step: Step, sha: bytes -> string)
    requires a < |s.agents| && s.agents[a] == Deleting(InStaging) && s.staging.Some?
    requires (step.DeleteFile? || step.DeleteRecord? || step.DeleteManifest?) && step.a == a
    ensures var e := Next(s, step, sha);
      && |e.agents| == |s.agents| && e.agents[a] == Deleting(InStaging) && e.task == s.task
      && e.staging.Some? && Goes(s.staging.value, e.staging.value, step)
  {
    hide UploadStep, FinishStep, ServerStep;
  }

  lemma RemovesOne(s: State, a: nat, sha: bytes -> string) returns (step: Step)
    requires a < |s.agents| && s.agents[a] == Deleting(InStaging) && s.staging.Some? && Entries(s.staging.value) > 0
    ensures var e := Next(s, step, sha);
      && |e.agents| == |s.agents| && e.agents[a] == Deleting(InStaging) && e.task == s.task
      && e.staging.Some? && Entries(e.staging.value) < Entries(s.staging.value)
  {
    hide Next;
    var f := s.staging.value;
    if f.files != map[] {
      var file :| file in f.files;
      Fewer(f.files, file);
      step := DeleteFile(a, file);
    } else if f.records != map[] {
      var file :| file in f.records;
      Fewer(f.records, file);
      step := DeleteRecord(a, file);
    } else {
      step := DeleteManifest(a);
    }
    RemovalGoes(s, a, step, sha);
  }

  lemma Fewer<T>(m: map<string, T>, k: string)
    requires k in m
    ensures |m - {k}| < |m|
  {
    assert (m - {k}).Keys == m.Keys - {k};
  }

  // A manifest that does not describe what arrived: the task has failed, and when the request has removed the
  // folder nothing of the upload is left.
  lemma RefusedUploadClears(ups: seq<Upload>, parts: seq<Part>, sha: bytes -> string) returns (steps: seq<Step>)
    requires ups != [] && !Received(parts, Held(ups, sha))
    ensures Run(After(ups, sha), steps, sha).staging.None? && Run(After(ups, sha), steps, sha).task.Failed?
  {
    hide Run, Next, Held, Received;
    FinishDecides(ups, parts, sha);
    var s := After(ups, sha);
    var refused := After(ups, sha).(agents := [Refused], task := Failed);
    var deleting := refused.(agents := [Deleting(InStaging)]);
    assert Next(refused, RemoveStaging(0), sha) == deleting by { StartsRemoval(refused, sha); }
    var rest := RemovalEnds(deleting, 0, sha);
    steps := [BeginFinish(0, parts)] + ([CheckManifest(0)] + ([RemoveStaging(0)] + rest));
    FirstThen(refused, RemoveStaging(0), rest, sha);
    FirstThen(Next(s, BeginFinish(0, parts), sha), CheckManifest(0), [RemoveStaging(0)] + rest, sha);
    FirstThen(s, BeginFinish(0, parts), [CheckManifest(0)] + ([RemoveStaging(0)] + rest), sha);
  }

  lemma StartsRemoval(s: State, sha: bytes -> string)
    requires s.agents == [Refused] && s.staging.Some?
    ensures Next(s, RemoveStaging(0), sha) == s.(agents := [Deleting(InStaging)])
  {
    assert s.agents[0 := Deleting(InStaging)] == [Deleting(InStaging)];
  }

  // An image that is in the library already is not uploaded over: the request that would have closed the
  // uploads fails the task instead.
  lemma TakenTargetFails(s: State, a: nat, sha: bytes -> string)
    requires a < |s.agents| && s.agents[a].Approved? && s.staging.Some? && s.library.Some?
    ensures var e := Next(Next(s, StageManifest(a), sha), FailTask(a), sha);
      e.task.Failed? && e.agents[a].Idle? && e.library == s.library
  { }

  // A verification whose task somebody else has decided in the meantime changes nothing, whether it fails or
  // has entered the image.
  lemma DecidedStays(s: State, sha: bytes -> string)
    requires !s.task.Verifying?
    ensures s.verifier.Rereading? || s.verifier.Entered? ==> Next(s, VerifyFails, sha) == s.(verifier := Off)
    ensures s.verifier.Entered? ==> Next(s, MarkDone, sha) == s.(verifier := Off)
  { }

  // A removal works on the folder its handle is on, wherever that is by now, and on no other; and it removes
  // a folder only when it is empty.
  lemma RemovalStaysPut(s: State, step: Step, sha: bytes -> string)
    requires IsRemoval(step) && step.a < |s.agents| && s.agents[step.a].Deleting?
    ensures s.agents[step.a].home != InStaging ==> Next(s, step, sha).staging == s.staging
    ensures s.agents[step.a].home != InLibrary ==> Next(s, step, sha).library == s.library
    ensures s.staging.Some? && Next(s, step, sha).staging.None? ==> s.staging.value == Folder(map[], map[], None)
  { }
}
