// Requests of one capture task that overlap: exactly when one of them can still spoil an image after the
// uploads have been closed.
module CaptureOverlap {
  import opened Words
  import opened Wrappers
  import opened Capture

  predicate Lists(parts: seq<Part>, file: string) { exists p | p in parts :: p.file == file }

  predicate AllMatch(parts: seq<Part>, f: Folder, sha: bytes -> string) { forall p | p in parts :: Matches(p, f, sha) }

  // A file of the manifest is still open.
  predicate Uploads(s: State, parts: seq<Part>) {
    exists a | 0 <= a < |s.agents| :: s.agents[a].Uploading? && Lists(parts, s.agents[a].file)
  }

  // The uploads have just been closed, on files that match the manifest. Other requests may be anywhere.
  ghost predicate JustClosed(s: State, parts: seq<Part>, sha: bytes -> string) {
    && s.task.Verifying? && s.verifier.Off? && s.library.None? && !s.removing && parts != []
    && s.staging.Some? && s.staging.value.manifest == Some(parts) && AllMatch(parts, s.staging.value, sha)
    && forall a | 0 <= a < |s.agents| ::
         && (s.agents[a].Uploading? ==> s.agents[a].home != InLibrary)
         && (s.agents[a].Deleting? ==> s.agents[a].home != InLibrary)
  }

  // A request that can spoil the image: it still has a file of the manifest open, it is past its open-task
  // check with a manifest nobody has looked at, it has a manifest in hand that does not match or whose files
  // are still open, or it is removing the folder.
  predicate Dangerous(s: State, parts: seq<Part>, a: nat, sha: bytes -> string)
    requires a < |s.agents| && s.staging.Some?
  {
    match s.agents[a]
    case Uploading(file, _, _) => Lists(parts, file)
    case Checking(_) => true
    case Approved(other) => !AllMatch(other, s.staging.value, sha) || Uploads(s, other)
    case Refused => true
    case Deleting(home) => home.InStaging?
    case _ => false
  }

  // An image that shows a manifest it does not match.
  ghost predicate Bad(f: Folder, sha: bytes -> string) { f.manifest.Some? && !AllMatch(f.manifest.value, f, sha) }

  ghost predicate CanSpoil(s: State, sha: bytes -> string) {
    exists steps :: Run(s, steps, sha).library.Some? && Bad(Run(s, steps, sha).library.value, sha)
  }

  // --- without such a request ---

  predicate Secure(s: State, parts: seq<Part>, f: Folder, sha: bytes -> string) {
    AllMatch(parts, f, sha) && !Uploads(s, parts)
  }

  predicate Harmless(g: Agent) {
    g.Idle? || g.MustFail? || g.Written? || g.Uploading? || g.Approved? || (g.Deleting? && g.home.Unlinked?)
  }

  predicate SecureFolder(s: State, f: Option<Folder>, sha: bytes -> string) {
    f.Some? ==> f.value.manifest.Some? && Secure(s, f.value.manifest.value, f.value, sha)
  }

  ghost predicate Quiet(s: State, sha: bytes -> string) {
    && !Open(s.task)
    && (forall a | 0 <= a < |s.agents| :: Harmless(s.agents[a]))
    && SecureFolder(s, s.staging, sha) && SecureFolder(s, s.library, sha)
    && (s.staging.Some? ==> forall a | 0 <= a < |s.agents| && s.agents[a].Approved? ::
          Secure(s, s.agents[a].parts, s.staging.value, sha))
  }

  // Requests open no further file.
  predicate NoNewUploads(s: State, e: State) {
    && |e.agents| == |s.agents|
    && forall a | 0 <= a < |e.agents| && e.agents[a].Uploading? ::
         s.agents[a].Uploading? && s.agents[a].file == e.agents[a].file
  }

  lemma StillSecure(s: State, e: State, parts: seq<Part>, f: Folder, g: Folder, file: string, sha: bytes -> string)
    requires Secure(s, parts, f, sha) && NoNewUploads(s, e) && !Lists(parts, file)
    requires forall x | x != file :: (x in f.files <==> x in g.files) && (x in f.files ==> f.files[x] == g.files[x])
    ensures Secure(e, parts, g, sha)
  {
    forall p | p in parts ensures Matches(p, g, sha) {
      assert Matches(p, f, sha) && p.file != file;
    }
  }

  lemma SameSecure(s: State, e: State, parts: seq<Part>, f: Folder, g: Folder, sha: bytes -> string)
    requires Secure(s, parts, f, sha) && NoNewUploads(s, e) && g.files == f.files
    ensures Secure(e, parts, g, sha)
  {
    forall p | p in parts ensures Matches(p, g, sha) { assert Matches(p, f, sha); }
  }

  ghost predicate SameBut(f: Folder, g: Folder, file: string) {
    && g.manifest == f.manifest
    && forall x | x != file :: (x in f.files <==> x in g.files) && (x in f.files ==> f.files[x] == g.files[x])
  }

  // One open file changes; no manifest in sight lists it.
  ghost predicate Touched(s: State, e: State, a: nat)
    requires a < |s.agents| && s.agents[a].Uploading?
  {
    && !Open(e.task) && NoNewUploads(s, e)
    && (forall b | 0 <= b < |e.agents| :: Harmless(e.agents[b]))
    && (forall b | 0 <= b < |e.agents| && e.agents[b].Approved? :: e.agents[b] == s.agents[b])
    && (e.staging.Some? ==> s.staging.Some? && SameBut(s.staging.value, e.staging.value, s.agents[a].file))
    && (e.library.Some? ==> s.library.Some? && SameBut(s.library.value, e.library.value, s.agents[a].file))
  }

  lemma UploadTouched(s: State, step: Step, sha: bytes -> string)
    requires Quiet(s, sha) && IsUpload(step) && step.a < |s.agents| && s.agents[step.a].Uploading?
    ensures Touched(s, UploadStep(s, step, sha), step.a)
  {
    hide Touched, DropFile, WriteTo, SecureFolder, Secure;
    var g := s.agents[step.a];
    NothingTouched(s, step.a, sha);
    if step.WriteSome? {
      WriteTouched(s, step.a, step.data, sha);
    } else if step.EndUpload? || step.DropUpload? {
      DropTouched(s, step.a, if step.EndUpload? then Idle else MustFail, sha);
    }
  }

  lemma NothingTouched(s: State, a: nat, sha: bytes -> string)
    requires Quiet(s, sha) && a < |s.agents| && s.agents[a].Uploading?
    ensures Touched(s, s, a)
  {
    hide SecureFolder, Secure;
  }

  lemma WriteTouched(s: State, a: nat, data: bytes, sha: bytes -> string)
    requires Quiet(s, sha) && a < |s.agents| && s.agents[a].Uploading?
    ensures Touched(s, UploadStep(s, WriteSome(a, data), sha), a)
  {
    hide SecureFolder, Secure, Rehome, Patched;
  }

  lemma DropTouched(s: State, a: nat, g: Agent, sha: bytes -> string)
    requires Quiet(s, sha) && a < |s.agents| && s.agents[a].Uploading? && (g.Idle? || g.MustFail?)
    ensures |DropFile(s, s.agents[a].file).agents| == |s.agents|
    ensures Touched(s, At(DropFile(s, s.agents[a].file), a, g), a)
  {
    hide SecureFolder, Secure;
  }

  lemma OtherFile(s: State, e: State, parts: seq<Part>, f: Folder, g: Folder, a: nat, sha: bytes -> string)
    requires a < |s.agents| && s.agents[a].Uploading? && Secure(s, parts, f, sha) && NoNewUploads(s, e)
    requires SameBut(f, g, s.agents[a].file)
    ensures Secure(e, parts, g, sha)
  {
    assert !Lists(parts, s.agents[a].file);
    StillSecure(s, e, parts, f, g, s.agents[a].file, sha);
  }

  lemma TouchedQuiet(s: State, e: State, a: nat, sha: bytes -> string)
    requires Quiet(s, sha) && a < |s.agents| && s.agents[a].Uploading? && Touched(s, e, a)
    ensures Quiet(e, sha)
  {
    hide AllMatch, Lists, Secure, Uploads;
    if e.staging.Some? { OtherFile(s, e, s.staging.value.manifest.value, s.staging.value, e.staging.value, a, sha); }
    if e.library.Some? { OtherFile(s, e, s.library.value.manifest.value, s.library.value, e.library.value, a, sha); }
    forall b | 0 <= b < |e.agents| && e.agents[b].Approved? && e.staging.Some?
      ensures Secure(e, e.agents[b].parts, e.staging.value, sha)
    {
      OtherFile(s, e, s.agents[b].parts, s.staging.value, e.staging.value, a, sha);
    }
  }

  lemma QuietUpload(s: State, step: Step, sha: bytes -> string)
    requires Quiet(s, sha) && IsUpload(step)
    ensures Quiet(Next(s, step, sha), sha)
  {
    hide SecureFolder, Secure, Touched;
    if step.a < |s.agents| && s.agents[step.a].Uploading? {
      UploadTouched(s, step, sha);
      TouchedQuiet(s, UploadStep(s, step, sha), step.a, sha);
      hide UploadStep, Quiet;
    }
  }

  // Folders keep their files, a manifest comes from a request that had it approved, and the staging folder
  // may move into the library.
  predicate Kept(s: State, e: State) {
    && !Open(e.task) && NoNewUploads(s, e)
    && (forall a | 0 <= a < |e.agents| :: Harmless(e.agents[a]))
    && (forall a | 0 <= a < |e.agents| && e.agents[a].Approved? :: e.agents[a] == s.agents[a])
    && (e.staging.Some? ==>
          && s.staging.Some? && e.staging.value.files == s.staging.value.files
          && (e.staging.value.manifest == s.staging.value.manifest || FromApproved(s, e.staging.value.manifest)))
    && (e.library.Some? ==>
          || e.library == s.library
          || (s.staging.Some? && e.library == Some(s.staging.value.(records := map[]))))
  }

  predicate FromApproved(s: State, m: Option<seq<Part>>) {
    m.Some? && exists a | 0 <= a < |s.agents| :: s.agents[a].Approved? && s.agents[a].parts == m.value
  }

  lemma KeptQuiet(s: State, e: State, sha: bytes -> string)
    requires Quiet(s, sha) && Kept(s, e)
    ensures Quiet(e, sha)
  {
    hide AllMatch, Lists, Secure, Matches, Uploads;
    if e.staging.Some? {
      SameSecure(s, e, e.staging.value.manifest.value, s.staging.value, e.staging.value, sha);
    }
    if e.library.Some? {
      var f := if e.library == s.library then s.library.value else s.staging.value;
      SameSecure(s, e, f.manifest.value, f, e.library.value, sha);
    }
    forall a | 0 <= a < |e.agents| && e.agents[a].Approved? && e.staging.Some?
      ensures Secure(e, e.agents[a].parts, e.staging.value, sha)
    {
      SameSecure(s, e, s.agents[a].parts, s.staging.value, e.staging.value, sha);
    }
  }

  lemma FinishKept(s: State, step: Step, sha: bytes -> string)
    requires Quiet(s, sha) && IsFinish(step)
    ensures Kept(s, FinishStep(s, step))
  {
    hide SecureFolder, Secure, Received, FromApproved;
    if step.StageManifest? && step.a < |s.agents| && s.agents[step.a].Approved? {
      IsFromApproved(s, step.a);
    }
  }

  lemma IsFromApproved(s: State, a: nat)
    requires a < |s.agents| && s.agents[a].Approved?
    ensures FromApproved(s, Some(s.agents[a].parts))
  { }

  lemma RemovalKept(s: State, step: Step, sha: bytes -> string)
    requires Quiet(s, sha) && IsRemoval(step)
    ensures Kept(s, RemovalStep(s, step))
  {
    hide SecureFolder, Secure, FromApproved;
  }

  lemma ServerKept(s: State, step: Step, sha: bytes -> string)
    requires Quiet(s, sha) && !IsUpload(step) && !IsFinish(step) && !IsRemoval(step)
    ensures Kept(s, ServerStep(s, step, sha))
  {
    hide SecureFolder, Secure, FromApproved, Matches;
  }

  lemma QuietRest(s: State, step: Step, sha: bytes -> string)
    requires Quiet(s, sha) && !IsUpload(step)
    ensures Quiet(Next(s, step, sha), sha)
  {
    hide Quiet, Kept, FinishStep, RemovalStep, ServerStep;
    if IsFinish(step) { FinishKept(s, step, sha); }
    else if IsRemoval(step) { RemovalKept(s, step, sha); }
    else { ServerKept(s, step, sha); }
    KeptQuiet(s, Next(s, step, sha), sha);
  }

  lemma {:induction false} QuietRun(s: State, steps: seq<Step>, sha: bytes -> string)
    requires Quiet(s, sha)
    ensures Quiet(Run(s, steps, sha), sha)
  {
    hide Next, Quiet;
    if steps != [] {
      var front, step := steps[..|steps| - 1], steps[|steps| - 1];
      QuietRun(s, front, sha);
      var t := Run(s, front, sha);
      if IsUpload(step) { QuietUpload(t, step, sha); } else { QuietRest(t, step, sha); }
    }
  }

  lemma StartsQuiet(s: State, parts: seq<Part>, sha: bytes -> string)
    requires JustClosed(s, parts, sha) && forall a | 0 <= a < |s.agents| :: !Dangerous(s, parts, a, sha)
    ensures Quiet(s, sha)
  {
    hide AllMatch, Lists;
    forall a | 0 <= a < |s.agents| ensures Harmless(s.agents[a]) { assert !Dangerous(s, parts, a, sha); }
    forall a | 0 <= a < |s.agents| && s.agents[a].Approved? ensures Secure(s, s.agents[a].parts, s.staging.value, sha) {
      assert !Dangerous(s, parts, a, sha);
    }
    forall a | 0 <= a < |s.agents| && s.agents[a].Uploading? ensures !Lists(parts, s.agents[a].file) {
      assert !Dangerous(s, parts, a, sha);
    }
  }

  lemma QuietIsGood(s: State, sha: bytes -> string)
    requires Quiet(s, sha)
    ensures s.library.Some? ==> !Bad(s.library.value, sha)
  { }

  // --- with one ---

  lemma {:induction false} RereadsAll(s: State, parts: seq<Part>, k: nat, sha: bytes -> string)
    returns (steps: seq<Step>)
    requires JustClosed(s, parts, sha) && k <= |parts|
    ensures Run(s, steps, sha) == s.(verifier := Rereading(parts, k))
  {
    hide Run, UploadStep, FinishStep, RemovalStep, Matches;
    if k == 0 {
      OneStep(s, VerifyStart, sha);
      steps := [VerifyStart];
    } else {
      var front := RereadsAll(s, parts, k - 1, sha);
      assert parts[k - 1] in parts;
      steps := OneMore(s, front, Reread, sha);
    }
  }

  lemma EntersBad(s: State, steps: seq<Step>, p: Part, sha: bytes -> string)
    requires var t := Run(s, steps, sha);
      && t.verifier.Rereading? && t.verifier.k == |t.verifier.parts| && t.staging.Some? && t.library.None?
      && t.staging.value.manifest.Some? && p in t.staging.value.manifest.value && !Matches(p, t.staging.value, sha)
    ensures CanSpoil(s, sha)
  {
    hide Run;
    var more := OneMore(s, steps, Enter, sha);
    var f := Run(s, more, sha).library.value;
    assert !Matches(p, f, sha);
    assert Bad(f, sha);
  }

  // The state in which the verifier has reread everything and is about to rename.
  function BeforeRename(s: State, parts: seq<Part>): State { s.(verifier := Rereading(parts, |parts|)) }

  // The late upload ends: it finds the task closed, and takes its file away.
  lemma UploadSpoils(s: State, t: State, steps: seq<Step>, other: seq<Part>, a: nat, sha: bytes -> string)
    requires Run(s, steps, sha) == t && t.verifier.Rereading? && t.verifier.k == |t.verifier.parts|
    requires t.task.Verifying? && t.staging.Some? && t.library.None? && t.staging.value.manifest == Some(other)
    requires a < |t.agents| && t.agents[a].Uploading? && Lists(other, t.agents[a].file)
    ensures CanSpoil(s, sha)
  {
    hide Run, FinishStep, RemovalStep, ServerStep, CanSpoil;
    var p :| p in other && p.file == t.agents[a].file;
    var more := OneMore(s, steps, EndUpload(a), sha);
    EntersBad(s, more, p, sha);
  }

  // A refused request removes the folder it shares with the verifier.
  lemma RemovalSpoils(s: State, t: State, steps: seq<Step>, p: Part, a: nat, sha: bytes -> string)
    requires Run(s, steps, sha) == t && t.verifier.Rereading? && t.verifier.k == |t.verifier.parts|
    requires t.staging.Some? && t.library.None? && t.staging.value.manifest.Some? && p in t.staging.value.manifest.value
    requires a < |t.agents| && t.agents[a] == Deleting(InStaging)
    ensures CanSpoil(s, sha)
  {
    hide Run, FinishStep, UploadStep, ServerStep, CanSpoil;
    var more := OneMore(s, steps, DeleteFile(a, p.file), sha);
    EntersBad(s, more, p, sha);
  }

  lemma RefusedSpoils(s: State, t: State, steps: seq<Step>, p: Part, a: nat, sha: bytes -> string)
    requires Run(s, steps, sha) == t && t.verifier.Rereading? && t.verifier.k == |t.verifier.parts|
    requires t.staging.Some? && t.library.None? && t.staging.value.manifest.Some? && p in t.staging.value.manifest.value
    requires a < |t.agents| && t.agents[a].Refused?
    ensures CanSpoil(s, sha)
  {
    hide Run, FinishStep, UploadStep, ServerStep, CanSpoil;
    var more := OneMore(s, steps, RemoveStaging(a), sha);
    RemovalSpoils(s, Run(s, more, sha), more, p, a, sha);
  }

  lemma CheckingSpoils(s: State, t: State, steps: seq<Step>, p: Part, a: nat, sha: bytes -> string)
    requires Run(s, steps, sha) == t && t.verifier.Rereading? && t.verifier.k == |t.verifier.parts|
    requires t.staging.Some? && t.library.None? && t.staging.value.manifest.Some? && p in t.staging.value.manifest.value
    requires a < |t.agents| && t.agents[a].Checking?
    ensures CanSpoil(s, sha)
  {
    hide Run, RemovalStep, UploadStep, ServerStep, CanSpoil;
    var more := OneMore(s, steps, RefuseManifest(a), sha);
    RefusedSpoils(s, Run(s, more, sha), more, p, a, sha);
  }

  // A second manifest is staged after the verifier has read the first.
  lemma ManifestSpoils(s: State, t: State, steps: seq<Step>, other: seq<Part>, a: nat, sha: bytes -> string)
    requires Run(s, steps, sha) == t && t.verifier.Rereading? && t.verifier.k == |t.verifier.parts|
    requires t.task.Verifying? && t.staging.Some? && t.library.None?
    requires a < |t.agents| && t.agents[a] == Approved(other)
    requires !AllMatch(other, t.staging.value, sha) || Uploads(t, other)
    ensures CanSpoil(s, sha)
  {
    hide Run, RemovalStep, UploadStep, ServerStep, CanSpoil, Lists, Matches;
    var more := OneMore(s, steps, StageManifest(a), sha);
    var e := Run(s, more, sha);
    assert e == t.(staging := Some(t.staging.value.(manifest := Some(other))), agents := t.agents[a := Written]);
    if Uploads(t, other) {
      var b: nat :| b < |t.agents| && t.agents[b].Uploading? && Lists(other, t.agents[b].file);
      UploadSpoils(s, e, more, other, b, sha);
    } else {
      var p :| p in other && !Matches(p, t.staging.value, sha);
      assert !Matches(p, e.staging.value, sha) by { SameMatch(p, t.staging.value, e.staging.value, sha); }
      EntersBad(s, more, p, sha);
    }
  }

  lemma SameMatch(p: Part, f: Folder, g: Folder, sha: bytes -> string)
    requires g.files == f.files
    ensures Matches(p, g, sha) == Matches(p, f, sha)
  { }

  lemma DangerousSpoils(s: State, parts: seq<Part>, a: nat, sha: bytes -> string)
    requires JustClosed(s, parts, sha) && a < |s.agents| && Dangerous(s, parts, a, sha)
    ensures CanSpoil(s, sha)
  {
    hide Run, CanSpoil, Lists, AllMatch;
    var steps := RereadsAll(s, parts, |parts|, sha);
    var t := BeforeRename(s, parts);
    assert parts[0] in parts;
    match s.agents[a] {
      case Uploading(_, _, _) => UploadSpoils(s, t, steps, parts, a, sha);
      case Checking(_) => CheckingSpoils(s, t, steps, parts[0], a, sha);
      case Refused => RefusedSpoils(s, t, steps, parts[0], a, sha);
      case Deleting(_) => RemovalSpoils(s, t, steps, parts[0], a, sha);
      case Approved(other) => ManifestSpoils(s, t, steps, other, a, sha);
    }
  }

  // With any number of requests anywhere when the uploads are closed: an image that does not match its
  // manifest can enter the library if and only if one of the requests is dangerous.
  lemma OverlapHarmsIff(s: State, parts: seq<Part>, sha: bytes -> string)
    requires JustClosed(s, parts, sha)
    ensures CanSpoil(s, sha) <==> exists a :: 0 <= a < |s.agents| && Dangerous(s, parts, a, sha)
  {
    hide Dangerous, Bad, AllMatch, Run, Quiet;
    if exists a :: 0 <= a < |s.agents| && Dangerous(s, parts, a, sha) {
      var a: nat :| a < |s.agents| && Dangerous(s, parts, a, sha);
      DangerousSpoils(s, parts, a, sha);
    } else {
      StartsQuiet(s, parts, sha);
      forall steps ensures !(Run(s, steps, sha).library.Some? && Bad(Run(s, steps, sha).library.value, sha)) {
        QuietRun(s, steps, sha);
        QuietIsGood(Run(s, steps, sha), sha);
      }
    }
  }

  // A second manifest whose files all arrived, but do not hold what their records say, goes into the library
  // behind the verifier's back, and the task is done.
  lemma SecondManifestAdmitted(s: State, parts: seq<Part>, other: seq<Part>, a: nat, sha: bytes -> string)
    requires JustClosed(s, parts, sha) && a < |s.agents| && s.agents[a] == Checking(other)
    requires Received(other, s.staging.value) && !AllMatch(other, s.staging.value, sha)
    ensures exists steps :: DoneButBad(Run(s, steps, sha), sha)
  {
    hide Run, Received, AllMatch, DoneButBad, Next;
    var steps := RereadsAll(s, parts, |parts|, sha);
    var t := BeforeRename(s, parts);
    steps := OneMore(s, steps, CheckManifest(a), sha);
    steps := OneMore(s, steps, StageManifest(a), sha);
    var e := Run(s, steps, sha);
    StagesSecond(t, other, a, sha);
    steps := OneMore(s, steps, Enter, sha);
    steps := OneMore(s, steps, MarkDone, sha);
    SameAllMatch(other, s.staging.value, e.staging.value, sha);
    EntersSecond(e, other, sha);
    assert DoneButBad(Run(s, steps, sha), sha);
  }

  lemma StagesSecond(t: State, other: seq<Part>, a: nat, sha: bytes -> string)
    requires a < |t.agents| && t.agents[a] == Checking(other) && t.staging.Some? && t.library.None?
    requires Received(other, t.staging.value)
    ensures Next(Next(t, CheckManifest(a), sha), StageManifest(a), sha) ==
            t.(staging := Some(t.staging.value.(manifest := Some(other))), agents := t.agents[a := Written])
  {
    hide UploadStep, RemovalStep, ServerStep, Received;
    assert t.agents[a := Approved(other)][a := Written] == t.agents[a := Written];
  }

  lemma SameAllMatch(parts: seq<Part>, f: Folder, g: Folder, sha: bytes -> string)
    requires g.files == f.files
    ensures AllMatch(parts, g, sha) == AllMatch(parts, f, sha)
  {
    forall p | p in parts ensures Matches(p, g, sha) == Matches(p, f, sha) { SameMatch(p, f, g, sha); }
  }

  lemma EntersSecond(e: State, other: seq<Part>, sha: bytes -> string)
    requires e.verifier.Rereading? && e.verifier.k == |e.verifier.parts| && e.task.Verifying? && e.library.None?
    requires e.staging.Some? && e.staging.value.manifest == Some(other) && !AllMatch(other, e.staging.value, sha)
    ensures DoneButBad(Next(Next(e, Enter, sha), MarkDone, sha), sha)
  {
    hide UploadStep, RemovalStep, FinishStep;
    var p :| p in other && !Matches(p, e.staging.value, sha);
    assert !Matches(p, e.staging.value.(records := map[]), sha);
  }

  // --- how a received file comes to differ from its record, and a whole run ---

  function BothIdle(files: map<string, bytes>, records: map<string, string>): State {
    Fresh([Idle, Idle]).(task := Running, staging := Some(Folder(files, records, None)))
  }

  // Two uploads of one file overlap and both end: the bytes are of both, the record is of one.
  lemma MixedUpload(file: string, data: bytes, late: bytes, sha: bytes -> string) returns (steps: seq<Step>)
    ensures Run(Fresh([Idle, Idle]), steps, sha) ==
            BothIdle(map[][file := Patched(data, 0, late)], map[][file := sha(data)])
  {
    hide Run, FinishStep, RemovalStep, ServerStep, Patched;
    var s := Fresh([Idle, Idle]);
    var up := Uploading(file, [], InStaging);
    FirstBytes(data);
    assert [] + data == data && [] + late == late;
    steps := OpensBoth(file, sha);
    steps := OneMore(s, steps, WriteSome(0, data), sha);
    assert Run(s, steps, sha).agents == [Uploading(file, data, InStaging), up];
    var none: map<string, bytes> := map[];
    assert none[file := []][file := data] == none[file := data];
    steps := OneMore(s, steps, WriteSome(1, late), sha);
    assert Run(s, steps, sha).agents == [Uploading(file, data, InStaging), Uploading(file, late, InStaging)];
    assert none[file := data][file := Patched(data, 0, late)] == none[file := Patched(data, 0, late)];
    steps := OneMore(s, steps, EndUpload(1), sha);
    steps := OneMore(s, steps, EndUpload(0), sha);
    var blank: map<string, string> := map[];
    assert blank[file := sha(late)][file := sha(data)] == blank[file := sha(data)];
    assert Run(s, steps, sha).agents == [Idle, Idle];
  }

  lemma NextUpload(files: map<string, bytes>, records: map<string, string>, file: string, data: bytes,
                   sha: bytes -> string)
    returns (steps: seq<Step>)
    ensures Run(BothIdle(files, records), steps, sha) == BothIdle(files[file := data], records[file := sha(data)])
  {
    hide Run, FinishStep, RemovalStep, ServerStep, Patched;
    var s := BothIdle(files, records);
    FirstBytes(data);
    assert [] + data == data;
    OneStep(s, BeginUpload(0, file), sha);
    steps := OneMore(s, [BeginUpload(0, file)], WriteSome(0, data), sha);
    assert files[file := []][file := data] == files[file := data];
    steps := OneMore(s, steps, EndUpload(0), sha);
    assert (records - {file})[file := sha(data)] == records[file := sha(data)];
    assert Run(s, steps, sha).agents == [Idle, Idle];
  }

  // The other request passes the open-task check with its manifest, then this one ends the uploads.
  lemma ClosesBeside(f: Folder, p: Part, other: seq<Part>, sha: bytes -> string) returns (steps: seq<Step>)
    requires f.manifest.None? && Received([p], f)
    ensures Run(BothIdle(f.files, f.records), steps, sha) ==
            Fresh([Idle, Checking(other)]).(task := Verifying, staging := Some(f.(manifest := Some([p]))))
  {
    hide Run, UploadStep, RemovalStep, ServerStep, Received;
    var s := BothIdle(f.files, f.records);
    OneStep(s, BeginFinish(1, other), sha);
    steps := OneMore(s, [BeginFinish(1, other)], BeginFinish(0, [p]), sha);
    assert Run(s, steps, sha) == s.(agents := [Checking([p]), Checking(other)]);
    steps := OneMore(s, steps, CheckManifest(0), sha);
    assert Run(s, steps, sha) == s.(agents := [Approved([p]), Checking(other)]);
    steps := OneMore(s, steps, StageManifest(0), sha);
    steps := OneMore(s, steps, CloseUploads(0), sha);
    assert Run(s, steps, sha).agents == [Idle, Checking(other)];
  }

  // From the beginning: one file uploaded twice at a time, another properly, and two manifests, the second
  // listing both. The image that is admitted and done does not match.
  lemma TwoManifestsAdmitUnverified(a: string, b: string, good: bytes, data: bytes, late: bytes, sha: bytes -> string)
    requires a != b && sha(Patched(data, 0, late)) != sha(data)
    ensures exists steps :: DoneButBad(Run(Fresh([Idle, Idle]), steps, sha), sha)
  {
    hide Run, Next, DoneButBad, Patched;
    var s := Fresh([Idle, Idle]);
    var pa, pb := Part(a, sha(good)), Part(b, sha(data));
    var f := Folder(map[][b := Patched(data, 0, late)][a := good], map[][b := sha(data)][a := sha(good)], None);
    var mixed := MixedUpload(b, data, late, sha);
    var next := NextUpload(map[][b := Patched(data, 0, late)], map[][b := sha(data)], a, good, sha);
    var close := ClosesBeside(f, pa, [pa, pb], sha);
    RunSplits(s, mixed, next, sha);
    RunSplits(s, mixed + next, close, sha);
    var t := Run(s, mixed + next + close, sha);
    assert t.staging == Some(f.(manifest := Some([pa])));
    assert !Matches(pb, t.staging.value, sha) && Matches(pa, t.staging.value, sha) && pb in [pa, pb];
    SecondManifestAdmitted(t, [pa], [pa, pb], 1, sha);
    var rest :| DoneButBad(Run(t, rest, sha), sha);
    RunSplits(s, mixed + next + close, rest, sha);
  }
}
