// Concurrent imports entering the library: every step of the renames, checks and clean-ups of any
// number of imports, interleaved in any order. A crash leaves the state some prefix of steps made.
module Admission {
  import opened Wrappers
  import opened Import

  datatype Pc =
    | Staged                      // manifest parked, archive extracted under a private name
    | Checked                     // the id was free when looked at
    | Verifying(k: nat)           // renamed into the library, first k partitions compared
    | Clearing(left: set<Path>)   // refused: its folder is being removed, file by file
    | Succeeded
    | Failed

  // An import's folder with the manifest parked, the digests it kept, if it kept any, and the ids its
  // caller found in the library before the import began.
  datatype Proc = Proc(
    manifest: Manifest, files: Files, known: Option<map<Path, string>>, snapshot: set<string>, pc: Pc)

  type Library = map<string, Files>

  // The non-dot folders of the library, and the imports at work.
  datatype State = State(lib: Library, procs: seq<Proc>)

  datatype Step =
    | Check(i: nat)
    | Rename(i: nat)
    | Compare(i: nat)
    | Abort(i: nat)     // anything raised while verifying, the closing rename included
    | Publish(i: nat)
    | Unlink(i: nat, name: Path)
    | Rmdir(i: nat)
    | Stop(i: nat)      // the import ends where it is: refused before the rename, or killed

  function Go(s: State, i: nat, pc: Pc): State
    requires i < |s.procs|
  {
    s.(procs := s.procs[i := s.procs[i].(pc := pc)])
  }

  // --- what the library shows ---

  // The scan finds a manifest at any depth, unless a directory above it starts with a dot.
  predicate Shown(q: Path) {
    q != [] && q[|q| - 1] == "manifest.json" && forall j | 0 <= j < |q| - 1 :: !(q[j] != "" && q[j][0] == '.')
  }

  function Beside(q: Path, file: string): Path
    requires q != []
  {
    q[..|q| - 1] + [file]
  }

  // The manifest at q is readable and every partition beside it matches its digest.
  ghost predicate Good(folder: Files, q: Path, env: Env) {
    && q != [] && q in folder && env.read(folder[q]).Some?
    && forall p | p in env.read(folder[q]).value.parts ::
         Beside(q, p.file) in folder && env.sha(folder[Beside(q, p.file)]) == p.sha
  }

  // The file at q is a valid manifest of that id where the scan looks.
  ghost predicate Claims(files: Files, q: Path, id: string, env: Env) {
    q in files && Shown(q) && env.read(files[q]).Some? && env.read(files[q]).value.id == id
  }

  ghost predicate Offers(lib: Library, x: string, q: Path, id: string, env: Env) {
    x in lib && Claims(lib[x], q, id, env)
  }

  // The image the library serves under an id. One that two manifests claim is served for neither.
  ghost predicate Serves(lib: Library, x: string, q: Path, id: string, env: Env) {
    Offers(lib, x, q, id, env) && forall y, r | Offers(lib, y, r, id, env) :: y == x && r == q
  }

  ghost predicate Listed(lib: Library, id: string, env: Env) { exists x, q :: Serves(lib, x, q, id, env) }

  ghost predicate Taken(lib: Library, id: string, env: Env) { id in lib || Listed(lib, id, env) }

  // A folder that a concurrent clean-up has just emptied can still be renamed onto.
  predicate Occupied(s: State, id: string) { id in s.lib && s.lib[id] != map[] }

  ghost function Next(s: State, step: Step, env: Env): State {
    var i := step.i;
    if i >= |s.procs| then s
    else
      var p := s.procs[i];
      var id := p.manifest.id;
      match (step, p.pc)
      case (Check(_), Staged) => Go(s, i, if id in p.snapshot || Taken(s.lib, id, env) then Failed else Checked)
      case (Rename(_), Checked) =>
        if Occupied(s, id) then Go(s, i, Failed)
        else Go(s.(lib := s.lib[id := p.files]), i, Verifying(0))
      case (Compare(_), Verifying(k)) =>
        if k >= |p.manifest.parts| || id !in s.lib then s
        else if Verified(p.manifest.parts[k], s.lib[id], env, p.known) then Go(s, i, Verifying(k + 1))
        else Go(s, i, Clearing(s.lib[id].Keys))
      case (Abort(_), Verifying(_)) => if id !in s.lib then s else Go(s, i, Clearing(s.lib[id].Keys))
      case (Publish(_), Verifying(k)) =>
        if k < |p.manifest.parts| || id !in s.lib || UNVERIFIED !in s.lib[id] then s
        else Go(s.(lib := s.lib[id := Published(s.lib[id])]), i, Succeeded)
      case (Unlink(_, name), Clearing(left)) =>
        if name !in left || id !in s.lib then s
        else Go(s.(lib := s.lib[id := s.lib[id] - {name}]), i, Clearing(left - {name}))
      case (Rmdir(_), Clearing(left)) =>
        if left != {} then s
        else if id in s.lib && s.lib[id] == map[] then Go(s.(lib := s.lib - {id}), i, Failed)
        else Go(s, i, Failed)
      case (Stop(_), _) => if p.pc.Succeeded? then s else Go(s, i, Failed)
      case _ => s
  }

  ghost function Run(s: State, steps: seq<Step>, env: Env): State {
    if steps == [] then s else Next(Run(s, steps[..|steps| - 1], env), steps[|steps| - 1], env)
  }

  // What extraction hands to the admission step.
  ghost predicate WellStaged(p: Proc, env: Env) {
    && UNVERIFIED in p.files && MANIFEST !in p.files
    && env.read(p.files[UNVERIFIED]) == Some(p.manifest)
    && (p.known.Some? ==>
          (forall q | q in p.files && q != UNVERIFIED ::
             q in p.known.value && p.known.value[q] == env.sha(p.files[q])))
  }

  predicate Holds(p: Proc) { p.pc.Verifying? || p.pc.Succeeded? || (p.pc.Clearing? && p.pc.left != {}) }

  // What an import that holds its folder knows about it.
  ghost predicate Owns(p: Proc, lib: Library, env: Env) {
    var id := p.manifest.id;
    && id in lib
    && (p.pc.Verifying? ==> lib[id] == p.files && p.pc.k <= |p.manifest.parts|)
    && (p.pc.Verifying? ==> forall j | 0 <= j < p.pc.k :: Verified(p.manifest.parts[j], p.files, env, p.known))
    && UNVERIFIED in p.files
    && (p.pc.Succeeded? ==> lib[id] == Published(p.files))
    && (p.pc.Clearing? ==> lib[id].Keys == p.pc.left && MANIFEST !in lib[id])
  }

  // `before` is the library the imports started from.
  ghost predicate Inv(s: State, before: Library, env: Env) {
    && (forall i | 0 <= i < |s.procs| :: WellStaged(s.procs[i], env))
    && (forall i | 0 <= i < |s.procs| && Holds(s.procs[i]) :: Owns(s.procs[i], s.lib, env))
    && (forall i, j | 0 <= i < j < |s.procs| && Holds(s.procs[i]) && Holds(s.procs[j]) ::
          s.procs[i].manifest.id != s.procs[j].manifest.id)
    && (forall i | 0 <= i < |s.procs| && Holds(s.procs[i]) ::
          s.procs[i].manifest.id in before ==> before[s.procs[i].manifest.id] == map[])
    && (forall x | x in before && before[x] != map[] :: x in s.lib && s.lib[x] == before[x])
  }

  ghost predicate Init(s: State, env: Env) {
    forall i | 0 <= i < |s.procs| :: s.procs[i].pc.Staged? && WellStaged(s.procs[i], env)
  }

  // A step that only moves an import on: it may not start to hold a folder.
  lemma MoveKeeps(s: State, i: nat, pc: Pc, before: Library, env: Env)
    requires Inv(s, before, env) && i < |s.procs|
    requires var p := s.procs[i].(pc := pc); Holds(p) ==> Holds(s.procs[i]) && Owns(p, s.lib, env)
    ensures Inv(Go(s, i, pc), before, env)
  {
    hide WellStaged, Owns, Holds;
    SameStaging(s.procs[i], pc, env);
  }

  lemma SameStaging(p: Proc, pc: Pc, env: Env)
    ensures WellStaged(p.(pc := pc), env) == WellStaged(p, env)
  { }

  // A step that also writes the folder of an import's id, which no other import holds.
  lemma WriteKeeps(s: State, i: nat, pc: Pc, lib: Library, before: Library, env: Env)
    requires Inv(s, before, env) && i < |s.procs|
    requires var id := s.procs[i].manifest.id;
      && (forall x :: x != id ==> (x in lib <==> x in s.lib))
      && (forall x | x != id && x in lib :: lib[x] == s.lib[x])
      && (forall j | 0 <= j < |s.procs| && j != i && Holds(s.procs[j]) :: s.procs[j].manifest.id != id)
      && (id in before ==> before[id] == map[])
      && (Holds(s.procs[i].(pc := pc)) ==> Owns(s.procs[i].(pc := pc), lib, env))
    ensures Inv(Go(s.(lib := lib), i, pc), before, env)
  {
    hide WellStaged, Holds;
    SameStaging(s.procs[i], pc, env);
  }

  // A held folder is never empty, so nothing can be renamed onto it.
  lemma HeldNonempty(s: State, j: nat, before: Library, env: Env)
    requires Inv(s, before, env) && j < |s.procs| && Holds(s.procs[j])
    ensures Occupied(s, s.procs[j].manifest.id)
  {
    var p, folder := s.procs[j], s.lib[s.procs[j].manifest.id];
    assert Owns(p, s.lib, env);
    if p.pc.Verifying? { assert UNVERIFIED in folder; }
    if p.pc.Succeeded? { assert MANIFEST in folder; }
    if p.pc.Clearing? { assert folder.Keys == p.pc.left; }
  }

  lemma NobodyHolds(s: State, id: string, before: Library, env: Env)
    requires Inv(s, before, env) && !Occupied(s, id)
    ensures forall j | 0 <= j < |s.procs| && Holds(s.procs[j]) :: s.procs[j].manifest.id != id
    ensures id in before ==> before[id] == map[]
  {
    hide WellStaged, Owns, Holds;
    forall j | 0 <= j < |s.procs| && Holds(s.procs[j]) ensures s.procs[j].manifest.id != id {
      HeldNonempty(s, j, before, env);
    }
  }

  lemma StepKeeps(s: State, step: Step, before: Library, env: Env)
    requires Inv(s, before, env)
    ensures Inv(Next(s, step, env), before, env)
  {
    hide Inv, Verified, Taken;
    var i := step.i;
    if i >= |s.procs| || Next(s, step, env) == s { return; }
    var p := s.procs[i];
    var id := p.manifest.id;
    OwnerFacts(s, i, before, env);
    match step {
      case Check(_) => MoveKeeps(s, i, Next(s, step, env).procs[i].pc, before, env);
      case Stop(_) => MoveKeeps(s, i, Failed, before, env);
      case Compare(_) => MoveKeeps(s, i, Next(s, step, env).procs[i].pc, before, env);
      case Abort(_) => MoveKeeps(s, i, Clearing(s.lib[id].Keys), before, env);
      case Rename(_) =>
        if Occupied(s, id) {
          MoveKeeps(s, i, Failed, before, env);
        } else {
          NobodyHolds(s, id, before, env);
          WriteKeeps(s, i, Verifying(0), s.lib[id := p.files], before, env);
        }
      case Publish(_) =>
        WriteKeeps(s, i, Succeeded, s.lib[id := Published(s.lib[id])], before, env);
      case Unlink(_, name) =>
        WriteKeeps(s, i, Clearing(p.pc.left - {name}), s.lib[id := s.lib[id] - {name}], before, env);
      case Rmdir(_) =>
        if id in s.lib && s.lib[id] == map[] {
          NobodyHolds(s, id, before, env);
          WriteKeeps(s, i, Failed, s.lib - {id}, before, env);
        } else {
          MoveKeeps(s, i, Failed, before, env);
        }
    }
  }

  lemma OwnerFacts(s: State, i: nat, before: Library, env: Env)
    requires Inv(s, before, env) && i < |s.procs|
    ensures WellStaged(s.procs[i], env)
    ensures Holds(s.procs[i]) ==>
      && Owns(s.procs[i], s.lib, env)
      && (forall j | 0 <= j < |s.procs| && j != i && Holds(s.procs[j]) ::
            s.procs[j].manifest.id != s.procs[i].manifest.id)
      && (s.procs[i].manifest.id in before ==> before[s.procs[i].manifest.id] == map[])
  { }

  // Every state of every interleaving, so also every state a crash can leave.
  lemma {:induction false} RunKeeps(s: State, steps: seq<Step>, env: Env)
    requires Init(s, env)
    ensures Inv(Run(s, steps, env), s.lib, env)
  {
    hide Next, Owns, WellStaged;
    if steps != [] {
      RunKeeps(s, steps[..|steps| - 1], env);
      StepKeeps(Run(s, steps[..|steps| - 1], env), steps[|steps| - 1], s.lib, env);
    }
  }

  // Two imports of one id never both succeed, a success keeps its own files, and no folder that had
  // anything in it is overwritten.
  lemma NoOverwrite(s: State, steps: seq<Step>, env: Env)
    requires Init(s, env)
    ensures var t := Run(s, steps, env);
      && (forall i, j | 0 <= i < j < |t.procs| && t.procs[i].pc.Succeeded? && t.procs[j].pc.Succeeded? ::
            t.procs[i].manifest.id != t.procs[j].manifest.id)
      && (forall i | 0 <= i < |t.procs| && t.procs[i].pc.Succeeded? ::
            && t.procs[i].manifest.id in t.lib && UNVERIFIED in t.procs[i].files
            && t.lib[t.procs[i].manifest.id] == Published(t.procs[i].files))
      && (forall x | x in s.lib && s.lib[x] != map[] :: x in t.lib && t.lib[x] == s.lib[x])
  {
    hide Run, Init;
    RunKeeps(s, steps, env);
  }

  // --- a refused import ---

  lemma FirstThen(s: State, step: Step, rest: seq<Step>, env: Env)
    ensures Run(s, [step] + rest, env) == Run(Next(s, step, env), rest, env)
    decreases |rest|
  {
    hide Next;
    var all := [step] + rest;
    if rest == [] {
      assert all[..|all| - 1] == [] && Run(s, [], env) == s;
    } else {
      assert all[..|all| - 1] == [step] + rest[..|rest| - 1];
      FirstThen(s, step, rest[..|rest| - 1], env);
    }
  }

  lemma NoStep(s: State, env: Env)
    ensures Run(s, [], env) == s
  { }

  // The clean-up of a refused import, left alone, comes to its end and leaves nothing of the folder.
  lemma {:induction false} ClearingEnds(s: State, i: nat, env: Env) returns (steps: seq<Step>)
    requires i < |s.procs| && s.procs[i].pc.Clearing? && s.procs[i].manifest.id in s.lib
    requires s.lib[s.procs[i].manifest.id].Keys == s.procs[i].pc.left
    ensures Run(s, steps, env) == Go(s.(lib := s.lib - {s.procs[i].manifest.id}), i, Failed)
    decreases |s.procs[i].pc.left|
  {
    hide Run;
    var left, id := s.procs[i].pc.left, s.procs[i].manifest.id;
    if left == {} {
      steps := [Rmdir(i)];
      assert s.lib[id] == map[];
      FirstThen(s, Rmdir(i), [], env);
      NoStep(Next(s, Rmdir(i), env), env);
      assert [Rmdir(i)] + [] == [Rmdir(i)];
    } else {
      var name :| name in left;
      var t := Next(s, Unlink(i, name), env);
      assert t == Go(s.(lib := s.lib[id := s.lib[id] - {name}]), i, Clearing(left - {name}));
      var rest := ClearingEnds(t, i, env);
      steps := [Unlink(i, name)] + rest;
      FirstThen(s, Unlink(i, name), rest, env);
      assert t.lib - {id} == s.lib - {id};
      assert Go(t.(lib := t.lib - {id}), i, Failed) == Go(s.(lib := s.lib - {id}), i, Failed);
    }
  }

  // From the rename on, with a partition ahead that does not match.
  lemma {:induction false} MismatchEnds(s: State, i: nat, env: Env) returns (steps: seq<Step>)
    requires i < |s.procs| && s.procs[i].pc.Verifying? && s.procs[i].manifest.id in s.lib
    requires var p := s.procs[i];
      exists j | p.pc.k <= j < |p.manifest.parts| :: !Verified(p.manifest.parts[j], s.lib[p.manifest.id], env, p.known)
    ensures Run(s, steps, env) == Go(s.(lib := s.lib - {s.procs[i].manifest.id}), i, Failed)
    decreases |s.procs[i].manifest.parts| - s.procs[i].pc.k
  {
    hide Run, Verified;
    var p := s.procs[i];
    var t := Next(s, Compare(i), env);
    var rest;
    if Verified(p.manifest.parts[p.pc.k], s.lib[p.manifest.id], env, p.known) {
      rest := MismatchEnds(t, i, env);
    } else {
      rest := ClearingEnds(t, i, env);
    }
    steps := [Compare(i)] + rest;
    FirstThen(s, Compare(i), rest, env);
    assert Go(t.(lib := t.lib - {p.manifest.id}), i, Failed) == Go(s.(lib := s.lib - {p.manifest.id}), i, Failed);
  }

  // An import whose id is free and that has a partition which does not match, left alone: it is refused
  // and the library is what it was.
  lemma RefusedLeavesNothing(s: State, i: nat, env: Env) returns (steps: seq<Step>)
    requires i < |s.procs| && s.procs[i].pc.Staged?
    requires var p := s.procs[i];
      && p.manifest.id !in p.snapshot && !Taken(s.lib, p.manifest.id, env)
      && exists j | 0 <= j < |p.manifest.parts| :: !Verified(p.manifest.parts[j], p.files, env, p.known)
    ensures Run(s, steps, env) == Go(s, i, Failed)
  {
    hide Run, Verified, Listed;
    var id := s.procs[i].manifest.id;
    var t := Next(s, Check(i), env);
    var u := Next(t, Rename(i), env);
    var rest := MismatchEnds(u, i, env);
    steps := [Check(i)] + ([Rename(i)] + rest);
    FirstThen(t, Rename(i), rest, env);
    FirstThen(s, Check(i), [Rename(i)] + rest, env);
    assert u.lib - {id} == s.lib;
  }

  // Anything that is raised between the rename and the closing rename takes the folder out again.
  lemma AbortLeavesNothing(s: State, i: nat, env: Env) returns (steps: seq<Step>)
    requires i < |s.procs| && s.procs[i].pc.Verifying? && s.procs[i].manifest.id in s.lib
    ensures Run(Next(s, Abort(i), env), steps, env) == Go(s.(lib := s.lib - {s.procs[i].manifest.id}), i, Failed)
  {
    steps := ClearingEnds(Next(s, Abort(i), env), i, env);
  }
}
