// What the library serves while imports run: exactly when a visible image is a verified image, and when
// an image that is served stays served.
module Visibility {
  import opened Words
  import opened Wrappers
  import opened Import
  import opened Admission

  // --- which imports can get into the library at all ---

  // The import carries a second manifest of that id, which nothing verifies.
  ghost predicate Doubles(p: Proc, id: string, env: Env) { exists q :: |q| > 1 && Claims(p.files, q, id, env) }

  // The first import's id is not listed; every later one's id is, and the import before it carries a second
  // manifest of that id, so that the library serves it for neither.
  ghost predicate Chain(s: State, c: seq<nat>, env: Env) {
    && c != [] && (forall k | 0 <= k < |c| :: c[k] < |s.procs|)
    && (forall k | 0 <= k < |c| :: s.procs[c[k]].manifest.id !in s.procs[c[k]].snapshot)
    && (forall k | 0 <= k < |c| :: s.procs[c[k]].manifest.id !in s.lib)
    && !Listed(s.lib, s.procs[c[0]].manifest.id, env)
    && (forall k | 0 <= k < |c| - 1 :: Doubles(s.procs[c[k]], s.procs[c[k + 1]].manifest.id, env))
  }

  ghost predicate CanEnter(s: State, i: nat, env: Env) {
    exists c: seq<nat> :: Chain(s, c, env) && c[|c| - 1] == i
  }

  ghost predicate Free(s: State, i: nat, env: Env) {
    i < |s.procs| && s.procs[i].manifest.id !in s.procs[i].snapshot && !Taken(s.lib, s.procs[i].manifest.id, env)
  }

  lemma FreeCanEnter(s: State, i: nat, env: Env)
    requires Free(s, i, env)
    ensures Chain(s, [i], env) && CanEnter(s, i, env)
  {
    hide Listed;
    assert [i][|[i]| - 1] == i;
  }

  lemma NextCanEnter(s: State, i: nat, j: nat, env: Env)
    requires CanEnter(s, j, env) && i < |s.procs| && s.procs[i].manifest.id !in s.procs[i].snapshot
    requires s.procs[i].manifest.id !in s.lib && Doubles(s.procs[j], s.procs[i].manifest.id, env)
    ensures CanEnter(s, i, env)
  {
    hide Listed, Doubles;
    var c: seq<nat> :| Chain(s, c, env) && c[|c| - 1] == j;
    var d := c + [i];
    assert forall k | 0 <= k < |c| :: d[k] == c[k];
    assert Chain(s, d, env) && d[|d| - 1] == i;
  }

  // --- where everything new in the library comes from ---

  ghost predicate AllVerified(p: Proc, env: Env) {
    forall q | q in p.manifest.parts :: Verified(q, p.files, env, p.known)
  }

  // A valid manifest of the folder is one the archive carried below the top, or the import's own, all
  // partitions compared.
  ghost predicate FromImport(folder: Files, p: Proc, env: Env) {
    forall q, id | Claims(folder, q, id, env) ::
      || (|q| > 1 && Claims(p.files, q, id, env))
      || (q == MANIFEST && id == p.manifest.id && AllVerified(p, env) &&
          (!Reserved(p.manifest) ==> Good(folder, q, env)))
  }

  ghost predicate Owned(lib: Library, x: string, s: State, env: Env)
    requires x in lib
  {
    exists i: nat ::
      i < |s.procs| && CanEnter(s, i, env) && s.procs[i].manifest.id == x && FromImport(lib[x], s.procs[i], env)
  }

  predicate Active(p: Proc) { !p.pc.Staged? && !p.pc.Failed? }

  // `s` is the state the run started from.
  ghost predicate Traced(t: State, s: State, env: Env) {
    && |t.procs| == |s.procs|
    && (forall i | 0 <= i < |t.procs| :: t.procs[i].(pc := Staged) == s.procs[i].(pc := Staged))
    && (forall i: nat | i < |t.procs| && Active(t.procs[i]) :: CanEnter(s, i, env))
    && (forall x | x in s.lib :: x in t.lib && t.lib[x] == s.lib[x])
    && (forall x | x in t.lib && x !in s.lib :: Owned(t.lib, x, s, env))
  }

  // An import passes its check only if it is one of those that can enter.
  lemma CheckedCanEnter(t: State, s: State, i: nat, env: Env)
    requires Traced(t, s, env) && i < |t.procs|
    requires s.procs[i].manifest.id !in s.procs[i].snapshot && !Taken(t.lib, s.procs[i].manifest.id, env)
    ensures CanEnter(s, i, env)
  {
    hide CanEnter, Chain, Doubles;
    var id := s.procs[i].manifest.id;
    if Listed(s.lib, id, env) {
      var x, q :| Serves(s.lib, x, q, id, env);
      assert Offers(t.lib, x, q, id, env);
      assert !Serves(t.lib, x, q, id, env);
      var y, r :| Offers(t.lib, y, r, id, env) && !(y == x && r == q);
      assert y in s.lib ==> Offers(s.lib, y, r, id, env);
      var j := OwnerOf(t, s, y, env);
      DoublesIn(s.procs[j], t.lib[y], r, id, env);
      NextCanEnter(s, i, j, env);
    } else {
      FreeCanEnter(s, i, env);
    }
  }

  lemma OwnerOf(t: State, s: State, x: string, env: Env) returns (i: nat)
    requires Traced(t, s, env) && x in t.lib && x !in s.lib
    ensures i < |s.procs| && CanEnter(s, i, env) && s.procs[i].manifest.id == x
    ensures FromImport(t.lib[x], s.procs[i], env)
  {
    hide CanEnter, FromImport;
    i :| i < |s.procs| && CanEnter(s, i, env) && s.procs[i].manifest.id == x && FromImport(t.lib[x], s.procs[i], env);
  }

  lemma DoublesIn(p: Proc, folder: Files, q: Path, id: string, env: Env)
    requires FromImport(folder, p, env) && Claims(folder, q, id, env) && p.manifest.id != id
    ensures Doubles(p, id, env)
  { }

  // A step that leaves the library alone.
  lemma MoveTraced(t: State, s: State, i: nat, pc: Pc, env: Env)
    requires Traced(t, s, env) && i < |t.procs|
    requires Active(t.procs[i].(pc := pc)) ==> CanEnter(s, i, env)
    ensures Traced(Go(t, i, pc), s, env)
  {
    hide CanEnter, Owned;
    assert t.procs[i].(pc := pc).(pc := Staged) == t.procs[i].(pc := Staged);
  }

  // A step that writes or removes the folder of an import past its check.
  lemma WriteTraced(t: State, s: State, i: nat, pc: Pc, lib: Library, env: Env)
    requires Traced(t, s, env) && i < |t.procs| && CanEnter(s, i, env)
    requires var id := s.procs[i].manifest.id;
      && id !in s.lib
      && (forall x :: x != id ==> (x in lib <==> x in t.lib))
      && (forall x | x != id && x in lib :: lib[x] == t.lib[x])
      && (id in lib ==> exists j: nat :: j < |s.procs| && CanEnter(s, j, env) && s.procs[j].manifest.id == id &&
                                         FromImport(lib[id], s.procs[j], env))
    ensures Traced(Go(t.(lib := lib), i, pc), s, env)
  {
    hide CanEnter, FromImport;
    assert t.procs[i].(pc := pc).(pc := Staged) == t.procs[i].(pc := Staged);
    forall x | x in lib && x !in s.lib ensures Owned(lib, x, s, env) {
      if x != s.procs[i].manifest.id { assert Owned(t.lib, x, s, env); }
    }
  }

  lemma EnteredIdIsNew(s: State, i: nat, env: Env)
    requires CanEnter(s, i, env)
    ensures i < |s.procs| && s.procs[i].manifest.id !in s.lib
  {
    hide Listed, Doubles;
    var c: seq<nat> :| Chain(s, c, env) && c[|c| - 1] == i;
  }

  // --- what each write puts there ---

  lemma TopOrNested(q: Path)
    requires Shown(q)
    ensures |q| > 1 || q == MANIFEST
  {
    assert q == q[..|q| - 1] + [q[|q| - 1]];
  }

  lemma StagedFolder(p: Proc, env: Env)
    requires WellStaged(p, env)
    ensures FromImport(p.files, p, env)
  {
    forall q, id | Claims(p.files, q, id, env) ensures |q| > 1 { TopOrNested(q); }
  }

  lemma PublishedFolder(p: Proc, env: Env)
    requires WellStaged(p, env) && AllVerified(p, env)
    ensures FromImport(Published(p.files), p, env)
    ensures Claims(Published(p.files), MANIFEST, p.manifest.id, env)
  {
    var f := Published(p.files);
    forall q, id | Claims(f, q, id, env) && q != MANIFEST ensures |q| > 1 && Claims(p.files, q, id, env) {
      TopOrNested(q);
    }
    if !Reserved(p.manifest) {
      forall q | q in p.manifest.parts
        ensures Beside(MANIFEST, q.file) in f && env.sha(f[Beside(MANIFEST, q.file)]) == q.sha
      {
        assert Verified(q, p.files, env, p.known);
        assert Beside(MANIFEST, q.file) == [q.file];
      }
    }
  }

  lemma UnlinkedFolder(folder: Files, p: Proc, name: Path, env: Env)
    requires FromImport(folder, p, env) && MANIFEST !in folder
    ensures FromImport(folder - {name}, p, env)
  {
    forall q, id | Claims(folder - {name}, q, id, env) ensures |q| > 1 && Claims(p.files, q, id, env) {
      assert Claims(folder, q, id, env);
    }
  }

  // At the closing rename the folder is as extracted, and every partition was compared.
  lemma OwnedFiles(t: State, i: nat, before: Library, env: Env)
    requires Inv(t, before, env) && i < |t.procs| && t.procs[i].pc.Verifying?
    requires t.procs[i].pc.k >= |t.procs[i].manifest.parts|
    ensures t.procs[i].manifest.id in t.lib && t.lib[t.procs[i].manifest.id] == t.procs[i].files
    ensures AllVerified(t.procs[i], env)
  {
    hide Verified;
    OwnerFacts(t, i, before, env);
  }

  lemma SameImport(folder: Files, p: Proc, q: Proc, env: Env)
    requires p.(pc := Staged) == q.(pc := Staged)
    ensures FromImport(folder, p, env) == FromImport(folder, q, env) && AllVerified(p, env) == AllVerified(q, env)
  { }

  lemma StepTraced(t: State, step: Step, s: State, env: Env)
    requires Inv(t, s.lib, env) && Traced(t, s, env)
    ensures Traced(Next(t, step, env), s, env)
  {
    hide Inv, Verified, Taken, Good, Shown, Owns, FromImport, CanEnter, Owned, AllVerified;
    var i := step.i;
    if i >= |t.procs| || Next(t, step, env) == t { return; }
    var p := t.procs[i];
    var id := p.manifest.id;
    OwnerFacts(t, i, s.lib, env);
    if Active(p) { EnteredIdIsNew(s, i, env); }
    match step {
      case Check(_) =>
        if id !in p.snapshot && !Taken(t.lib, id, env) { CheckedCanEnter(t, s, i, env); }
        MoveTraced(t, s, i, Next(t, step, env).procs[i].pc, env);
      case Stop(_) => MoveTraced(t, s, i, Failed, env);
      case Compare(_) => MoveTraced(t, s, i, Next(t, step, env).procs[i].pc, env);
      case Abort(_) => MoveTraced(t, s, i, Clearing(t.lib[id].Keys), env);
      case Rename(_) =>
        if Occupied(t, id) {
          MoveTraced(t, s, i, Failed, env);
        } else {
          StagedFolder(p, env);
          SameImport(p.files, p, s.procs[i], env);
          WriteTraced(t, s, i, Verifying(0), t.lib[id := p.files], env);
        }
      case Publish(_) =>
        OwnedFiles(t, i, s.lib, env);
        PublishedFolder(p, env);
        SameImport(Published(p.files), p, s.procs[i], env);
        WriteTraced(t, s, i, Succeeded, t.lib[id := Published(t.lib[id])], env);
      case Unlink(_, name) =>
        ClearingHolds(t, i, s.lib, env);
        var j := OwnerOf(t, s, id, env);
        UnlinkedFolder(t.lib[id], s.procs[j], name, env);
        WriteTraced(t, s, i, Clearing(p.pc.left - {name}), t.lib[id := t.lib[id] - {name}], env);
      case Rmdir(_) =>
        if id in t.lib && t.lib[id] == map[] {
          WriteTraced(t, s, i, Failed, t.lib - {id}, env);
        } else {
          MoveTraced(t, s, i, Failed, env);
        }
    }
  }

  lemma ClearingHolds(t: State, i: nat, before: Library, env: Env)
    requires Inv(t, before, env) && i < |t.procs| && t.procs[i].pc.Clearing? && t.procs[i].pc.left != {}
    ensures t.procs[i].manifest.id in t.lib && MANIFEST !in t.lib[t.procs[i].manifest.id]
  {
    OwnerFacts(t, i, before, env);
  }

  // In every state of every run: imports past their check are among those that can enter, the old library
  // stands, and every new folder is an import's.
  lemma {:induction false} RunTraced(s: State, steps: seq<Step>, env: Env)
    requires Init(s, env)
    ensures Traced(Run(s, steps, env), s, env)
  {
    hide Next, Inv, WellStaged, CanEnter, Owned;
    if steps != [] {
      RunTraced(s, steps[..|steps| - 1], env);
      RunKeeps(s, steps[..|steps| - 1], env);
      StepTraced(Run(s, steps[..|steps| - 1], env), steps[|steps| - 1], s, env);
    }
  }

  // --- a visible image is a verified image ---

  ghost predicate AllGood(lib: Library, before: Library, env: Env) {
    forall x, q, id | Serves(lib, x, q, id, env) :: (x in before && lib[x] == before[x]) || Good(lib[x], q, env)
  }

  ghost predicate Claimed(lib: Library, id: string, env: Env) { exists x, q :: Offers(lib, x, q, id, env) }

  // The import carries a second manifest whose id nothing in the library claims.
  ghost predicate BringsNested(s: State, i: nat, env: Env)
    requires i < |s.procs|
  {
    exists id :: Doubles(s.procs[i], id, env) && !Claimed(s.lib, id, env)
  }

  // Or it gets a partition of the reserved name past the comparison, under such an id.
  ghost predicate BringsReserved(s: State, i: nat, env: Env)
    requires i < |s.procs|
  {
    && Reserved(s.procs[i].manifest) && AllVerified(s.procs[i], env)
    && !Claimed(s.lib, s.procs[i].manifest.id, env)
  }

  ghost predicate NoneHarmful(s: State, env: Env) {
    forall i: nat | i < |s.procs| && CanEnter(s, i, env) :: !BringsNested(s, i, env) && !BringsReserved(s, i, env)
  }

  // What is claimed twice is not served: the claim of the old library stands.
  lemma ServedIsNew(t: State, s: State, x: string, q: Path, id: string, env: Env)
    requires Traced(t, s, env) && Serves(t.lib, x, q, id, env) && x !in s.lib
    ensures !Claimed(s.lib, id, env)
  {
    hide Owned;
    forall y, r ensures !Offers(s.lib, y, r, id, env) {
      assert Offers(s.lib, y, r, id, env) ==> Offers(t.lib, y, r, id, env);
    }
  }

  lemma GoodOrHarmful(folder: Files, s: State, i: nat, q: Path, id: string, env: Env)
    requires i < |s.procs| && FromImport(folder, s.procs[i], env)
    requires Claims(folder, q, id, env) && !Claimed(s.lib, id, env)
    ensures BringsNested(s, i, env) || BringsReserved(s, i, env) || Good(folder, q, env)
  {
    hide Good, Claimed, Reserved, AllVerified, Shown;
    if |q| > 1 && Claims(s.procs[i].files, q, id, env) { assert Doubles(s.procs[i], id, env); }
  }

  // Whatever image the library serves, at any moment of any run and from whatever depth, was there before,
  // untouched, or every partition beside its manifest matches.
  lemma VisibleIsVerified(s: State, steps: seq<Step>, env: Env)
    requires Init(s, env) && NoneHarmful(s, env)
    ensures AllGood(Run(s, steps, env).lib, s.lib, env)
  {
    hide Run, Init, Good, CanEnter, Claimed, Reserved, AllVerified, Shown;
    RunTraced(s, steps, env);
    var t := Run(s, steps, env);
    forall x, q, id | Serves(t.lib, x, q, id, env)
      ensures (x in s.lib && t.lib[x] == s.lib[x]) || Good(t.lib[x], q, env)
    {
      if x !in s.lib {
        var i := OwnerOf(t, s, x, env);
        ServedIsNew(t, s, x, q, id, env);
        GoodOrHarmful(t.lib[x], s, i, q, id, env);
      }
    }
  }

  // --- and the runs in which it is not ---

  // Validation demands a partition with data, and no text holds its own SHA-256.
  ghost predicate Sound(env: Env) {
    forall b | env.read(b).Some? ::
      exists p | p in env.read(b).value.parts :: p.file != "manifest.json" || p.sha != env.sha(b)
  }

  ghost predicate AlwaysGood(s: State, env: Env) { forall steps :: AllGood(Run(s, steps, env).lib, s.lib, env) }

  lemma RunOne(s: State, steps: seq<Step>, step: Step, env: Env) returns (more: seq<Step>)
    ensures more == steps + [step] && Run(s, more, env) == Next(Run(s, steps, env), step, env)
  {
    more := steps + [step];
    assert more[..|more| - 1] == steps;
  }

  // The folder x is as an import of the chain extracted it.
  ghost predicate OfChain(lib: Library, x: string, s: State, c: seq<nat>)
    requires x in lib
  {
    exists k :: 0 <= k < |c| && c[k] < |s.procs| && s.procs[c[k]].manifest.id == x && lib[x] == s.procs[c[k]].files
  }

  // The old library stands, what is new is of the chain, and the other imports wait.
  ghost predicate Grown(t: State, s: State, c: seq<nat>) {
    && |t.procs| == |s.procs|
    && (forall x | x in s.lib :: x in t.lib && t.lib[x] == s.lib[x])
    && (forall x | x in t.lib && x !in s.lib :: OfChain(t.lib, x, s, c))
    && (forall j | 0 <= j < |s.procs| && j !in c :: t.procs[j] == s.procs[j])
  }

  // The last import of the chain has just been renamed in.
  ghost predicate Entered(t: State, s: State, c: seq<nat>)
    requires c != []
  {
    var i := c[|c| - 1];
    && Grown(t, s, c) && i < |s.procs|
    && t.procs[i] == s.procs[i].(pc := Verifying(0))
    && s.procs[i].manifest.id in t.lib && t.lib[s.procs[i].manifest.id] == s.procs[i].files
    && s.procs[i].manifest.id !in s.lib
  }

  ghost predicate HasRun(s: State, c: seq<nat>, env: Env)
    requires c != []
  {
    exists steps :: Entered(Run(s, steps, env), s, c)
  }

  lemma OfLonger(lib: Library, x: string, s: State, d: seq<nat>, c: seq<nat>)
    requires x in lib && OfChain(lib, x, s, d) && forall j | j in d :: j in c
    ensures OfChain(lib, x, s, c)
  {
    var k :| 0 <= k < |d| && d[k] < |s.procs| && s.procs[d[k]].manifest.id == x && lib[x] == s.procs[d[k]].files;
    assert d[k] in c;
  }

  // A shorter chain to the same import does as well.
  lemma ShorterChain(s: State, c: seq<nat>, d: seq<nat>, env: Env)
    requires d != [] && c != [] && HasRun(s, d, env) && d[|d| - 1] == c[|c| - 1] && forall j | j in d :: j in c
    ensures HasRun(s, c, env)
  {
    hide Run, OfChain;
    var steps :| Entered(Run(s, steps, env), s, d);
    var t := Run(s, steps, env);
    forall x | x in t.lib && x !in s.lib ensures OfChain(t.lib, x, s, c) { OfLonger(t.lib, x, s, d, c); }
    assert Entered(t, s, c);
  }

  lemma EntersNow(s: State, t: State, steps: seq<Step>, c: seq<nat>, i: nat, env: Env)
    requires Run(s, steps, env) == t && Grown(t, s, c) && i < |s.procs| && s.procs[i].pc.Staged?
    requires t.procs[i] == s.procs[i] && s.procs[i].manifest.id !in s.procs[i].snapshot
    requires s.procs[i].manifest.id !in t.lib && !Listed(t.lib, s.procs[i].manifest.id, env)
    ensures HasRun(s, c + [i], env)
  {
    hide Run, Listed, OfChain;
    var id := s.procs[i].manifest.id;
    var more := RunOne(s, steps, Check(i), env);
    more := RunOne(s, more, Rename(i), env);
    var d := c + [i];
    var e := Go(t.(lib := t.lib[id := t.procs[i].files]), i, Verifying(0));
    assert Run(s, more, env) == e;
    forall x | x in e.lib && x !in s.lib ensures OfChain(e.lib, x, s, d) {
      if x == id { LastOfChain(e.lib, s, d); } else { StillOfChain(t.lib, e.lib, x, s, c, d); }
    }
    assert Entered(e, s, d);
  }

  lemma LastOfChain(lib: Library, s: State, d: seq<nat>)
    requires d != [] && d[|d| - 1] < |s.procs|
    requires var p := s.procs[d[|d| - 1]]; p.manifest.id in lib && lib[p.manifest.id] == p.files
    ensures OfChain(lib, s.procs[d[|d| - 1]].manifest.id, s, d)
  { }

  lemma StillOfChain(lib: Library, more: Library, x: string, s: State, c: seq<nat>, d: seq<nat>)
    requires x in lib && x in more && more[x] == lib[x] && OfChain(lib, x, s, c) && forall j | j in c :: j in d
    ensures OfChain(more, x, s, d)
  {
    OfLonger(lib, x, s, c, d);
  }

  lemma AloneEnters(s: State, i: nat, env: Env)
    requires Init(s, env) && Free(s, i, env)
    ensures HasRun(s, [i], env)
  {
    hide Listed, WellStaged;
    assert Run(s, [], env) == s;
    EntersNow(s, s, [], [], i, env);
    assert [] + [i] == [i];
  }

  // The import's id is not listed now that an earlier one doubles it.
  lemma Unlisted(t: State, s: State, x: string, p: Proc, id: string, env: Env)
    requires Listed(s.lib, id, env) && Doubles(p, id, env)
    requires (forall y | y in s.lib :: y in t.lib && t.lib[y] == s.lib[y]) && x in t.lib && x !in s.lib
    requires t.lib[x] == p.files
    ensures !Listed(t.lib, id, env)
  {
    var y, r :| Serves(s.lib, y, r, id, env);
    var q :| |q| > 1 && Claims(p.files, q, id, env);
    assert Offers(t.lib, y, r, id, env) && Offers(t.lib, x, q, id, env);
  }

  lemma LastEnters(s: State, c: seq<nat>, env: Env)
    requires Init(s, env) && Chain(s, c, env) && |c| > 1 && HasRun(s, c[..|c| - 1], env)
    requires Listed(s.lib, s.procs[c[|c| - 1]].manifest.id, env)
    requires forall k | 0 <= k < |c| - 1 :: s.procs[c[k]].manifest.id != s.procs[c[|c| - 1]].manifest.id
    ensures HasRun(s, c, env)
  {
    hide Run, Doubles, Listed, OfChain, WellStaged;
    var n := |c| - 1;
    var front, i, id := c[..n], c[n], s.procs[c[n]].manifest.id;
    var steps :| Entered(Run(s, steps, env), s, front);
    var t := Run(s, steps, env);
    assert front[n - 1] == c[n - 1];
    Unlisted(t, s, s.procs[c[n - 1]].manifest.id, s.procs[c[n - 1]], id, env);
    assert forall k | 0 <= k < n :: front[k] == c[k];
    assert i !in front;
    if id in t.lib { NotOfChain(t.lib, id, s, front); }
    EntersNow(s, t, steps, front, i, env);
    assert front + [i] == c;
  }

  lemma NotOfChain(lib: Library, x: string, s: State, c: seq<nat>)
    requires x in lib && forall k | 0 <= k < |c| :: c[k] < |s.procs| ==> s.procs[c[k]].manifest.id != x
    ensures !OfChain(lib, x, s, c)
  { }

  lemma CutChain(s: State, c: seq<nat>, k: nat, env: Env)
    requires Chain(s, c, env) && k < |c| - 1 && s.procs[c[k]].manifest.id == s.procs[c[|c| - 1]].manifest.id
    ensures Chain(s, c[..k] + [c[|c| - 1]], env)
    ensures forall j | j in c[..k] + [c[|c| - 1]] :: j in c
  {
    hide Doubles, Listed;
    var d := c[..k] + [c[|c| - 1]];
    assert forall j | 0 <= j < k :: d[j] == c[j];
    assert d[k] == c[|c| - 1];
  }

  lemma FrontChain(s: State, c: seq<nat>, n: nat, env: Env)
    requires Chain(s, c, env) && 0 < n <= |c|
    ensures Chain(s, c[..n], env)
  {
    hide Doubles, Listed;
  }

  // Every import at the end of a chain does get in.
  lemma {:induction false} ChainEnters(s: State, c: seq<nat>, env: Env)
    requires Init(s, env) && Chain(s, c, env)
    ensures HasRun(s, c, env)
    decreases |c|
  {
    hide Run, Doubles, Listed, Entered, Init, HasRun;
    var n := |c| - 1;
    var i, id := c[n], s.procs[c[n]].manifest.id;
    if !Listed(s.lib, id, env) {
      AloneEnters(s, i, env);
      ShorterChain(s, c, [i], env);
    } else if k: nat :| k < n && s.procs[c[k]].manifest.id == id {
      CutChain(s, c, k, env);
      ChainEnters(s, c[..k] + [i], env);
      ShorterChain(s, c, c[..k] + [i], env);
    } else {
      FrontChain(s, c, n, env);
      ChainEnters(s, c[..n], env);
      LastEnters(s, c, env);
    }
  }

  // The clean-up of a refused import can leave one of its files for last.
  lemma {:induction false} AllButOne(s: State, steps: seq<Step>, i: nat, left: set<Path>, q: Path, env: Env)
    returns (more: seq<Step>)
    requires var t := Run(s, steps, env);
      && i < |t.procs| && t.procs[i].pc == Clearing(left) && q in left
      && t.procs[i].manifest.id in t.lib && t.lib[t.procs[i].manifest.id].Keys == left
    ensures var t := Run(s, steps, env); var id := t.procs[i].manifest.id;
      Run(s, more, env).lib == t.lib[id := map[q := t.lib[id][q]]]
    decreases left
  {
    hide Run;
    var t := Run(s, steps, env);
    var id := t.procs[i].manifest.id;
    if name :| name in left && name != q {
      more := RunOne(s, steps, Unlink(i, name), env);
      var e := Run(s, more, env);
      assert e == Go(t.(lib := t.lib[id := t.lib[id] - {name}]), i, Clearing(left - {name}));
      more := AllButOne(s, more, i, left - {name}, q, env);
    } else {
      more := steps;
      assert t.lib[id] == map[q := t.lib[id][q]];
    }
  }

  // Of a chain, the first import that brings a nested manifest nobody claims.
  lemma {:induction false} FirstHarmful(s: State, c: seq<nat>, env: Env) returns (d: seq<nat>)
    requires Chain(s, c, env) && BringsNested(s, c[|c| - 1], env)
    ensures Chain(s, d, env) && BringsNested(s, d[|d| - 1], env)
    ensures forall k | 0 <= k < |d| - 1 :: !BringsNested(s, d[k], env)
    decreases |c|
  {
    hide BringsNested, Listed, Doubles;
    if k :| 0 <= k < |c| - 1 && BringsNested(s, c[k], env) {
      FrontChain(s, c, k + 1, env);
      assert c[..k + 1][k] == c[k];
      d := FirstHarmful(s, c[..k + 1], env);
    } else {
      d := c;
    }
  }

  // A lone manifest does not match: its partitions are gone.
  lemma LoneIsBad(q: Path, b: bytes, id: string, env: Env)
    requires Sound(env) && Claims(map[q := b], q, id, env)
    ensures !Good(map[q := b], q, env)
  {
    var p :| p in env.read(b).value.parts && (p.file != "manifest.json" || p.sha != env.sha(b));
    if p.file == "manifest.json" { BesideSelf(q); } else { assert Beside(q, p.file)[|q| - 1] == p.file; }
  }

  lemma BesideSelf(q: Path)
    requires q != []
    ensures Beside(q, q[|q| - 1]) == q
  { }

  lemma ServedBad(lib: Library, before: Library, x: string, q: Path, id: string, env: Env)
    requires Serves(lib, x, q, id, env) && x !in before && !Good(lib[x], q, env)
    ensures !AllGood(lib, before, env)
  { }

  // The nested manifest left alone in its folder is the only claim to its id.
  lemma LoneIsServed(t: State, s: State, c: seq<nat>, q: Path, id: string, env: Env)
    requires Init(s, env) && c != [] && Entered(t, s, c) && !Claimed(s.lib, id, env)
    requires forall k | 0 <= k < |c| && c[k] < |s.procs| && Doubles(s.procs[c[k]], id, env) :: c[k] == c[|c| - 1]
    requires |q| > 1 && Claims(s.procs[c[|c| - 1]].files, q, id, env)
    ensures var p := s.procs[c[|c| - 1]];
      Serves(t.lib[p.manifest.id := map[q := p.files[q]]], p.manifest.id, q, id, env)
  {
    hide Doubles, Shown, OfChain;
    var p := s.procs[c[|c| - 1]];
    var lib := t.lib[p.manifest.id := map[q := p.files[q]]];
    forall y, r | Offers(lib, y, r, id, env) ensures y == p.manifest.id && r == q {
      if y != p.manifest.id {
        if y in s.lib {
          NotOffered(s.lib, y, r, id, env);
        } else {
          ClaimOfChain(t, s, c, y, r, id, env);
        }
      }
    }
  }

  lemma NotOffered(lib: Library, x: string, q: Path, id: string, env: Env)
    requires !Claimed(lib, id, env)
    ensures !Offers(lib, x, q, id, env)
  { }

  lemma DoublesNothingNew(s: State, i: nat, id: string, env: Env)
    requires i < |s.procs| && !BringsNested(s, i, env) && !Claimed(s.lib, id, env)
    ensures !Doubles(s.procs[i], id, env)
  { }

  lemma ClaimOfChain(t: State, s: State, c: seq<nat>, y: string, r: Path, id: string, env: Env)
    requires Init(s, env) && y in t.lib && OfChain(t.lib, y, s, c) && Claims(t.lib[y], r, id, env)
    ensures exists k ::
      0 <= k < |c| && c[k] < |s.procs| && s.procs[c[k]].manifest.id == y && Doubles(s.procs[c[k]], id, env)
  {
    hide Shown;
    var k :| 0 <= k < |c| && c[k] < |s.procs| && s.procs[c[k]].manifest.id == y && t.lib[y] == s.procs[c[k]].files;
    assert WellStaged(s.procs[c[k]], env);
    TopOrNested(r);
    assert Doubles(s.procs[c[k]], id, env);
  }

  lemma NestedShowsBad(s: State, i: nat, env: Env)
    requires Init(s, env) && Sound(env) && CanEnter(s, i, env) && i < |s.procs| && BringsNested(s, i, env)
    ensures !AlwaysGood(s, env)
  {
    hide Run, Init, BringsNested, Listed, Claimed, Doubles, Sound, Entered, AllGood, Serves, Good;
    var c0: seq<nat> :| Chain(s, c0, env) && c0[|c0| - 1] == i;
    NestedOnChain(s, c0, env);
  }

  lemma NestedOnChain(s: State, c0: seq<nat>, env: Env)
    requires Init(s, env) && Sound(env) && Chain(s, c0, env) && BringsNested(s, c0[|c0| - 1], env)
    ensures !AlwaysGood(s, env)
  {
    hide Run, Init, Claimed, Doubles, Sound, AllGood, Serves, Good, Listed, OfChain;
    var c := FirstHarmful(s, c0, env);
    ChainEnters(s, c, env);
    var steps :| Entered(Run(s, steps, env), s, c);
    var t := Run(s, steps, env);
    var i := c[|c| - 1];
    var p := s.procs[i];
    var id :| Doubles(p, id, env) && !Claimed(s.lib, id, env);
    var q := NestedPath(p, id, env);
    forall k | 0 <= k < |c| - 1 ensures !Doubles(s.procs[c[k]], id, env) { DoublesNothingNew(s, c[k], id, env); }
    LoneIsServed(t, s, c, q, id, env);
    var more := RunOne(s, steps, Abort(i), env);
    assert Run(s, more, env) == Go(t, i, Clearing(p.files.Keys));
    more := AllButOne(s, more, i, p.files.Keys, q, env);
    LoneIsBad(q, p.files[q], id, env);
    ServedBad(Run(s, more, env).lib, s.lib, p.manifest.id, q, id, env);
  }

  lemma NestedPath(p: Proc, id: string, env: Env) returns (q: Path)
    requires Doubles(p, id, env)
    ensures |q| > 1 && Claims(p.files, q, id, env) && q in p.files
  {
    q :| |q| > 1 && Claims(p.files, q, id, env);
  }

  // A free import whose partitions all compare equal is published.
  lemma {:induction false} ComparedAll(s: State, i: nat, k: nat, env: Env) returns (steps: seq<Step>)
    requires Free(s, i, env) && s.procs[i].pc.Staged? && AllVerified(s.procs[i], env)
    requires k <= |s.procs[i].manifest.parts|
    ensures var id := s.procs[i].manifest.id;
      Run(s, steps, env) == Go(s.(lib := s.lib[id := s.procs[i].files]), i, Verifying(k))
  {
    hide Run, Listed, Verified;
    if k == 0 {
      assert Run(s, [], env) == s by { NoSteps(s, env); }
      steps := RunOne(s, [], Check(i), env);
      steps := RunOne(s, steps, Rename(i), env);
    } else {
      steps := ComparedAll(s, i, k - 1, env);
      assert s.procs[i].manifest.parts[k - 1] in s.procs[i].manifest.parts;
      steps := RunOne(s, steps, Compare(i), env);
    }
  }

  lemma NoSteps(s: State, env: Env)
    ensures Run(s, [], env) == s
  { }

  lemma PublishRun(s: State, i: nat, env: Env) returns (steps: seq<Step>)
    requires Init(s, env) && Free(s, i, env) && AllVerified(s.procs[i], env)
    ensures UNVERIFIED in s.procs[i].files && MANIFEST !in s.procs[i].files
    ensures var id := s.procs[i].manifest.id;
      Run(s, steps, env) == Go(s.(lib := s.lib[id := Published(s.procs[i].files)]), i, Succeeded)
  {
    hide Run, Listed, Verified;
    assert WellStaged(s.procs[i], env);
    steps := ComparedAll(s, i, |s.procs[i].manifest.parts|, env);
    steps := RunOne(s, steps, Publish(i), env);
  }

  // What a published import alone claims, the library serves.
  lemma PublishedServes(s: State, i: nat, q: Path, id: string, env: Env)
    requires Free(s, i, env) && WellStaged(s.procs[i], env) && !Claimed(s.lib, id, env)
    requires Claims(Published(s.procs[i].files), q, id, env)
    requires forall r | Claims(Published(s.procs[i].files), r, id, env) :: r == q
    ensures Serves(s.lib[s.procs[i].manifest.id := Published(s.procs[i].files)], s.procs[i].manifest.id, q, id, env)
  {
    hide Shown, Listed;
    var x := s.procs[i].manifest.id;
    var lib := s.lib[x := Published(s.procs[i].files)];
    forall y, r | Offers(lib, y, r, id, env) ensures y == x && r == q {
      if y != x { NotOffered(s.lib, y, r, id, env); }
    }
  }

  lemma ReservedIsBad(p: Proc, env: Env)
    requires WellStaged(p, env) && Reserved(p.manifest)
    ensures !Good(Published(p.files), MANIFEST, env)
  {
    var part :| part in p.manifest.parts && part.file == "manifest.unverified";
    assert Beside(MANIFEST, part.file) == UNVERIFIED && UNVERIFIED !in Published(p.files);
  }

  lemma ReservedShowsBad(s: State, i: nat, env: Env)
    requires Init(s, env) && CanEnter(s, i, env) && i < |s.procs|
    requires BringsReserved(s, i, env) && !BringsNested(s, i, env)
    ensures !AlwaysGood(s, env)
  {
    hide Run, AllVerified, AllGood, Serves, Good, Claimed, CanEnter;
    var p := s.procs[i];
    UnclaimedIsFree(s, i, env);
    var steps := PublishRun(s, i, env);
    PublishedFolder(p, env);
    forall r | Claims(Published(p.files), r, p.manifest.id, env) ensures r == MANIFEST {
      DoublesNothingNew(s, i, p.manifest.id, env);
      OnlyNestedDoubles(p, r, p.manifest.id, env);
    }
    PublishedServes(s, i, MANIFEST, p.manifest.id, env);
    ReservedIsBad(p, env);
    ServedBad(Run(s, steps, env).lib, s.lib, p.manifest.id, MANIFEST, p.manifest.id, env);
  }

  lemma OnlyNestedDoubles(p: Proc, q: Path, id: string, env: Env)
    requires WellStaged(p, env) && Claims(Published(p.files), q, id, env) && !Doubles(p, id, env)
    ensures q == MANIFEST
  {
    TopOrNested(q);
    if |q| > 1 { assert Claims(p.files, q, id, env); }
  }

  lemma UnclaimedIsFree(s: State, i: nat, env: Env)
    requires CanEnter(s, i, env) && i < |s.procs| && !Claimed(s.lib, s.procs[i].manifest.id, env)
    ensures Free(s, i, env)
  {
    hide Doubles;
    var c: seq<nat> :| Chain(s, c, env) && c[|c| - 1] == i;
    ListedIsClaimed(s.lib, s.procs[i].manifest.id, env);
  }

  lemma ListedIsClaimed(lib: Library, id: string, env: Env)
    ensures Listed(lib, id, env) ==> Claimed(lib, id, env)
  {
    if Listed(lib, id, env) {
      var x, q :| Serves(lib, x, q, id, env);
      assert Offers(lib, x, q, id, env);
    }
  }

  // Exactly when a visible image is a verified image in every run: if and only if no import that can get in
  // brings, under an id nothing in the library claims, a second manifest or a partition of the reserved
  // name past the comparison.
  lemma VisibleIsVerifiedIff(s: State, env: Env)
    requires Init(s, env) && Sound(env)
    ensures AlwaysGood(s, env) <==> NoneHarmful(s, env)
  {
    hide Init, AllGood, CanEnter, BringsNested, BringsReserved, Sound;
    if NoneHarmful(s, env) {
      forall steps ensures AllGood(Run(s, steps, env).lib, s.lib, env) { VisibleIsVerified(s, steps, env); }
    } else {
      var i: nat :| i < |s.procs| && CanEnter(s, i, env) && (BringsNested(s, i, env) || BringsReserved(s, i, env));
      if BringsNested(s, i, env) { NestedShowsBad(s, i, env); } else { ReservedShowsBad(s, i, env); }
      assert !AlwaysGood(s, env);
    }
  }

  // --- an image that is served stays served: exactly when ---

  ghost predicate AlwaysServes(s: State, x: string, q: Path, id: string, env: Env) {
    forall steps :: Serves(Run(s, steps, env).lib, x, q, id, env)
  }

  lemma StaysServed(s: State, steps: seq<Step>, x: string, q: Path, id: string, env: Env)
    requires Init(s, env) && Serves(s.lib, x, q, id, env)
    requires forall i: nat | i < |s.procs| && CanEnter(s, i, env) :: !Doubles(s.procs[i], id, env)
    ensures Serves(Run(s, steps, env).lib, x, q, id, env)
  {
    hide Run, Init, CanEnter, Doubles, FromImport;
    RunTraced(s, steps, env);
    var t := Run(s, steps, env);
    assert Offers(t.lib, x, q, id, env);
    forall y, r | Offers(t.lib, y, r, id, env) ensures y == x && r == q {
      if y in s.lib {
        assert Offers(s.lib, y, r, id, env);
      } else {
        var j := OwnerOf(t, s, y, env);
        ListedNeedsDouble(s, j, env);
        DoublesUnless(s.procs[j], t.lib[y], r, id, env);
      }
    }
  }

  lemma DoublesUnless(p: Proc, folder: Files, q: Path, id: string, env: Env)
    requires FromImport(folder, p, env) && Claims(folder, q, id, env)
    ensures p.manifest.id == id || Doubles(p, id, env)
  { }

  // An import whose id is listed gets in only behind another that doubles it.
  lemma ListedNeedsDouble(s: State, i: nat, env: Env)
    requires CanEnter(s, i, env) && i < |s.procs|
    ensures (Listed(s.lib, s.procs[i].manifest.id, env) ==>
      exists j: nat :: j < |s.procs| && CanEnter(s, j, env) && Doubles(s.procs[j], s.procs[i].manifest.id, env))
  {
    hide Listed, Doubles;
    var c: seq<nat> :| Chain(s, c, env) && c[|c| - 1] == i;
    if Listed(s.lib, s.procs[i].manifest.id, env) {
      var front := c[..|c| - 1];
      FrontChain(s, c, |c| - 1, env);
      assert front[|front| - 1] == c[|c| - 2];
      assert CanEnter(s, c[|c| - 2], env);
    }
  }

  lemma DoubleUnserves(s: State, i: nat, x: string, q: Path, id: string, env: Env)
    requires Init(s, env) && Serves(s.lib, x, q, id, env)
    requires CanEnter(s, i, env) && i < |s.procs| && Doubles(s.procs[i], id, env)
    ensures exists steps :: !Listed(Run(s, steps, env).lib, id, env)
  {
    hide Run, Init, Listed, Doubles, OfChain;
    var c: seq<nat> :| Chain(s, c, env) && c[|c| - 1] == i;
    ChainEnters(s, c, env);
    var steps :| Entered(Run(s, steps, env), s, c);
    IsListed(s.lib, x, q, id, env);
    Unlisted(Run(s, steps, env), s, s.procs[i].manifest.id, s.procs[i], id, env);
  }

  lemma IsListed(lib: Library, x: string, q: Path, id: string, env: Env)
    requires Serves(lib, x, q, id, env)
    ensures Listed(lib, id, env)
  { }

  // The library serves an image throughout every run if and only if no import that can get in carries a
  // second manifest of its id. The image's files stay either way.
  lemma StaysServedIff(s: State, x: string, q: Path, id: string, env: Env)
    requires Init(s, env) && Serves(s.lib, x, q, id, env)
    ensures AlwaysServes(s, x, q, id, env) <==>
            forall i: nat | i < |s.procs| && CanEnter(s, i, env) :: !Doubles(s.procs[i], id, env)
  {
    hide Init, CanEnter, Doubles, Serves;
    if forall i: nat | i < |s.procs| && CanEnter(s, i, env) :: !Doubles(s.procs[i], id, env) {
      forall steps ensures Serves(Run(s, steps, env).lib, x, q, id, env) { StaysServed(s, steps, x, q, id, env); }
    } else {
      var i: nat :| i < |s.procs| && CanEnter(s, i, env) && Doubles(s.procs[i], id, env);
      DoubleUnserves(s, i, x, q, id, env);
      var steps :| !Listed(Run(s, steps, env).lib, id, env);
      assert !Serves(Run(s, steps, env).lib, x, q, id, env);
    }
  }

  // --- success with an unverified image ---

  ghost predicate PublishedBad(s: State, i: nat, before: Library, env: Env) {
    i < |s.procs| && s.procs[i].pc.Succeeded? && !AllGood(s.lib, before, env)
  }

  // The closing rename touches nothing below the top of the folder.
  lemma NestedUntouched(files: Files, q: Path, env: Env)
    requires UNVERIFIED in files && |q| > 1 && q in files
    ensures q in Published(files) && Good(Published(files), q, env) == Good(files, q, env)
  {
    forall file ensures Beside(q, file) != MANIFEST && Beside(q, file) != UNVERIFIED {
      assert |Beside(q, file)| == |q|;
    }
  }

  // A nested manifest that does not match outlives the import: the import succeeds and it is served.
  lemma NestedSurvives(s: State, i: nat, q: Path, id: string, env: Env)
    requires Init(s, env) && Free(s, i, env) && AllVerified(s.procs[i], env) && !Claimed(s.lib, id, env)
    requires |q| > 1 && Claims(Published(s.procs[i].files), q, id, env) && !Good(s.procs[i].files, q, env)
    requires forall r | Claims(Published(s.procs[i].files), r, id, env) :: r == q
    ensures exists steps :: PublishedBad(Run(s, steps, env), i, s.lib, env)
  {
    hide Run, AllVerified, AllGood, Serves, Good, Claimed, Shown, Listed;
    var p := s.procs[i];
    assert WellStaged(p, env);
    var steps := PublishRun(s, i, env);
    NestedUntouched(p.files, q, env);
    PublishedServes(s, i, q, id, env);
    ServedBad(Run(s, steps, env).lib, s.lib, p.manifest.id, q, id, env);
    assert PublishedBad(Run(s, steps, env), i, s.lib, env);
  }
}
