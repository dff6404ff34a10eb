// What an archive's members mean for its admission: a manifest below the top of the image folder is seen
// by the library and checked by nobody.
module NestedManifests {
  import opened Wrappers
  import opened Import
  import opened Admission
  import opened Visibility

  // The one-pass extraction of an archive hands over a well-staged import.
  lemma StreamIsWellStaged(ms: seq<Member>, env: Env, max: nat, m: Manifest, snapshot: set<string>)
    requires ms != [] && ExtractStream(ms, env, max).Some? && OneRoot(ms)
    requires var folder := Under(ExtractStream(ms, env, max).value.fs, Root(Names(ms)));
      MANIFEST in folder && env.read(folder[MANIFEST]) == Some(m)
    ensures var s := ExtractStream(ms, env, max).value;
      WellStaged(Proc(m, Hidden(Under(s.fs, Root(Names(ms)))), Some(s.digests), snapshot, Staged), env)
  {
    hide ExtractStream, Names, Root, Paths;
    StreamDigests(ms, env, max, Root(Names(ms)));
  }

  // So does the two-pass extraction.
  lemma ExtractIsWellStaged(ms: seq<Member>, env: Env, m: Manifest, snapshot: set<string>)
    requires ms != [] && Extract(ms).Some? && MANIFEST in Folder(ms) && env.read(Folder(ms)[MANIFEST]) == Some(m)
    ensures WellStaged(Proc(m, Hidden(Folder(ms)), None, snapshot, Staged), env)
  { }

  // A member that puts a manifest below the top of the image folder, where the library looks.
  predicate NestedName(m: Member) { |StreamPath(m)| > 2 && Shown(StreamPath(m)[1..]) }

  // The member is a second manifest of that id, valid on its own.
  predicate SecondManifest(m: Member, id: string, env: Env) {
    NestedName(m) && env.read(m.data).Some? && env.read(m.data).value.id == id
  }

  // The one-pass extraction keeps each member's bytes under its path.
  lemma {:induction false} StreamHolds(ms: seq<Member>, env: Env, max: nat, m: Member)
    requires ExtractStream(ms, env, max).Some? && m in ms
    ensures var fs := ExtractStream(ms, env, max).value.fs; StreamPath(m) in fs && fs[StreamPath(m)] == m.data
  {
    hide CanWrite, Safe, StreamPath;
    var front := ms[..|ms| - 1];
    if m != ms[|ms| - 1] {
      StreamHolds(front, env, max, m);
    }
  }

  lemma {:induction false} MemberAt(ms: seq<Member>, p: Path) returns (m: Member)
    requires p in Paths(ms)
    ensures m in ms && StreamPath(m) == p
  {
    hide StreamPath;
    if p == StreamPath(ms[|ms| - 1]) {
      m := ms[|ms| - 1];
    } else {
      m := MemberAt(ms[..|ms| - 1], p);
    }
  }

  lemma NestedPaths(ms: seq<Member>, env: Env, max: nat, q: Path)
    requires ms != [] && ExtractStream(ms, env, max).Some? && |q| > 1
    requires MANIFEST in Under(ExtractStream(ms, env, max).value.fs, Root(Names(ms)))
    ensures var fs := ExtractStream(ms, env, max).value.fs;
      var files := Hidden(Under(fs, Root(Names(ms))));
      (q in files <==> [Root(Names(ms))] + q in Paths(ms)) && (q in files ==> files[q] == fs[[Root(Names(ms))] + q])
  {
    hide ExtractStream, Names, Root;
    StreamState(ms, env, max);
  }

  // Whether an import carries a second manifest can be read off the archive's members.
  lemma DoublesIffMember(ms: seq<Member>, env: Env, max: nat, p: Proc, id: string)
    requires ms != [] && ExtractStream(ms, env, max).Some? && OneRoot(ms)
    requires MANIFEST in Under(ExtractStream(ms, env, max).value.fs, Root(Names(ms)))
    requires p.files == Hidden(Under(ExtractStream(ms, env, max).value.fs, Root(Names(ms))))
    ensures Doubles(p, id, env) <==> exists m | m in ms :: SecondManifest(m, id, env)
  {
    hide ExtractStream, Names, Root, Shown, StreamPath, Under, Hidden, Paths;
    var root := Root(Names(ms));
    if Doubles(p, id, env) {
      var q :| |q| > 1 && Claims(p.files, q, id, env);
      NestedPaths(ms, env, max, q);
      var m := MemberAt(ms, [root] + q);
      StreamHolds(ms, env, max, m);
      assert ([root] + q)[1..] == q;
      assert SecondManifest(m, id, env);
    }
    if exists m | m in ms :: SecondManifest(m, id, env) {
      var m :| m in ms && SecondManifest(m, id, env);
      var i :| 0 <= i < |ms| && ms[i] == m;
      PathAt(ms, i);
      StreamHolds(ms, env, max, m);
      var q := StreamPath(m)[1..];
      assert StreamPath(m) == [root] + q;
      NestedPaths(ms, env, max, q);
      assert Claims(p.files, q, id, env);
    }
  }

  // An archive the one-pass import accepts, with a second manifest of an id of its own whose partitions do
  // not match: the import succeeds in an empty library, which then serves what nobody verified.
  lemma NestedArchiveShowsBad(ms: seq<Member>, env: Env, max: nat, q: Path, id: string)
    returns (p: Proc, steps: seq<Step>)
    requires OnePass(ms, env, max).Accepted?
    requires |q| > 1 && Claims(OnePass(ms, env, max).files, q, id, env) && !Good(OnePass(ms, env, max).files, q, env)
    requires forall r | Claims(OnePass(ms, env, max).files, r, id, env) :: r == q
    ensures p.pc.Staged? && WellStaged(p, env) && p.manifest == OnePass(ms, env, max).manifest
    ensures PublishedBad(Run(State(map[], [p]), steps, env), 0, map[], env)
  {
    hide ExtractStream, Names, Root, Shown, Run, PublishedBad, OneRoot;
    RootCheck(ms);
    var s := ExtractStream(ms, env, max).value;
    var folder := Under(s.fs, Root(Names(ms)));
    var m := env.read(folder[MANIFEST]).value;
    p := Proc(m, Hidden(folder), Some(s.digests), {}, Staged);
    StreamIsWellStaged(ms, env, max, m, {});
    NestedUntouched(p.files, q, env);
    EmptyLibraryIsFree(m.id, env);
    EmptyLibraryIsFree(id, env);
    NestedSurvives(State(map[], [p]), 0, q, id, env);
    steps :| PublishedBad(Run(State(map[], [p]), steps, env), 0, map[], env);
  }

  lemma EmptyLibraryIsFree(id: string, env: Env)
    ensures !Taken(map[], id, env) && !Claimed(map[], id, env)
  { }

  // Such an archive, with one partition beside each of its two manifests.
  function TwoManifests(): seq<Member> {
    [Member("i/manifest.json", true, 1, [1]), Member("i/p", true, 1, [2]),
     Member("i/s/manifest.json", true, 1, [3]), Member("i/s/p", true, 1, [4])]
  }

  lemma NameUnderRoot(m: Member, rest: string)
    requires m.plain && m.name == ['i'] + "/" + rest && '\\' !in rest && ".." !in Parts(rest)
    ensures Safe(m) && StreamPath(m) == ["i"] + Parts(rest)
  {
    hide Parts;
    PartsConcat(['i'], rest);
    OneComponent(['i']);
    assert '\\' !in ['i'] + "/" && m.name[0] == 'i';
    assert ".." !in ["i"];
    PlainName(m, ["i"] + Parts(rest));
  }

  lemma TopName(m: Member, file: string)
    requires m.plain && m.name == ['i'] + "/" + file && '\\' !in file && '/' !in file && file !in {"", ".", ".."}
    ensures Safe(m) && StreamPath(m) == ["i", file]
  {
    hide Parts, Safe, StreamPath;
    OneComponent(file);
    NameUnderRoot(m, file);
  }

  lemma NestedNameParts(m: Member, file: string)
    requires m.plain && m.name == ['i'] + "/" + (['s'] + "/" + file)
    requires '\\' !in file && '/' !in file && file !in {"", ".", ".."}
    ensures Safe(m) && StreamPath(m) == ["i", "s", file]
  {
    hide Parts, Safe, StreamPath;
    OneComponent(file);
    PartsConcat(['s'], file);
    OneComponent(['s']);
    assert ['s'][0] == 's' && ".."[0] == '.';
    NameUnderRoot(m, ['s'] + "/" + file);
  }

  lemma TwoManifestPaths()
    ensures var ms := TwoManifests();
      && Safe(ms[0]) && StreamPath(ms[0]) == ["i", "manifest.json"] && Safe(ms[1]) && StreamPath(ms[1]) == ["i", "p"]
      && Safe(ms[2]) && StreamPath(ms[2]) == ["i", "s", "manifest.json"]
      && Safe(ms[3]) && StreamPath(ms[3]) == ["i", "s", "p"]
  {
    hide Parts, Safe, StreamPath;
    var ms := TwoManifests();
    assert ms[0].name == ['i'] + "/" + "manifest.json";
    TopName(ms[0], "manifest.json");
    assert ms[1].name == ['i'] + "/" + "p";
    TopName(ms[1], "p");
    assert ms[2].name == ['i'] + "/" + (['s'] + "/" + "manifest.json");
    NestedNameParts(ms[2], "manifest.json");
    assert ms[3].name == ['i'] + "/" + (['s'] + "/" + "p");
    NestedNameParts(ms[3], "p");
  }

  lemma Apart(p: Path, q: Path, k: nat)
    requires k < |p| && k < |q| && p[k] != q[k]
    ensures p != q && !(p < q) && !(q < p)
  { }

  function TwoManifestFiles(): Files {
    map[["i", "manifest.json"] := [1]][["i", "p"] := [2]][["i", "s", "manifest.json"] := [3]][["i", "s", "p"] := [4]]
  }

  lemma TwoManifestStream(env: Env) returns (s: Stream)
    ensures ExtractStream(TwoManifests(), env, 4) == Some(s) && s.fs == TwoManifestFiles()
    ensures ["p"] in s.digests && s.digests[["p"]] == env.sha([2])
  {
    hide CanWrite, Safe, StreamPath, ExtractStream;
    var ms := TwoManifests();
    TwoManifestPaths();
    assert "manifest.json"[0] == 'm' && "p"[0] == 'p' && "s"[0] == 's';
    var a, b, c, d := ["i", "manifest.json"], ["i", "p"], ["i", "s", "manifest.json"], ["i", "s", "p"];
    Apart(a, b, 1);
    Apart(a, c, 1);
    Apart(a, d, 1);
    Apart(b, c, 1);
    Apart(b, d, 1);
    Apart(c, d, 2);
    assert [] + [ms[0]] == [ms[0]] && [ms[0]] + [ms[1]] == [ms[0], ms[1]];
    assert [ms[0], ms[1]] + [ms[2]] == [ms[0], ms[1], ms[2]];
    NoMembers(env, 4);
    s := Stream(map[], map[], 0);
    s := Added([], ms[0], a, env, 4, s);
    s := Added([ms[0]], ms[1], b, env, 4, s);
    s := Added([ms[0], ms[1]], ms[2], c, env, 4, s);
    s := Added([ms[0], ms[1], ms[2]], ms[3], d, env, 4, s);
    assert ms == [ms[0], ms[1], ms[2]] + [ms[3]];
  }

  lemma Added(ms: seq<Member>, m: Member, p: Path, env: Env, max: nat, s: Stream) returns (t: Stream)
    requires ExtractStream(ms, env, max) == Some(s) && Safe(m) && StreamPath(m) == p && |m.data| == m.size
    requires p != [] && s.total + |m.data| <= max && forall q | q in s.fs :: q != p && !(p < q) && !(q < p)
    ensures t == Stream(s.fs[p := m.data], s.digests[p[1..] := env.sha(m.data)], s.total + |m.data|)
    ensures ExtractStream(ms + [m], env, max) == Some(t)
  {
    hide Safe, StreamPath, ExtractStream;
    t := Stream(s.fs[p := m.data], s.digests[p[1..] := env.sha(m.data)], s.total + |m.data|);
    OneMember(ms, m, p, env, max, s);
  }

  lemma TwoManifestFolder()
    ensures var folder := Under(TwoManifestFiles(), "i");
      && MANIFEST in folder && folder[MANIFEST] == [1] && ["p"] in folder && !IsDirectory(folder, UNVERIFIED)
      && ["s", "manifest.json"] in folder && folder[["s", "manifest.json"]] == [3]
      && ["s", "p"] in folder && folder[["s", "p"]] == [4]
  {
    hide Shown;
    var fs, folder := TwoManifestFiles(), Under(TwoManifestFiles(), "i");
    assert "manifest.json"[9] == 'j' && "manifest.unverified"[9] == 'u' && "p"[0] == 'p' && "s"[0] == 's';
    assert ["i"] + MANIFEST == ["i", "manifest.json"] && ["i"] + ["p"] == ["i", "p"];
    assert ["i"] + ["s", "manifest.json"] == ["i", "s", "manifest.json"] && ["i"] + ["s", "p"] == ["i", "s", "p"];
    forall q | q in folder ensures !(UNVERIFIED < q) {
      assert ["i"] + q in fs && (["i"] + q)[1] == q[0];
    }
  }

  lemma TwoManifestShown(q: Path)
    requires q in Under(TwoManifestFiles(), "i") && Shown(q)
    ensures q == MANIFEST || q == ["s", "manifest.json"]
  {
    hide Under;
    var p := ["i"] + q;
    assert "p" != "manifest.json";
    assert p in TwoManifestFiles() && q == p[1..] && p[|p| - 1] == q[|q| - 1];
    assert p == ["i", "manifest.json"] || p == ["i", "s", "manifest.json"];
    assert ["i", "manifest.json"][1..] == MANIFEST;
    assert ["i", "s", "manifest.json"][1..] == ["s", "manifest.json"];
  }

  // The archive itself: accepted, its own partition as it should be, and the nested one not.
  lemma NestedExample(env: Env, id: string, inner: string, sha: string)
    requires env.read([1]) == Some(Manifest(id, [Part("p", env.sha([2]))])) && id !in env.taken
    requires env.read([3]) == Some(Manifest(inner, [Part("p", sha)])) && sha != env.sha([4]) && inner != id
    ensures var r := OnePass(TwoManifests(), env, 4); var q := ["s", "manifest.json"];
      && r.Accepted? && Claims(r.files, q, inner, env) && !Good(r.files, q, env)
      && forall q' | Claims(r.files, q', inner, env) :: q' == q
  {
    hide ExtractStream, Under;
    var s := TwoManifestStream(env);
    TwoManifestFolder();
    TwoManifestRoot();
    var folder := Under(s.fs, "i");
    var q := ["s", "manifest.json"];
    assert Verified(Part("p", env.sha([2])), Hidden(folder), env, Some(s.digests));
    assert Beside(q, "p") == ["s", "p"];
    assert !Good(folder, q, env);
    forall q' | q' in folder && Shown(q') ensures q' == MANIFEST || q' == q { TwoManifestShown(q'); }
  }

  lemma TwoManifestRoot()
    ensures Root(Names(TwoManifests())) == "i"
    ensures !exists n | n in Names(TwoManifests()) :: Parts(n) == [] || Parts(n)[0] != "i"
  {
    hide Parts, Slashed;
    TwoManifestPaths();
    NamesArePaths(TwoManifests());
  }
}
