// Taking an image archive into the library: the two-pass import that extracts and then rereads, and
// the one-pass import that hashes each file while it is written.
module Import {
  import opened Words
  import opened Wrappers

  type Path = seq<string>
  type Files = map<Path, bytes>

  // A tar member as the reader yields it; sparse, link and directory members are not plain.
  datatype Member = Member(name: string, plain: bool, size: nat, data: bytes)

  // A validated manifest: the id and the partitions that name a file. Validation makes every such
  // name a single path component.
  datatype Part = Part(file: string, sha: string)
  datatype Manifest = Manifest(id: string, parts: seq<Part>)

  // The hash and the JSON reader with its validation are any functions; `taken` holds the ids and
  // folder names already in the library.
  datatype Env = Env(sha: bytes -> string, read: bytes -> Option<Manifest>, taken: set<string>)

  datatype Result = Accepted(manifest: Manifest, files: Files) | Rejected

  const MANIFEST: Path := ["manifest.json"]
  const UNVERIFIED: Path := ["manifest.unverified"]

  // --- names ---

  function Slashed(s: string): (r: string)
    ensures |r| == |s| && forall i | 0 <= i < |s| :: r[i] == if s[i] == '\\' then '/' else s[i]
  {
    seq(|s|, i requires 0 <= i < |s| => if s[i] == '\\' then '/' else s[i])
  }

  function Split(s: string, cur: string): seq<string> {
    if s == [] then [cur]
    else if s[0] == '/' then [cur] + Split(s[1..], "")
    else Split(s[1..], cur + [s[0]])
  }

  function RealParts(l: seq<string>): Path {
    if l == [] then [] else (if l[0] == "" || l[0] == "." then [] else [l[0]]) + RealParts(l[1..])
  }

  // Path(s).parts of a relative path.
  function Parts(s: string): Path { RealParts(Split(s, "")) }

  predicate Safe(m: Member) {
    var name := Slashed(m.name);
    m.plain && !(name != "" && name[0] == '/') && ".." !in Parts(name)
  }

  predicate AllSafe(ms: seq<Member>) { ms == [] || (AllSafe(ms[..|ms| - 1]) && Safe(ms[|ms| - 1])) }

  // --- files being written ---

  predicate IsDirectory(fs: Files, p: Path) { exists q | q in fs :: p < q }

  // A plain file can be opened for writing at p.
  predicate CanWrite(fs: Files, p: Path) {
    p != [] && !IsDirectory(fs, p) && forall q | q in fs :: !(q < p)
  }

  // extractall: the member's own name, an existing file is overwritten.
  function Extract(ms: seq<Member>): Option<Files> {
    if ms == [] then Some(map[])
    else
      var fs, m := Extract(ms[..|ms| - 1]), ms[|ms| - 1];
      if fs.None? || |m.data| != m.size || !CanWrite(fs.value, Parts(m.name)) then None
      else Some(fs.value[Parts(m.name) := m.data])
  }

  function StreamPath(m: Member): Path { Parts(Slashed(m.name)) }

  // The streaming loop: the name with its backslashes turned, no overwriting, a running total.
  datatype Stream = Stream(fs: Files, digests: map<Path, string>, total: nat)

  function ExtractStream(ms: seq<Member>, env: Env, max: nat): Option<Stream> {
    if ms == [] then Some(Stream(map[], map[], 0))
    else
      var s, m := ExtractStream(ms[..|ms| - 1], env, max), ms[|ms| - 1];
      var p := StreamPath(m);
      if s.None? || !Safe(m) || p in s.value.fs || !CanWrite(s.value.fs, p)
         || s.value.total + |m.data| > max || |m.data| != m.size then None
      else Some(Stream(s.value.fs[p := m.data], s.value.digests[p[1..] := env.sha(m.data)], s.value.total + |m.data|))
  }

  // --- what follows extraction, shared by both ---

  function Under(fs: Files, root: string): (r: Files)
    ensures forall q | q != [] :: q in r <==> [root] + q in fs
    ensures forall q | q in r :: q != [] && r[q] == fs[[root] + q]
  {
    var tails := set p | p in fs && p != [] :: p[1..];
    var r := map q | q in tails && q != [] && [root] + q in fs :: fs[[root] + q];
    assert forall q | q != [] && [root] + q in fs :: ([root] + q)[1..] == q && q in r;
    r
  }

  // The digest of one partition file: reread from disk, or remembered from the writing loop.
  predicate Verified(part: Part, files: Files, env: Env, known: Option<map<Path, string>>) {
    && [part.file] in files
    && match known
       case None => env.sha(files[[part.file]]) == part.sha
       case Some(d) => [part.file] in d && d[[part.file]] == part.sha
  }

  // While the partitions are checked the manifest lies under another name.
  function Hidden(folder: Files): Files
    requires MANIFEST in folder
  {
    (folder - {MANIFEST})[UNVERIFIED := folder[MANIFEST]]
  }

  // The closing rename of manifest.unverified to manifest.json.
  function Published(hidden: Files): Files
    requires UNVERIFIED in hidden
  {
    (hidden - {UNVERIFIED})[MANIFEST := hidden[UNVERIFIED]]
  }

  function Admit(fs: Files, names: seq<string>, env: Env, known: Option<map<Path, string>>): Result
    requires names != []
  {
    if exists n | n in names :: Parts(n) == [] || Parts(n)[0] != Root(names) then Rejected
    else
      var folder := Under(fs, Root(names));
      if MANIFEST !in folder || IsDirectory(folder, UNVERIFIED) then Rejected
      else
        var m := env.read(folder[MANIFEST]);
        if m.None? || m.value.id in env.taken then Rejected
        else if forall p | p in m.value.parts :: Verified(p, Hidden(folder), env, known)
        then Accepted(m.value, Published(Hidden(folder)))
        else Rejected
  }

  function Root(names: seq<string>): string
    requires names != []
  {
    if Parts(names[0]) == [] then "" else Parts(names[0])[0]
  }

  function Names(ms: seq<Member>): (n: seq<string>)
    ensures |n| == |ms|
  {
    seq(|ms|, i requires 0 <= i < |ms| => Slashed(ms[i].name))
  }

  function TwoPass(ms: seq<Member>, env: Env): Result {
    if ms == [] || !AllSafe(ms) || Extract(ms).None? then Rejected
    else Admit(Extract(ms).value, Names(ms), env, None)
  }

  function OnePass(ms: seq<Member>, env: Env, max: nat): Result {
    var s := ExtractStream(ms, env, max);
    if ms == [] || s.None? then Rejected
    else Admit(s.value.fs, Names(ms), env, Some(s.value.digests))
  }

  // --- the one pass refines the two ---

  predicate NoBackslash(ms: seq<Member>) { forall m | m in ms :: '\\' !in m.name }

  function Paths(ms: seq<Member>): seq<Path> {
    if ms == [] then [] else Paths(ms[..|ms| - 1]) + [StreamPath(ms[|ms| - 1])]
  }

  // No two members land on the same path.
  predicate Distinct(ms: seq<Member>) {
    ms == [] || (Distinct(ms[..|ms| - 1]) && StreamPath(ms[|ms| - 1]) !in Paths(ms[..|ms| - 1]))
  }

  function Bytes(ms: seq<Member>): nat { if ms == [] then 0 else Bytes(ms[..|ms| - 1]) + |ms[|ms| - 1].data| }

  lemma SlashedSame(s: string)
    requires '\\' !in s
    ensures Slashed(s) == s
  { }

  // What the streaming loop has after a prefix: one file per member and the byte count.
  lemma {:induction false} StreamState(ms: seq<Member>, env: Env, max: nat)
    requires ExtractStream(ms, env, max).Some?
    ensures AllSafe(ms) && Distinct(ms)
    ensures ExtractStream(ms, env, max).value.total == Bytes(ms) <= max
    ensures forall p :: p in ExtractStream(ms, env, max).value.fs <==> p in Paths(ms)
    ensures [] !in Paths(ms)
    ensures forall p, q | p in Paths(ms) && q in Paths(ms) :: !(p < q)
  {
    hide CanWrite, Safe, StreamPath;
    if ms != [] {
      var front, m := ms[..|ms| - 1], ms[|ms| - 1];
      StreamState(front, env, max);
      CanWriteApart(ExtractStream(front, env, max).value.fs, StreamPath(m));
    }
  }

  // Under one root the digest kept for a file is the digest of its bytes.
  lemma {:induction false} StreamDigests(ms: seq<Member>, env: Env, max: nat, root: string)
    requires ExtractStream(ms, env, max).Some?
    requires forall p | p in Paths(ms) :: p != [] && p[0] == root
    ensures var s := ExtractStream(ms, env, max).value;
      && (forall q :: q in s.digests <==> [root] + q in s.fs)
      && forall q | q in s.digests :: s.digests[q] == env.sha(s.fs[[root] + q])
  {
    hide CanWrite, Safe, StreamPath;
    if ms != [] {
      var front, m := ms[..|ms| - 1], ms[|ms| - 1];
      assert forall p | p in Paths(front) :: p in Paths(ms);
      StreamDigests(front, env, max, root);
      assert StreamPath(m) in Paths(ms) && StreamPath(m) == [root] + StreamPath(m)[1..];
      assert forall q :: ([root] + q)[1..] == q;
    }
  }

  // Without backslashes both extractions write the same files.
  lemma {:induction false} SameFiles(ms: seq<Member>, env: Env, max: nat)
    requires NoBackslash(ms)
    ensures ExtractStream(ms, env, max).Some? <==> AllSafe(ms) && Distinct(ms) && Bytes(ms) <= max && Extract(ms).Some?
    ensures ExtractStream(ms, env, max).Some? ==> Extract(ms) == Some(ExtractStream(ms, env, max).value.fs)
  {
    hide CanWrite, Safe, Parts;
    if ms != [] {
      var front, m := ms[..|ms| - 1], ms[|ms| - 1];
      SameFiles(front, env, max);
      SlashedSame(m.name);
      if ExtractStream(front, env, max).Some? { StreamState(front, env, max); }
    }
  }

  lemma CanWriteApart(fs: Files, p: Path)
    ensures CanWrite(fs, p) ==> p != [] && forall q | q in fs :: !(p < q) && !(q < p)
  { }

  lemma {:induction false} NamesArePaths(ms: seq<Member>)
    ensures |Paths(ms)| == |ms|
    ensures forall i | 0 <= i < |ms| :: Parts(Names(ms)[i]) == Paths(ms)[i]
  {
    hide Parts, Slashed;
    if ms != [] {
      NamesArePaths(ms[..|ms| - 1]);
      assert forall i | 0 <= i < |ms| - 1 :: Names(ms)[i] == Names(ms[..|ms| - 1])[i];
    }
  }

  // The root check of the admission step, said about the streamed paths.
  predicate OneRoot(ms: seq<Member>)
    requires ms != []
  {
    forall p | p in Paths(ms) :: p != [] && p[0] == Root(Names(ms))
  }

  lemma RootCheck(ms: seq<Member>)
    requires ms != []
    ensures OneRoot(ms) <==> !exists n | n in Names(ms) :: Parts(n) == [] || Parts(n)[0] != Root(Names(ms))
  {
    hide Parts, Slashed, Root;
    NamesArePaths(ms);
    if OneRoot(ms) {
      forall n | n in Names(ms) ensures !(Parts(n) == [] || Parts(n)[0] != Root(Names(ms))) {
        var i :| 0 <= i < |ms| && Names(ms)[i] == n;
        assert Paths(ms)[i] in Paths(ms);
      }
    } else {
      var p :| p in Paths(ms) && !(p != [] && p[0] == Root(Names(ms)));
      var i :| 0 <= i < |ms| && Paths(ms)[i] == p;
      assert Names(ms)[i] in Names(ms);
    }
  }

  // A partition may name the file the manifest is parked under.
  predicate Reserved(m: Manifest) { exists p | p in m.parts :: p.file == "manifest.unverified" }

  // Digests kept while writing agree with rereading, for every file but the parked manifest.
  lemma SameVerdict(part: Part, folder: Files, env: Env, digests: map<Path, string>)
    requires MANIFEST in folder && part.file != "manifest.unverified"
    requires forall q | q in folder :: q in digests && digests[q] == env.sha(folder[q])
    ensures Verified(part, Hidden(folder), env, Some(digests)) == Verified(part, Hidden(folder), env, None)
  { }

  function Folder(ms: seq<Member>): Files
    requires Extract(ms).Some? && ms != []
  {
    Under(Extract(ms).value, Root(Names(ms)))
  }

  // The manifest an archive would be admitted under, if the archive gets that far.
  function StagedManifest(ms: seq<Member>, env: Env): Option<Manifest> {
    if ms == [] || Extract(ms).None? || MANIFEST !in Folder(ms) then None else env.read(Folder(ms)[MANIFEST])
  }

  // For an archive without duplicate paths, backslashes or more bytes than declared, the one-pass
  // import decides and writes what the two-pass import does, unless a partition names the file the
  // manifest is parked under.
  lemma OnePassRefinesTwoPass(ms: seq<Member>, env: Env, max: nat)
    requires NoBackslash(ms) && Distinct(ms) && Bytes(ms) <= max
    requires StagedManifest(ms, env).Some? ==> !Reserved(StagedManifest(ms, env).value)
    ensures OnePass(ms, env, max) == TwoPass(ms, env)
  {
    SameFiles(ms, env, max);
    if ms != [] && ExtractStream(ms, env, max).Some? {
      RootCheck(ms);
      if OneRoot(ms) { AdmitSame(ms, env, max); }
    }
  }

  lemma AdmitSame(ms: seq<Member>, env: Env, max: nat)
    requires ms != [] && ExtractStream(ms, env, max).Some? && OneRoot(ms)
    requires var fs := ExtractStream(ms, env, max).value.fs; var folder := Under(fs, Root(Names(ms)));
      MANIFEST in folder && env.read(folder[MANIFEST]).Some? ==> !Reserved(env.read(folder[MANIFEST]).value)
    ensures var s := ExtractStream(ms, env, max).value;
      Admit(s.fs, Names(ms), env, Some(s.digests)) == Admit(s.fs, Names(ms), env, None)
  {
    hide Verified, ExtractStream, Names, Root;
    StreamState(ms, env, max);
    StreamDigests(ms, env, max, Root(Names(ms)));
    var s := ExtractStream(ms, env, max).value;
    var folder := Under(s.fs, Root(Names(ms)));
    if MANIFEST in folder && env.read(folder[MANIFEST]).Some? {
      var m := env.read(folder[MANIFEST]).value;
      forall p | p in m.parts
        ensures Verified(p, Hidden(folder), env, Some(s.digests)) == Verified(p, Hidden(folder), env, None)
      {
        SameVerdict(p, folder, env, s.digests);
      }
    }
  }

  // --- and exactly when it does not ---

  // What both imports put into the library: every partition file with its digest, except one named
  // like the parked manifest, whose file is gone after the closing rename.
  lemma AcceptedFiles(ms: seq<Member>, env: Env, max: nat)
    requires OnePass(ms, env, max).Accepted?
    ensures var r := OnePass(ms, env, max);
      forall p | p in r.manifest.parts ::
        p.file != "manifest.unverified" <==> [p.file] in r.files && env.sha(r.files[[p.file]]) == p.sha
  {
    hide ExtractStream, Names, Root;
    RootCheck(ms);
    StreamDigests(ms, env, max, Root(Names(ms)));
    var s := ExtractStream(ms, env, max).value;
    var folder := Under(s.fs, Root(Names(ms)));
    var m := env.read(folder[MANIFEST]).value;
    forall p | p in m.parts
      ensures p.file != "manifest.unverified" <==>
        [p.file] in Published(Hidden(folder)) && env.sha(Published(Hidden(folder))[[p.file]]) == p.sha
    {
      assert Verified(p, Hidden(folder), env, Some(s.digests));
    }
  }

  lemma AcceptedFilesTwoPass(ms: seq<Member>, env: Env)
    requires TwoPass(ms, env).Accepted?
    ensures var r := TwoPass(ms, env);
      forall p | p in r.manifest.parts ::
        p.file != "manifest.unverified" <==> [p.file] in r.files && env.sha(r.files[[p.file]]) == p.sha
  {
    hide Extract, Names, Root, AllSafe;
    var folder := Under(Extract(ms).value, Root(Names(ms)));
    forall p | p in env.read(folder[MANIFEST]).value.parts
      ensures p.file != "manifest.unverified" <==>
        [p.file] in Published(Hidden(folder)) && env.sha(Published(Hidden(folder))[[p.file]]) == p.sha
    {
      assert Verified(p, Hidden(folder), env, None);
    }
  }

  // With a partition of that name the two imports part ways exactly on whether its digest is also
  // the digest of the manifest itself.
  lemma ReservedNameSplits(ms: seq<Member>, env: Env, max: nat)
    requires OnePass(ms, env, max).Accepted? && NoBackslash(ms)
    ensures var r := OnePass(ms, env, max);
      MANIFEST in r.files &&
      (TwoPass(ms, env) == r <==>
        forall p | p in r.manifest.parts && p.file == "manifest.unverified" :: p.sha == env.sha(r.files[MANIFEST]))
  {
    hide ExtractStream, Names, Root, Extract, AllSafe;
    SameFiles(ms, env, max);
    RootCheck(ms);
    StreamState(ms, env, max);
    StreamDigests(ms, env, max, Root(Names(ms)));
    var s := ExtractStream(ms, env, max).value;
    var folder := Under(s.fs, Root(Names(ms)));
    var m := env.read(folder[MANIFEST]).value;
    forall p | p in m.parts
      ensures Verified(p, Hidden(folder), env, None) <==>
        (p.file == "manifest.unverified" ==> p.sha == env.sha(folder[MANIFEST]))
    {
      assert Verified(p, Hidden(folder), env, Some(s.digests));
    }
  }

  lemma {:induction false} SplitBackslash(s: string, cur: string)
    ensures ('\\' in s || '\\' in cur) <==> exists c | c in Split(s, cur) :: '\\' in c
  {
    if s == [] {
      assert cur in Split(s, cur);
    } else {
      assert s == [s[0]] + s[1..];
      if s[0] == '/' {
        SplitBackslash(s[1..], "");
        assert Split(s, cur)[0] == cur;
      } else {
        SplitBackslash(s[1..], cur + [s[0]]);
      }
    }
  }

  lemma {:induction false} RealPartsKeep(l: seq<string>, c: string)
    ensures c in RealParts(l) <==> c in l && c != "" && c != "."
  {
    if l != [] {
      assert l == [l[0]] + l[1..];
      RealPartsKeep(l[1..], c);
    }
  }

  // A backslash in a name shows in some component of its path.
  lemma BackslashShows(s: string)
    ensures '\\' in s <==> exists c | c in Parts(s) :: '\\' in c
  {
    SplitBackslash(s, "");
    if '\\' in s {
      var c :| c in Split(s, "") && '\\' in c;
      RealPartsKeep(Split(s, ""), c);
    }
    if exists c | c in Parts(s) :: '\\' in c {
      var c :| c in Parts(s) && '\\' in c;
      RealPartsKeep(Split(s, ""), c);
    }
  }

  lemma {:induction false} ExtractPaths(ms: seq<Member>, p: Path)
    requires Extract(ms).Some? && p in Extract(ms).value
    ensures exists i :: 0 <= i < |ms| && p == Parts(ms[i].name)
  {
    hide CanWrite, Parts;
    var front, m := ms[..|ms| - 1], ms[|ms| - 1];
    if p == Parts(m.name) {
      assert p == Parts(ms[|ms| - 1].name);
    } else {
      ExtractPaths(front, p);
      var i :| 0 <= i < |front| && p == Parts(front[i].name);
      assert ms[i] == front[i];
    }
  }

  lemma {:induction false} PathAt(ms: seq<Member>, i: nat)
    requires i < |ms|
    ensures StreamPath(ms[i]) in Paths(ms)
  {
    hide StreamPath;
    if i < |ms| - 1 { PathAt(ms[..|ms| - 1], i); }
  }

  lemma {:induction false} DistinctAt(ms: seq<Member>, i: nat, j: nat)
    requires Distinct(ms) && i < |ms| && j < |ms| && StreamPath(ms[i]) == StreamPath(ms[j])
    ensures i == j
  {
    hide StreamPath;
    var front := ms[..|ms| - 1];
    if i < |front| && j < |front| {
      DistinctAt(front, i, j);
    } else if i < |front| {
      PathAt(front, i);
    } else if j < |front| {
      PathAt(front, j);
    }
  }

  // An accepted archive with a backslash in a name puts a file where the two-pass import does not.
  lemma BackslashMoves(ms: seq<Member>, env: Env, max: nat, i: nat)
    requires ExtractStream(ms, env, max).Some? && Extract(ms).Some? && i < |ms| && '\\' in ms[i].name
    ensures StreamPath(ms[i]) !in Extract(ms).value
  {
    hide Split, RealParts, ExtractStream, Extract;
    var p := StreamPath(ms[i]);
    if p in Extract(ms).value {
      ExtractPaths(ms, p);
      var j :| 0 <= j < |ms| && p == Parts(ms[j].name);
      BackslashShows(Slashed(ms[i].name));
      BackslashShows(ms[j].name);
      assert '\\' !in ms[j].name;
      SlashedSame(ms[j].name);
      StreamState(ms, env, max);
      DistinctAt(ms, i, j);
    }
  }

  lemma TwoPassFiles(ms: seq<Member>, env: Env)
    requires TwoPass(ms, env).Accepted?
    ensures Extract(ms).Some? && forall q | q in TwoPass(ms, env).files :: [Root(Names(ms))] + q in Extract(ms).value
  {
    hide Extract, Root, Names, AllSafe;
  }

  lemma OnePassFiles(ms: seq<Member>, env: Env, max: nat)
    requires OnePass(ms, env, max).Accepted?
    ensures forall q | q in Under(ExtractStream(ms, env, max).value.fs, Root(Names(ms))) && q != UNVERIFIED ::
      q in OnePass(ms, env, max).files
  {
    hide ExtractStream, Root, Names;
  }

  lemma BackslashSplits(ms: seq<Member>, env: Env, max: nat, i: nat)
    requires OnePass(ms, env, max).Accepted? && i < |ms| && '\\' in ms[i].name
    requires [Root(Names(ms))] + UNVERIFIED !in Paths(ms)
    ensures TwoPass(ms, env) != OnePass(ms, env, max)
  {
    hide ExtractStream, Extract, Root, Names, Admit, TwoPass, StreamPath, Under, Paths;
    var q := BelowRoot(ms, env, max, i);
    PathAt(ms, i);
    OnePassFiles(ms, env, max);
    if TwoPass(ms, env).Accepted? {
      TwoPassFiles(ms, env);
      BackslashMoves(ms, env, max, i);
    }
  }

  // A streamed path of an accepted archive lies inside the image folder.
  lemma BelowRoot(ms: seq<Member>, env: Env, max: nat, i: nat) returns (q: Path)
    requires OnePass(ms, env, max).Accepted? && i < |ms|
    ensures StreamPath(ms[i]) == [Root(Names(ms))] + q && q != []
    ensures q in Under(ExtractStream(ms, env, max).value.fs, Root(Names(ms)))
  {
    hide ExtractStream, Root, Names, StreamPath, OnePass, Paths, AllSafe, Distinct;
    AcceptedShape(ms, env, max);
    StreamState(ms, env, max);
    PathAt(ms, i);
    var p, root := StreamPath(ms[i]), Root(Names(ms));
    q := p[1..];
    assert p == [root] + q;
    assert !(p < [root] + MANIFEST) && [root] < [root] + MANIFEST;
  }

  lemma AcceptedShape(ms: seq<Member>, env: Env, max: nat)
    requires OnePass(ms, env, max).Accepted?
    ensures ms != [] && ExtractStream(ms, env, max).Some? && OneRoot(ms)
    ensures MANIFEST in Under(ExtractStream(ms, env, max).value.fs, Root(Names(ms)))
  {
    hide ExtractStream, Root, Names, OneRoot;
    RootCheck(ms);
  }

  // When no member lands on the reserved name, an archive the one-pass import accepts gets the same
  // answer and the same files from the two-pass import exactly when no name holds a backslash.
  lemma AgreesIffNoBackslash(ms: seq<Member>, env: Env, max: nat)
    requires OnePass(ms, env, max).Accepted?
    requires [Root(Names(ms))] + UNVERIFIED !in Paths(ms)
    ensures TwoPass(ms, env) == OnePass(ms, env, max) <==> NoBackslash(ms)
  {
    hide ExtractStream, Extract, Root, Names, Parts, AllSafe, TwoPass, Paths;
    if NoBackslash(ms) {
      ReservedNameSplits(ms, env, max);
      NotReserved(ms, env, max);
    } else {
      var m :| m in ms && '\\' in m.name;
      var i :| 0 <= i < |ms| && ms[i] == m;
      BackslashSplits(ms, env, max, i);
    }
  }

  // And for an archive that either import accepts.
  lemma AgreesIff(ms: seq<Member>, env: Env, max: nat)
    requires OnePass(ms, env, max).Accepted? || TwoPass(ms, env).Accepted?
    requires [Root(Names(ms))] + UNVERIFIED !in Paths(ms)
    ensures TwoPass(ms, env) == OnePass(ms, env, max) <==>
      && NoBackslash(ms) && Distinct(ms) && Bytes(ms) <= max
      && !(StagedManifest(ms, env).Some? && Reserved(StagedManifest(ms, env).value))
  {
    hide ExtractStream, Extract, Root, Names, Distinct, Paths, Bytes, TwoPass, Under;
    var reserved := StagedManifest(ms, env).Some? && Reserved(StagedManifest(ms, env).value);
    if NoBackslash(ms) && Distinct(ms) && Bytes(ms) <= max && !reserved {
      OnePassRefinesTwoPass(ms, env, max);
    } else if TwoPass(ms, env) == OnePass(ms, env, max) {
      AgreesIffNoBackslash(ms, env, max);
      StreamState(ms, env, max);
      SameFiles(ms, env, max);
      NotReserved(ms, env, max);
      assert false;
    }
  }

  lemma NotReserved(ms: seq<Member>, env: Env, max: nat)
    requires OnePass(ms, env, max).Accepted?
    requires [Root(Names(ms))] + UNVERIFIED !in Paths(ms)
    ensures !Reserved(OnePass(ms, env, max).manifest)
  {
    hide ExtractStream, Root, Names, Parts;
    RootCheck(ms);
    StreamState(ms, env, max);
    var s, root := ExtractStream(ms, env, max).value, Root(Names(ms));
    StreamDigests(ms, env, max, root);
    forall p | p in OnePass(ms, env, max).manifest.parts ensures p.file != "manifest.unverified" {
      assert Verified(p, Hidden(Under(s.fs, root)), env, Some(s.digests));
    }
  }

  // --- inputs on which the two imports differ ---

  lemma NoMembers(env: Env, max: nat)
    ensures ExtractStream([], env, max) == Some(Stream(map[], map[], 0))
  { }

  // One more member, written where nothing is in its way.
  lemma OneMember(ms: seq<Member>, m: Member, p: Path, env: Env, max: nat, s: Stream)
    requires ExtractStream(ms, env, max) == Some(s) && Safe(m) && StreamPath(m) == p && |m.data| == m.size
    requires p !in s.fs && CanWrite(s.fs, p) && s.total + |m.data| <= max
    ensures ExtractStream(ms + [m], env, max) ==
            Some(Stream(s.fs[p := m.data], s.digests[p[1..] := env.sha(m.data)], s.total + |m.data|))
  {
    hide CanWrite, Safe, StreamPath;
    assert (ms + [m])[..|ms|] == ms;
  }

  lemma PlainName(m: Member, p: Path)
    requires m.plain && '\\' !in m.name && m.name != "" && m.name[0] != '/' && Parts(m.name) == p && ".." !in p
    ensures Safe(m) && StreamPath(m) == p
  {
    hide Parts;
    SlashedSame(m.name);
  }

  lemma TwoParts(rest: string)
    requires rest != "" && rest != "." && '/' !in rest
    ensures Parts("i/" + rest) == ["i", rest]
  {
    hide Parts;
    assert "i/" + rest == "i" + "/" + rest;
    PartsConcat("i", rest);
    OneComponent("i");
    OneComponent(rest);
  }

  lemma {:induction false} SplitOne(s: string, cur: string)
    requires '/' !in s
    ensures Split(s, cur) == [cur + s]
  {
    if s != [] {
      assert s[0] in s;
      SplitOne(s[1..], cur + [s[0]]);
      assert cur + [s[0]] + s[1..] == cur + s;
    } else {
      assert cur + s == cur;
    }
  }

  // An archive that holds nothing but a manifest is accepted by the one-pass import.
  lemma ManifestAlone(m: Member, env: Env)
    requires m.plain && m.size == |m.data| && Slashed(m.name) == "i/manifest.json"
    requires env.read(m.data).Some? && env.read(m.data).value.parts == [] && env.read(m.data).value.id !in env.taken
    ensures OnePass([m], env, m.size).Accepted? && Paths([m]) == [["i", "manifest.json"]] && Root(Names([m])) == "i"
  {
    hide Split, RealParts, Parts, Slashed, Under;
    var ms, p, fs := [m], ["i", "manifest.json"], map[["i", "manifest.json"] := m.data];
    var name := "i/manifest.json";
    assert name == "i/" + "manifest.json" && name[0] == 'i';
    TwoParts("manifest.json");
    assert ms[..0] == [];
    assert Safe(m) && StreamPath(m) == p;
    assert ExtractStream(ms, env, m.size) == Some(Stream(fs, map[p[1..] := env.sha(m.data)], m.size));
    assert Names(ms) == [name];
    ManifestFolder(fs, m.data);
  }

  lemma ManifestFolder(fs: Files, data: bytes)
    requires fs == map[["i", "manifest.json"] := data]
    ensures MANIFEST in Under(fs, "i") && Under(fs, "i")[MANIFEST] == data && !IsDirectory(Under(fs, "i"), UNVERIFIED)
  {
    var folder := Under(fs, "i");
    assert ["i"] + MANIFEST == ["i", "manifest.json"];
    forall q | q in folder ensures q == MANIFEST {
      assert (["i"] + q)[1..] == q && ["i", "manifest.json"][1..] == MANIFEST;
    }
  }

  // A manifest stored under a name with a backslash is found by the one-pass import only.
  lemma BackslashExample(env: Env)
    requires env.read([]).Some? && env.read([]).value.parts == [] && env.read([]).value.id !in env.taken
    ensures var ms := [Member("i\\manifest.json", true, 0, [])];
      OnePass(ms, env, 0).Accepted? && TwoPass(ms, env) != OnePass(ms, env, 0)
  {
    hide OnePass, TwoPass, Root, Names, Paths;
    var m := Member("i\\manifest.json", true, 0, []);
    assert Slashed(m.name) == "i/manifest.json";
    ManifestAlone(m, env);
    assert m.name[1] == '\\' && m in [m];
    assert (["i"] + UNVERIFIED)[1] == "manifest.unverified" && ["i", "manifest.json"][1] == "manifest.json";
    assert "manifest.unverified"[9] == 'u' && "manifest.json"[9] == 'j';
    AgreesIffNoBackslash([m], env, 0);
  }

  lemma ReservedStream(a: Member, b: Member, env: Env) returns (s: Stream)
    requires a == Member("i/manifest.json", true, 1, [1]) && b == Member("i/manifest.unverified", true, 1, [2])
    ensures ExtractStream([a, b], env, 2) == Some(s) && Names([a, b]) == [a.name, b.name]
    ensures s.fs == map[["i", "manifest.json"] := [1], ["i", "manifest.unverified"] := [2]]
    ensures UNVERIFIED in s.digests && s.digests[UNVERIFIED] == env.sha([2])
  {
    hide Split, RealParts, Parts, Slashed, CanWrite, Safe, ExtractStream, StreamPath;
    var p, q := ["i", "manifest.json"], ["i", "manifest.unverified"];
    TwoNames(a, b);
    CanWriteTwo(p, q);
    assert [] + [a] == [a] && [a] + [b] == [a, b];
    assert q[1..] == UNVERIFIED;
    NoMembers(env, 2);
    OneMember([], a, p, env, 2, Stream(map[], map[], 0));
    var one := Stream(map[p := [1]], map[p[1..] := env.sha([1])], 1);
    OneMember([a], b, q, env, 2, one);
    s := Stream(one.fs[q := [2]], one.digests[q[1..] := env.sha([2])], 2);
  }

  // A partition stored under the reserved name: accepted with its digest, and its file is gone.
  lemma ReservedExample(env: Env, id: string)
    requires env.read([1]) == Some(Manifest(id, [Part("manifest.unverified", env.sha([2]))])) && id !in env.taken
    ensures var ms := [Member("i/manifest.json", true, 1, [1]), Member("i/manifest.unverified", true, 1, [2])];
      OnePass(ms, env, 2).Accepted? && UNVERIFIED !in OnePass(ms, env, 2).files
  {
    hide Split, RealParts, Parts, Slashed, Under, ExtractStream, Names, Safe;
    var a, b := Member("i/manifest.json", true, 1, [1]), Member("i/manifest.unverified", true, 1, [2]);
    TwoNames(a, b);
    var s := ReservedStream(a, b, env);
    TwoFolder(s.fs);
    assert Verified(Part("manifest.unverified", env.sha([2])), Hidden(Under(s.fs, "i")), env, Some(s.digests));
  }

  lemma TwoNames(a: Member, b: Member)
    requires a.name == "i/manifest.json" && b.name == "i/manifest.unverified" && a.plain && b.plain
    ensures Slashed(a.name) == a.name && Slashed(b.name) == b.name && Safe(a) && Safe(b)
    ensures StreamPath(a) == ["i", "manifest.json"] && StreamPath(b) == ["i", "manifest.unverified"]
  {
    hide Split, RealParts, Parts;
    assert a.name == "i/" + "manifest.json" && b.name == "i/" + "manifest.unverified" && a.name[0] == b.name[0] == 'i';
    TwoParts("manifest.json");
    TwoParts("manifest.unverified");
  }

  lemma CanWriteTwo(p: Path, q: Path)
    requires p == ["i", "manifest.json"] && q == ["i", "manifest.unverified"]
    ensures p != q && CanWrite(map[], p) && CanWrite(map[p := [1]], q)
  {
    assert "manifest.unverified"[9] == 'u' && "manifest.json"[9] == 'j';
    assert p[1] != q[1];
  }

  lemma TwoFolder(fs: Files)
    requires fs == map[["i", "manifest.json"] := [1], ["i", "manifest.unverified"] := [2]]
    ensures MANIFEST in Under(fs, "i") && Under(fs, "i")[MANIFEST] == [1] && !IsDirectory(Under(fs, "i"), UNVERIFIED)
  {
    var folder := Under(fs, "i");
    assert "manifest.unverified"[9] == 'u' && "manifest.json"[9] == 'j';
    assert ["i"] + MANIFEST == ["i", "manifest.json"] && ["i", "manifest.json"][1] != ["i", "manifest.unverified"][1];
    forall q | q in folder ensures |q| == 1 { assert |["i"] + q| == 2; }
  }

  // --- what acceptance means, said about the members ---

  // How a name falls into components: a '/' parts it, and empty and "." components are dropped.
  lemma {:induction false} PartsConcat(a: string, b: string)
    ensures Parts(a + "/" + b) == Parts(a) + Parts(b)
  {
    SplitConcat(a, b, "");
    RealPartsConcat(Split(a, ""), Split(b, ""));
  }

  lemma {:induction false} SplitConcat(a: string, b: string, cur: string)
    ensures Split(a + "/" + b, cur) == Split(a, cur) + Split(b, "")
  {
    var s := a + "/" + b;
    if a == [] {
      assert s[0] == '/' && s[1..] == b;
    } else {
      assert s[0] == a[0] && s[1..] == a[1..] + "/" + b;
      if a[0] == '/' { SplitConcat(a[1..], b, ""); } else { SplitConcat(a[1..], b, cur + [a[0]]); }
    }
  }

  lemma {:induction false} RealPartsConcat(a: seq<string>, b: seq<string>)
    ensures RealParts(a + b) == RealParts(a) + RealParts(b)
  {
    if a == [] {
      assert a + b == b;
    } else {
      assert (a + b)[1..] == a[1..] + b;
      RealPartsConcat(a[1..], b);
    }
  }

  lemma OneComponent(s: string)
    requires '/' !in s
    ensures Parts(s) == if s == "" || s == "." then [] else [s]
  {
    SplitOne(s, "");
    assert "" + s == s && [s][1..] == [];
    assert RealParts([s]) == (if s == "" || s == "." then [] else [s]) + RealParts([]);
  }

  // A member that may be written at all: a regular file with all its bytes, neither at an absolute name
  // nor above the staging folder, and not at the folder itself.
  ghost predicate Proper(m: Member) {
    && m.plain && |m.data| == m.size
    && !("/" <= m.name) && !("\\" <= m.name)
    && StreamPath(m) != [] && forall c | c in StreamPath(m) :: c != ".."
  }

  // No member is written over another or makes a folder of it.
  ghost predicate Apart(ms: seq<Member>) {
    forall i, j | 0 <= i < |ms| && 0 <= j < |ms| && i != j :: !(StreamPath(ms[i]) <= StreamPath(ms[j]))
  }

  lemma SafeIff(m: Member)
    ensures Safe(m) && |m.data| == m.size && StreamPath(m) != [] <==> Proper(m)
  {
    hide Parts;
    assert forall c: char :: [c] <= m.name <==> m.name != "" && m.name[0] == c;
  }

  lemma {:induction false} StreamIff(ms: seq<Member>, env: Env, max: nat)
    ensures ExtractStream(ms, env, max).Some? <==> (forall m | m in ms :: Proper(m)) && Apart(ms) && Bytes(ms) <= max
  {
    hide CanWrite, Safe, StreamPath, Proper;
    if ms != [] {
      var front, m := ms[..|ms| - 1], ms[|ms| - 1];
      StreamIff(front, env, max);
      SafeIff(m);
      assert ms == front + [m];
      if ExtractStream(front, env, max).Some? {
        StreamState(front, env, max);
        CanWriteApart(ExtractStream(front, env, max).value.fs, StreamPath(m));
        if StreamPath(m) != [] { FreeIff(front, m, env, max); }
      }
      assert Apart(ms) ==> Apart(front) by {
        assert forall i | 0 <= i < |front| :: front[i] == ms[i];
      }
    }
  }

  lemma {:induction false} ExtractKeys(ms: seq<Member>, p: Path)
    requires Extract(ms).Some?
    ensures p in Extract(ms).value <==> exists m | m in ms :: Parts(m.name) == p
  {
    hide CanWrite, Parts;
    if ms != [] {
      ExtractKeys(ms[..|ms| - 1], p);
      assert ms == ms[..|ms| - 1] + [ms[|ms| - 1]];
    }
  }

  // The extraction of the two-pass import writes every member under its own name.
  lemma {:induction false} ExtractIff(ms: seq<Member>)
    ensures Extract(ms).Some? <==>
      && (forall m | m in ms :: |m.data| == m.size && Parts(m.name) != [])
      && forall m, n | m in ms && n in ms :: !(Parts(m.name) < Parts(n.name))
  {
    hide CanWrite, Parts;
    if ms != [] {
      var front, m := ms[..|ms| - 1], ms[|ms| - 1];
      ExtractIff(front);
      assert ms == front + [m];
      if Extract(front).Some? {
        CanExtract(front, m);
        hide Extract;
        assert forall n | n in ms :: n in front || n == m;
      }
    }
  }

  lemma CanExtract(front: seq<Member>, m: Member)
    requires Extract(front).Some?
    ensures CanWrite(Extract(front).value, Parts(m.name)) <==>
      && Parts(m.name) != []
      && forall n | n in front :: !(Parts(m.name) < Parts(n.name)) && !(Parts(n.name) < Parts(m.name))
  {
    hide Parts, Extract;
    forall n | n in front ensures Parts(n.name) in Extract(front).value { ExtractKeys(front, Parts(n.name)); }
    forall q ensures q in Extract(front).value <==> exists n | n in front :: Parts(n.name) == q {
      ExtractKeys(front, q);
    }
  }

  // Of the members that share a name the last one stays.
  lemma {:induction false} LastStays(ms: seq<Member>, i: nat)
    requires Extract(ms).Some? && i < |ms| && forall j | i < j < |ms| :: Parts(ms[j].name) != Parts(ms[i].name)
    ensures Parts(ms[i].name) in Extract(ms).value && Extract(ms).value[Parts(ms[i].name)] == ms[i].data
  {
    hide Parts, CanWrite;
    if i < |ms| - 1 { LastStays(ms[..|ms| - 1], i); }
  }

  lemma {:induction false} PathsAre(ms: seq<Member>, p: Path)
    ensures p in Paths(ms) <==> exists m | m in ms :: StreamPath(m) == p
  {
    hide StreamPath;
    if ms != [] {
      var front, m := ms[..|ms| - 1], ms[|ms| - 1];
      PathsAre(front, p);
      assert ms == front + [m];
    }
  }

  lemma PrefixSplit(p: Path, q: Path)
    ensures p <= q <==> p == q || p < q
  {
    if p <= q && |p| == |q| { assert p == q; }
  }

  lemma FreeIff(front: seq<Member>, m: Member, env: Env, max: nat)
    requires ExtractStream(front, env, max).Some? && StreamPath(m) != [] && Apart(front)
    ensures var fs, p := ExtractStream(front, env, max).value.fs, StreamPath(m);
      p !in fs && CanWrite(fs, p) <==> Apart(front + [m])
  {
    hide StreamPath, ExtractStream;
    StreamState(front, env, max);
    var fs, p, ms := ExtractStream(front, env, max).value.fs, StreamPath(m), front + [m];
    assert forall i | 0 <= i < |front| :: ms[i] == front[i];
    if p !in fs && CanWrite(fs, p) {
      CanWriteApart(fs, p);
      hide CanWrite, Paths;
      forall i, j | 0 <= i < |ms| && 0 <= j < |ms| && i != j
        ensures !(StreamPath(ms[i]) <= StreamPath(ms[j]))
      {
        PrefixSplit(StreamPath(ms[i]), StreamPath(ms[j]));
        if i < |front| { PathAt(front, i); }
        if j < |front| { PathAt(front, j); }
      }
    } else {
      assert exists q :: q in Paths(front) && (q <= p || p < q);
      var q :| q in Paths(front) && (q <= p || p < q);
      PathsAre(front, q);
      var k :| 0 <= k < |front| && StreamPath(front[k]) == q;
      assert ms[k] == front[k] && ms[|front|] == m;
    }
  }

  // What the streaming loop has written holds each member's bytes under its path, and nothing else.
  lemma {:induction false} StreamBytes(ms: seq<Member>, env: Env, max: nat)
    requires ExtractStream(ms, env, max).Some?
    ensures var fs := ExtractStream(ms, env, max).value.fs;
      && (forall p :: p in fs <==> exists m | m in ms :: StreamPath(m) == p)
      && forall m | m in ms :: fs[StreamPath(m)] == m.data
  {
    hide CanWrite, Safe, StreamPath;
    if ms != [] {
      var front, m := ms[..|ms| - 1], ms[|ms| - 1];
      StreamBytes(front, env, max);
      assert ms == front + [m];
    }
  }

  // The archive is one image: everything lies under one root, the manifest there reads, its id is free,
  // nothing lies below the name the manifest is parked under, and every partition has a member below the
  // root, other than the manifest, with the digest the manifest names.
  ghost predicate IsImage(ms: seq<Member>, env: Env, root: string, manifest: Manifest) {
    && (forall m | m in ms :: [root] <= StreamPath(m))
    && (exists m | m in ms :: StreamPath(m) == [root, "manifest.json"] && env.read(m.data) == Some(manifest))
    && manifest.id !in env.taken
    && (forall m | m in ms :: !([root, "manifest.unverified"] < StreamPath(m)))
    && (forall p | p in manifest.parts :: p.file != "manifest.json" &&
          exists m | m in ms :: StreamPath(m) == [root, p.file] && env.sha(m.data) == p.sha)
  }

  ghost predicate Acceptable(ms: seq<Member>, env: Env, max: nat) {
    && ms != [] && (forall m | m in ms :: Proper(m)) && Apart(ms) && Bytes(ms) <= max
    && exists root, manifest :: IsImage(ms, env, root, manifest)
  }

  // What an accepted image is in the library: each member below the root, the manifest under its own name.
  ghost predicate IsLibraryCopy(ms: seq<Member>, root: string, files: Files) {
    && (forall q :: q in files <==>
          q != [] && q != ["manifest.unverified"] && exists m | m in ms :: StreamPath(m) == [root] + q)
    && (forall m, q | m in ms && q in files && StreamPath(m) == [root] + q :: files[q] == m.data)
  }

  // The same said about the folder in the staging area.
  ghost predicate IsImageFolder(folder: Files, env: Env, manifest: Manifest) {
    && MANIFEST in folder && !IsDirectory(folder, UNVERIFIED)
    && env.read(folder[MANIFEST]) == Some(manifest) && manifest.id !in env.taken
    && forall p | p in manifest.parts ::
         p.file != "manifest.json" && [p.file] in folder && env.sha(folder[[p.file]]) == p.sha
  }

  ghost predicate IsFolderOf(ms: seq<Member>, root: string, folder: Files) {
    && (forall q :: q in folder <==> q != [] && exists m | m in ms :: StreamPath(m) == [root] + q)
    && (forall m, q | m in ms && q in folder && StreamPath(m) == [root] + q :: folder[q] == m.data)
  }

  lemma BelowFolder(root: string, p: Path, q: Path)
    ensures p < q <==> [root] + p < [root] + q
  {
    assert ([root] + p)[1..] == p && ([root] + q)[1..] == q;
    assert |p| <= |q| ==> ([root] + q)[..|p| + 1] == [root] + q[..|p|];
  }

  lemma FolderOf(ms: seq<Member>, env: Env, max: nat, root: string)
    requires ExtractStream(ms, env, max).Some?
    ensures IsFolderOf(ms, root, Under(ExtractStream(ms, env, max).value.fs, root))
  {
    hide StreamPath, ExtractStream;
    StreamBytes(ms, env, max);
  }

  lemma FolderIff(ms: seq<Member>, env: Env, root: string, folder: Files, manifest: Manifest)
    requires IsFolderOf(ms, root, folder) && forall m | m in ms :: [root] <= StreamPath(m)
    ensures IsImage(ms, env, root, manifest) <==> IsImageFolder(folder, env, manifest)
  {
    hide StreamPath;
    assert [root, "manifest.json"] == [root] + MANIFEST && [root, "manifest.unverified"] == [root] + UNVERIFIED;
    forall p: Part ensures [root, p.file] == [root] + [p.file] { }
    if IsDirectory(folder, UNVERIFIED) {
      var q :| q in folder && UNVERIFIED < q;
      var m :| m in ms && StreamPath(m) == [root] + q;
      BelowFolder(root, UNVERIFIED, q);
    } else {
      forall m | m in ms ensures !([root] + UNVERIFIED < StreamPath(m)) {
        var q := StreamPath(m)[1..];
        assert StreamPath(m) == [root] + q;
        BelowFolder(root, UNVERIFIED, q);
      }
    }
    if MANIFEST in folder {
      var m :| m in ms && StreamPath(m) == [root] + MANIFEST;
      assert folder[MANIFEST] == m.data;
    }
  }

  lemma AdmitIff(fs: Files, names: seq<string>, env: Env, digests: map<Path, string>)
    requires names != [] && !exists n | n in names :: Parts(n) == [] || Parts(n)[0] != Root(names)
    requires forall q | q in Under(fs, Root(names)) ::
      q in digests && digests[q] == env.sha(Under(fs, Root(names))[q])
    requires forall q :: q in digests ==> q == [] || q in Under(fs, Root(names))
    ensures var r, folder := Admit(fs, names, env, Some(digests)), Under(fs, Root(names));
      && (r.Accepted? <==> exists manifest :: IsImageFolder(folder, env, manifest))
      && (r.Accepted? ==> IsImageFolder(folder, env, r.manifest) && r.files == folder - {UNVERIFIED})
  {
    hide Root, Parts, Under;
    var folder := Under(fs, Root(names));
    assert "manifest.unverified"[9] == 'u' && "manifest.json"[9] == 'j';
    assert UNVERIFIED[0] != MANIFEST[0];
    if MANIFEST in folder && !IsDirectory(folder, UNVERIFIED) && env.read(folder[MANIFEST]).Some? {
      var m := env.read(folder[MANIFEST]).value;
      forall p | p in m.parts
        ensures Verified(p, Hidden(folder), env, Some(digests)) <==>
          p.file != "manifest.json" && [p.file] in folder && env.sha(folder[[p.file]]) == p.sha
      {
        assert [p.file] == MANIFEST <==> p.file == "manifest.json" by { assert [p.file][0] == p.file; }
      }
      assert Published(Hidden(folder)) == folder - {UNVERIFIED};
      if Admit(fs, names, env, Some(digests)).Accepted? {
        assert IsImageFolder(folder, env, m);
      }
    }
  }

  // The one-pass import accepts exactly the archives of one image, and keeps exactly their files.
  lemma AcceptedIff(ms: seq<Member>, env: Env, max: nat)
    ensures OnePass(ms, env, max).Accepted? <==> Acceptable(ms, env, max)
    ensures var r := OnePass(ms, env, max);
      r.Accepted? ==> exists root :: IsImage(ms, env, root, r.manifest) && IsLibraryCopy(ms, root, r.files)
  {
    hide ExtractStream, StreamPath, Proper, Apart, Bytes, IsImage, IsLibraryCopy, Admit, Root;
    StreamIff(ms, env, max);
    if ms != [] && ExtractStream(ms, env, max).Some? {
      if exists root, manifest :: IsImage(ms, env, root, manifest) {
        var root, manifest :| IsImage(ms, env, root, manifest);
        RootOf(ms, env, root, manifest);
        AdmittedIff(ms, env, max);
      } else {
        RootCheck(ms);
        if OneRoot(ms) { AdmittedIff(ms, env, max); } else { NotOneRoot(ms, env, max); }
      }
    }
  }

  lemma NotOneRoot(ms: seq<Member>, env: Env, max: nat)
    requires ms != [] && !OneRoot(ms)
    ensures OnePass(ms, env, max).Rejected?
  {
    hide ExtractStream, Root, Parts, Names;
    RootCheck(ms);
  }

  lemma RootOf(ms: seq<Member>, env: Env, root: string, manifest: Manifest)
    requires ms != [] && IsImage(ms, env, root, manifest)
    ensures root == Root(Names(ms)) && OneRoot(ms)
  {
    hide StreamPath, Parts;
    NamesArePaths(ms);
    PathAt(ms, 0);
    PathsAre(ms, Paths(ms)[0]);
    forall p | p in Paths(ms) ensures [root] <= p { PathsAre(ms, p); }
  }

  lemma AdmittedIff(ms: seq<Member>, env: Env, max: nat)
    requires ms != [] && ExtractStream(ms, env, max).Some? && OneRoot(ms)
    ensures var r, root := OnePass(ms, env, max), Root(Names(ms));
      && (r.Accepted? <==> exists manifest :: IsImage(ms, env, root, manifest))
      && (r.Accepted? ==> IsImage(ms, env, root, r.manifest) && IsLibraryCopy(ms, root, r.files))
  {
    hide ExtractStream, StreamPath, Admit, Root, IsImage, IsImageFolder, Names, Under, Parts;
    var s, root := ExtractStream(ms, env, max).value, Root(Names(ms));
    var folder := Under(s.fs, root);
    RootCheck(ms);
    StreamDigests(ms, env, max, root);
    FolderOf(ms, env, max, root);
    AdmitIff(s.fs, Names(ms), env, s.digests);
    forall m | m in ms ensures [root] <= StreamPath(m) { PathsAre(ms, StreamPath(m)); assert OneRoot(ms); }
    forall manifest ensures IsImage(ms, env, root, manifest) <==> IsImageFolder(folder, env, manifest) {
      FolderIff(ms, env, root, folder, manifest);
    }
  }

  // --- the loops ---

  const CHUNK := 1024 * 1024

  // The first loop of import_tar_stream. `onDisk` counts the bytes written; it never passes max.
  method WriteMembers(ms: seq<Member>, env: Env, max: nat) returns (r: Option<Stream>, ghost onDisk: nat)
    ensures r == ExtractStream(ms, env, max) && onDisk <= max
  {
    hide CanWrite, Safe, StreamPath;
    var s := Stream(map[], map[], 0);
    onDisk := 0;
    for i := 0 to |ms|
      invariant ExtractStream(ms[..i], env, max) == Some(s) && s.total == onDisk <= max
    {
      assert ms[..i + 1][..i] == ms[..i];
      var m := ms[i];
      var dest := StreamPath(m);
      if !Safe(m) || dest in s.fs || !CanWrite(s.fs, dest) {
        NoneFrom(ms, i + 1, env, max);
        return None, onDisk;
      }
      var written: bytes, total := [], s.total;
      while |written| < |m.data|
        invariant written <= m.data && total == s.total + |written| == onDisk <= max
      {
        var n := if |m.data| - |written| < CHUNK then |m.data| - |written| else CHUNK;
        total := total + n;
        if total > max {
          NoneFrom(ms, i + 1, env, max);
          return None, onDisk;
        }
        written := written + m.data[|written|..|written| + n];
        onDisk := onDisk + n;
      }
      if |written| != m.size {
        NoneFrom(ms, i + 1, env, max);
        return None, onDisk;
      }
      CanWriteApart(s.fs, dest);
      assert written == m.data;
      s := Stream(s.fs[dest := written], s.digests[dest[1..] := env.sha(written)], total);
    }
    assert ms[..|ms|] == ms;
    r := Some(s);
  }

  lemma {:induction false} NoneFrom(ms: seq<Member>, i: nat, env: Env, max: nat)
    requires i <= |ms| && ExtractStream(ms[..i], env, max).None?
    ensures ExtractStream(ms, env, max).None?
    decreases |ms|
  {
    if i < |ms| {
      assert ms[..|ms| - 1][..i] == ms[..i];
      NoneFrom(ms[..|ms| - 1], i, env, max);
    } else {
      assert ms[..i] == ms;
    }
  }

  method ImportTarStream(ms: seq<Member>, env: Env, max: nat) returns (r: Result, ghost onDisk: nat)
    ensures r == OnePass(ms, env, max) && onDisk <= max
    ensures r.Accepted? <==> Acceptable(ms, env, max)
    ensures r.Accepted? ==> exists root :: IsImage(ms, env, root, r.manifest) && IsLibraryCopy(ms, root, r.files)
  {
    hide Acceptable, IsImage, IsLibraryCopy;
    AcceptedIff(ms, env, max);
    var s;
    s, onDisk := WriteMembers(ms, env, max);
    if s.None? || ms == [] { return Rejected, onDisk; }
    r := Admit(s.value.fs, Names(ms), env, Some(s.value.digests));
  }
}
