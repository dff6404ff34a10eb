// The hand-written ustar writer, and a reader of the "ustar Interchange Format" section of pax in
// POSIX.1-2017 to measure it against.
module Tar {
  import opened Words
  import opened Wrappers

  const BLOCK := 512
  const NAME_LIMIT := 100

  function Fill(b: byte, n: nat): (z: bytes)
    ensures |z| == n && forall i | 0 <= i < n :: z[i] == b
  {
    seq(n, _ => b)
  }

  function Pow8(n: nat): nat { if n == 0 then 1 else 8 * Pow8(n - 1) }

  // Octal digits, as the format specification 'o' prints them.
  function Digits(v: nat): (d: bytes)
    ensures |d| > 0
  {
    if v < 8 then [48 + v] else Digits(v / 8) + [48 + v % 8]
  }

  // f"{value:0{width - 1}o}\0": the sign counts towards the width.
  function Octal(value: int, width: nat): bytes
    requires width > 1
  {
    var d := Digits(if value < 0 then -value else value);
    var sign := if value < 0 then [45] else [];
    var room := width - 1 - |sign| - |d|;
    sign + Fill(48, if room > 0 then room else 0) + d + [0]
  }

  lemma {:induction false} DigitsLength(v: nat, k: nat)
    requires k > 0
    ensures |Digits(v)| <= k <==> v < Pow8(k)
  {
    if k == 1 {
      assert Pow8(1) == 8;
    } else if v >= 8 {
      DigitsLength(v / 8, k - 1);
    } else {
      PowerPositive(k - 1);
    }
  }

  lemma PowerPositive(n: nat)
    ensures Pow8(n) >= 1
  { }

  // Octal digits up to the first NUL or space.
  function Field(f: bytes): bytes { if f == [] || f[0] == 0 || f[0] == 32 then [] else [f[0]] + Field(f[1..]) }

  function ParseDigits(d: bytes): Option<nat> {
    if d == [] then None
    else if !(48 <= d[|d| - 1] <= 55) then None
    else if |d| == 1 then Some(d[0] - 48)
    else
      var high := ParseDigits(d[..|d| - 1]);
      if high.None? then None else Some(high.value * 8 + d[|d| - 1] - 48)
  }

  function ParseOctal(f: bytes): Option<nat> { ParseDigits(Field(f)) }

  function Sum(b: bytes): nat { if b == [] then 0 else Sum(b[..|b| - 1]) + b[|b| - 1] }

  // Python's slice assignment on a bytearray; the replacement may have another length.
  function Splice(h: bytes, lo: nat, hi: nat, src: bytes): bytes
    requires lo <= hi <= |h|
  {
    h[..lo] + src + h[hi..]
  }

  const USTAR: bytes := [117, 115, 116, 97, 114, 0]

  // f"{total:06o}\0 "
  function Checksum(total: nat): bytes {
    var d := Digits(total);
    Fill(48, if |d| < 6 then 6 - |d| else 0) + d + [0, 32]
  }

  // What a reader takes from a header block: name, mode, owner, size and modification time of a regular
  // file whose stored checksum is the sum of the block with the checksum field read as spaces.
  datatype Meta = Meta(name: bytes, mode: nat, uid: nat, gid: nat, size: nat, mtime: nat)

  // Characters of the reader's magic field, with the NUL that ends it.
  const MAGIC: bytes := ['u' as int, 's' as int, 't' as int, 'a' as int, 'r' as int, 0]

  function Name(f: bytes): bytes { if f == [] || f[0] == 0 then [] else [f[0]] + Name(f[1..]) }

  function Parse(h: bytes): Option<Meta>
    requires |h| == BLOCK
  {
    var size, mtime, check := ParseOctal(h[124..136]), ParseOctal(h[136..148]), ParseOctal(h[148..156]);
    var mode, uid, gid := ParseOctal(h[100..108]), ParseOctal(h[108..116]), ParseOctal(h[116..124]);
    if h[156] != '0' as int || h[257..263] != MAGIC || h[263..265] != ['0' as int, '0' as int] then None
    else if size.None? || mtime.None? || mode.None? || uid.None? || gid.None? then None
    else if check != Some(Sum(h[..148]) + Sum(Fill(32, 8)) + Sum(h[156..])) then None
    else Some(Meta(Name(h[..100]), mode.value, uid.value, gid.value, size.value, mtime.value))
  }

  // The numeric fields hold eleven octal digits.
  predicate Fits(size: nat, mtime: int) { size < Pow8(11) && 0 <= mtime < Pow8(11) }

  lemma {:induction false} DigitsParse(v: nat, zeros: nat)
    ensures ParseDigits(Fill(48, zeros) + Digits(v)) == Some(v)
  {
    var d := Fill(48, zeros) + Digits(v);
    if v >= 8 {
      assert d[..|d| - 1] == Fill(48, zeros) + Digits(v / 8);
      DigitsParse(v / 8, zeros);
    } else if zeros > 0 {
      assert d[..|d| - 1] == Fill(48, zeros - 1) + Digits(0);
      DigitsParse(0, zeros - 1);
    }
  }

  lemma {:induction false} DigitsAreDigits(v: nat)
    ensures forall b | b in Digits(v) :: 48 <= b <= 55
  {
    if v >= 8 { DigitsAreDigits(v / 8); }
  }

  lemma {:induction false} FieldStops(d: bytes, rest: bytes)
    requires (forall b | b in d :: b != 0 && b != 32) && rest != [] && rest[0] in {0, 32}
    ensures Field(d + rest) == d
  {
    if d == [] {
      assert d + rest == rest && Field(rest) == [];
    } else {
      assert (d + rest)[0] == d[0] && (d + rest)[1..] == d[1..] + rest;
      assert d[0] in d && d == [d[0]] + d[1..];
      assert forall b | b in d[1..] :: b in d;
      FieldStops(d[1..], rest);
    }
  }

  lemma NumberParses(v: nat, zeros: nat, rest: bytes)
    requires rest != [] && rest[0] in {0, 32}
    ensures ParseOctal(Fill(48, zeros) + Digits(v) + rest) == Some(v)
  {
    DigitsAreDigits(v);
    FieldStops(Fill(48, zeros) + Digits(v), rest);
    DigitsParse(v, zeros);
  }

  // A field of the writer is readable exactly when the value has at most eleven digits and no sign.
  lemma OctalField(value: int, size: bool)
    requires size ==> value >= 0
    ensures |Octal(value, 12)| >= 12
    ensures 0 <= value < Pow8(11) ==> |Octal(value, 12)| == 12 && ParseOctal(Octal(value, 12)) == Some(value)
    ensures |Octal(value, 12)| == 12 && ParseOctal(Octal(value, 12)).Some? ==> 0 <= value < Pow8(11)
  {
    if value >= 0 {
      var d := Digits(value);
      DigitsLength(value, 11);
      var zeros := if |d| < 11 then 11 - |d| else 0;
      assert Octal(value, 12) == Fill(48, zeros) + d + [0];
      NumberParses(value, zeros, [0]);
    } else {
      var o := Octal(value, 12);
      assert o[0] == 45;
      SignRejected(o);
    }
  }

  lemma {:induction false} FirstOfField(f: bytes)
    requires f != [] && f[0] !in {0, 32}
    ensures Field(f) != [] && Field(f)[0] == f[0]
  { }

  lemma SignRejected(f: bytes)
    requires f != [] && f[0] == 45
    ensures ParseOctal(f).None?
  {
    FirstOfField(f);
    BadFirst(Field(f));
  }

  lemma {:induction false} BadFirst(d: bytes)
    requires d != [] && d[0] == 45
    ensures ParseDigits(d).None?
  {
    if |d| > 1 { BadFirst(d[..|d| - 1]); }
  }

  lemma {:induction false} SumAppend(a: bytes, b: bytes)
    ensures Sum(a + b) == Sum(a) + Sum(b)
  {
    if b == [] {
      assert a + b == a;
    } else {
      assert (a + b)[..|a + b| - 1] == a + b[..|b| - 1];
      SumAppend(a, b[..|b| - 1]);
    }
  }

  lemma {:induction false} SumBound(a: bytes)
    ensures Sum(a) <= 255 * |a|
  {
    if a != [] { SumBound(a[..|a| - 1]); }
  }

  // A block's byte sum always fits the checksum field.
  lemma ChecksumFits(total: nat)
    requires total <= 255 * BLOCK
    ensures |Checksum(total)| == 8 && ParseOctal(Checksum(total)) == Some(total)
  {
    assert Pow8(6) == 262144;
    DigitsLength(total, 6);
    var d := Digits(total);
    assert Checksum(total) == Fill(48, 6 - |d|) + d + [0, 32];
    NumberParses(total, 6 - |d|, [0, 32]);
  }

  lemma {:induction false} NameStops(name: bytes, zeros: nat)
    requires 0 !in name
    ensures Name(name + Zeros(zeros)) == name
  {
    var f := name + Zeros(zeros);
    if name != [] {
      assert f[1..] == name[1..] + Zeros(zeros);
      NameStops(name[1..], zeros);
    }
  }

  // Writing the next field of a header that is still zero from there on.
  lemma SpliceNext(done: bytes, zeros: nat, src: bytes)
    requires |src| <= zeros
    ensures Splice(done + Zeros(zeros), |done|, |done| + |src|, src) == done + src + Zeros(zeros - |src|)
  { }

  // The block up to the checksum field, and from the type flag on.
  function Front(name: bytes, size: bytes, mtime: bytes): (r: bytes)
    requires |name| <= NAME_LIMIT && |size| == |mtime| == 12
    ensures |r| == 148
  {
    SmallFields();
    name + Zeros(100 - |name|) + Octal(0x1a4, 8) + Octal(0, 8) + Octal(0, 8) + size + mtime
  }

  function Back(): (r: bytes)
    ensures |r| == 356
  {
    [48] + Zeros(100) + USTAR + [48, 48] + Zeros(247)
  }

  lemma SmallFields()
    ensures |Octal(0x1a4, 8)| == 8 && |Octal(0, 8)| == 8
    ensures ParseOctal(Octal(0x1a4, 8)) == Some(6 * 64 + 4 * 8 + 4) && ParseOctal(Octal(0, 8)) == Some(0)
  {
    assert Digits(0x1a4) == [54, 52, 52];
    assert Octal(0x1a4, 8) == Fill(48, 4) + Digits(0x1a4) + [0] && Octal(0, 8) == Fill(48, 6) + Digits(0) + [0];
    NumberParses(0x1a4, 4, [0]);
    NumberParses(0, 6, [0]);
  }

  lemma BlockParses(name: bytes, size: bytes, mtime: bytes, check: bytes)
    requires |name| <= NAME_LIMIT && 0 !in name && |size| == |mtime| == 12 && |check| == 8
    requires ParseOctal(check) == Some(Sum(Front(name, size, mtime) + Fill(32, 8) + Back()))
    ensures var h := Front(name, size, mtime) + check + Back();
      Parse(h) == if ParseOctal(size).None? || ParseOctal(mtime).None? then None
                  else Some(Meta(name, 6 * 64 + 4 * 8 + 4, 0, 0, ParseOctal(size).value, ParseOctal(mtime).value))
  {
    SmallFields();
    hide Octal, ParseOctal, Sum, Name;
    var front, back := Front(name, size, mtime), Back();
    var h := front + check + back;
    assert h[..148] == front && h[148..156] == check && h[156..] == back;
    assert front[124..136] == size && front[136..148] == mtime && front[..100] == name + Zeros(100 - |name|);
    assert h[124..136] == front[124..136] && h[136..148] == front[136..148] && h[..100] == front[..100];
    assert front[100..108] == Octal(0x1a4, 8) && front[108..116] == Octal(0, 8) && front[116..124] == Octal(0, 8);
    assert h[100..108] == front[100..108] && h[108..116] == front[108..116] && h[116..124] == front[116..124];
    assert back[101..107] == USTAR && back[107..109] == [48, 48];
    assert h[257..263] == back[101..107] && h[263..265] == back[107..109];
    NameStops(name, 100 - |name|);
    SumAppend(front + Fill(32, 8), back);
    SumAppend(front, Fill(32, 8));
  }

  // The fields of a header in the order the writer assigns them.
  method Fields(name: bytes, size: bytes, mtime: bytes) returns (h: bytes)
    requires |name| <= NAME_LIMIT && |size| >= 12 && |mtime| >= 12
    ensures |size| == |mtime| == 12 ==> h == Front(name, size, mtime) + Fill(32, 8) + Back()
    ensures |h| == BLOCK + |size| - 12 + |mtime| - 12
  {
    hide Octal;
    SmallFields();
    h := Zeros(BLOCK);
    h := Splice(h, 0, |name|, name);
    ghost var p := name + Zeros(100 - |name|);
    assert h == p + Zeros(412);
    h := Splice(h, 100, 108, Octal(0x1a4, 8));
    SpliceNext(p, 412, Octal(0x1a4, 8));
    p := p + Octal(0x1a4, 8);
    h := Splice(h, 108, 116, Octal(0, 8));
    SpliceNext(p, 404, Octal(0, 8));
    p := p + Octal(0, 8);
    h := Splice(h, 116, 124, Octal(0, 8));
    SpliceNext(p, 396, Octal(0, 8));
    p := p + Octal(0, 8);
    assert h == p + Zeros(388);
    h := NumberFields(h, p, size, mtime);
  }

  method NumberFields(start: bytes, ghost front: bytes, size: bytes, mtime: bytes) returns (h: bytes)
    requires |front| == 124 && start == front + Zeros(388) && |size| >= 12 && |mtime| >= 12
    ensures |size| == |mtime| == 12 ==> h == front + size + mtime + Fill(32, 8) + Back()
    ensures |h| == BLOCK + |size| - 12 + |mtime| - 12
  {
    ghost var p := front;
    h := start;
    h := Splice(h, 124, 136, size);
    if |size| == 12 { SpliceNext(p, 388, size); }
    p := p + size;
    h := Splice(h, 136, 148, mtime);
    if |size| == |mtime| == 12 { SpliceNext(p, 376, mtime); }
    p := p + mtime;
    assert |size| == |mtime| == 12 ==> h == p + Zeros(364);
    h := TypeFields(h, p);
  }

  method TypeFields(start: bytes, ghost front: bytes) returns (h: bytes)
    requires |start| >= BLOCK
    ensures |h| == |start|
    ensures |front| == 148 && start == front + Zeros(364) ==> h == front + Fill(32, 8) + Back()
  {
    ghost var good := |front| == 148 && start == front + Zeros(364);
    ghost var p := front;
    h := start;
    h := Splice(h, 148, 156, Fill(32, 8));
    if good { SpliceNext(p, 364, Fill(32, 8)); }
    p := p + Fill(32, 8);
    h := Splice(h, 156, 157, [48]);
    if good { SpliceNext(p, 356, [48]); }
    p := p + [48] + Zeros(100);
    assert good ==> h == p + Zeros(255) by { assert Zeros(355) == Zeros(100) + Zeros(255); }
    h := Splice(h, 257, 263, USTAR);
    if good { SpliceNext(p, 255, USTAR); }
    p := p + USTAR;
    h := Splice(h, 263, 265, [48, 48]);
    if good { SpliceNext(p, 249, [48, 48]); }
    assert good ==> h == front + Fill(32, 8) + Back();
  }

  // A member's header is one readable block exactly when its numbers fit.
  method Header(name: bytes, size: nat, mtime: int) returns (r: Option<bytes>)
    requires 0 !in name
    ensures r.None? <==> |name| > 100
    ensures r.Some? && Fits(size, mtime) ==>
      |r.value| == 512 && Parse(r.value) == Some(Meta(name, 6 * 64 + 4 * 8 + 4, 0, 0, size, mtime))
    ensures r.Some? && !Fits(size, mtime) ==> |r.value| > BLOCK || (|r.value| == BLOCK && Parse(r.value).None?)
    ensures r.Some? ==> |r.value| >= BLOCK && r.value[..BLOCK] != Zeros(BLOCK)
  {
    hide Octal, Checksum, Parse, ParseOctal, Front, Back, Sum, Digits;
    if |name| > NAME_LIMIT { return None; }
    OctalField(size, true);
    OctalField(mtime, false);
    var s, t := Octal(size, 12), Octal(mtime, 12);
    var h := Fields(name, s, t);
    ghost var total := Sum(h);
    if |s| == |t| == 12 {
      SumBound(h);
      ChecksumFits(total);
      BlockParses(name, s, t, Checksum(total));
      SpliceMiddle(Front(name, s, t), Fill(32, 8), Back(), Checksum(total));
    } else {
      ChecksumLength(total);
    }
    h := Splice(h, 148, 156, Checksum(Sum(h)));
    assert h[148..156] == Checksum(total)[..8] && h[..BLOCK][148] == Checksum(total)[0];
    ChecksumDigit(total);
    r := Some(h);
  }

  lemma SpliceMiddle(a: bytes, b: bytes, c: bytes, src: bytes)
    ensures Splice(a + b + c, |a|, |a| + |b|, src) == a + src + c
  { }

  lemma ChecksumLength(total: nat)
    ensures |Checksum(total)| >= 8
  { }

  lemma ChecksumDigit(total: nat)
    ensures |Checksum(total)| > 0 && Checksum(total)[0] != 0
  {
    DigitsAreDigits(total);
    assert Digits(total)[0] in Digits(total);
  }

  // --- whole archives ---

  // An entry of the directory. A regular file is sent with the size its stat gave; what is read may
  // differ. Subdirectories and files with unsafe names are skipped, a symbolic link is an error.
  datatype Entry = File(name: bytes, size: nat, mtime: int, content: bytes) | Link | Skipped

  // A member as a reader finds it.
  datatype Member = Member(name: bytes, mode: nat, uid: nat, gid: nat, content: bytes, mtime: int)

  // A regular file as the writer sends it: readable by all, writable by its owner, who is root.
  function Sent(name: bytes, content: bytes, mtime: int): Member {
    Member(name, 6 * 64 + 4 * 8 + 4, 0, 0, content, mtime)
  }

  // -size % BLOCK
  function Pad(size: nat): (p: nat)
    ensures p < 512 && (size + p) % 512 == 0
  {
    (BLOCK - size % BLOCK) % BLOCK
  }

  function Listing(dir: seq<Entry>, arcname: bytes): seq<Member> {
    if dir == [] then []
    else
      var l := Listing(dir[..|dir| - 1], arcname);
      var e := dir[|dir| - 1];
      if e.File? then l + [Sent(arcname + ['/' as int] + e.name, e.content, e.mtime)] else l
  }

  function Lengths(dir: seq<Entry>): nat {
    if dir == [] then 0
    else
      var e := dir[|dir| - 1];
      Lengths(dir[..|dir| - 1]) + if e.File? then BLOCK + e.size + Pad(e.size) else 0
  }

  method TarSize(dir: seq<Entry>) returns (r: Option<nat>)
    ensures r == if Link in dir then None else Some(Lengths(dir) + 2 * BLOCK)
  {
    var total := 0;
    for i := 0 to |dir|
      invariant Link !in dir[..i] && total == Lengths(dir[..i])
    {
      assert dir[..i + 1][..i] == dir[..i];
      match dir[i] {
        case Link => return None;
        case Skipped => continue;
        case File(_, size, _, _) => total := total + BLOCK + size + Pad(size);
      }
    }
    assert dir[..|dir|] == dir;
    r := Some(total + 2 * BLOCK);
  }

  function Found(m: Meta, content: bytes): Member { Member(m.name, m.mode, m.uid, m.gid, content, m.mtime) }

  // A ustar reader: members until a zero block, which a second one must follow.
  function Read(t: bytes): Option<seq<Member>>
    decreases |t|
  {
    if |t| < 2 * BLOCK then None
    else if t[..BLOCK] == Zeros(BLOCK) then
      if t[BLOCK..2 * BLOCK] == Zeros(BLOCK) then Some([]) else None
    else
      var m := Parse(t[..BLOCK]);
      if m.None? || |t| < BLOCK + m.value.size + Pad(m.value.size) then None
      else
        var rest := Read(t[BLOCK + m.value.size + Pad(m.value.size)..]);
        if rest.None? then None
        else Some([Found(m.value, t[BLOCK..BLOCK + m.value.size])] + rest.value)
  }

  // Headers and members laid out one after the other.
  function Layout(hs: seq<bytes>, ms: seq<Member>): bytes
    requires |hs| == |ms|
  {
    if hs == [] then []
    else hs[0] + ms[0].content + Zeros(Pad(|ms[0].content|)) + Layout(hs[1..], ms[1..])
  }

  lemma {:induction false} LayoutSnoc(hs: seq<bytes>, ms: seq<Member>, h: bytes, m: Member)
    requires |hs| == |ms|
    ensures Layout(hs + [h], ms + [m]) == Layout(hs, ms) + h + m.content + Zeros(Pad(|m.content|))
  {
    if hs != [] {
      assert (hs + [h])[1..] == hs[1..] + [h] && (ms + [m])[1..] == ms[1..] + [m];
      LayoutSnoc(hs[1..], ms[1..], h, m);
    }
  }

  // What the writer's header step promises for one member.
  ghost predicate Headed(h: bytes, m: Member) {
    && |h| >= BLOCK && h[..BLOCK] != Zeros(BLOCK)
    && (Fits(|m.content|, m.mtime) ==>
          |h| == BLOCK && Parse(h) == Some(Meta(m.name, m.mode, m.uid, m.gid, |m.content|, m.mtime)))
    && (!Fits(|m.content|, m.mtime) ==> |h| > BLOCK || Parse(h).None?)
  }

  ghost predicate AllHeaded(hs: seq<bytes>, ms: seq<Member>) {
    |hs| == |ms| && forall i | 0 <= i < |hs| :: Headed(hs[i], ms[i])
  }

  predicate AllFit(ms: seq<Member>) { forall m | m in ms :: Fits(|m.content|, m.mtime) }

  lemma {:induction false} ReadBack(hs: seq<bytes>, ms: seq<Member>)
    requires AllHeaded(hs, ms) && forall h | h in hs :: |h| == BLOCK
    ensures Read(Layout(hs, ms) + Zeros(2 * BLOCK)) == if AllFit(ms) then Some(ms) else None
  {
    hide Parse, Fits, Pad, Read;
    if hs == [] {
      ReadEnd();
      assert Layout(hs, ms) + Zeros(2 * BLOCK) == Zeros(2 * BLOCK);
    } else {
      var h, m := hs[0], ms[0];
      var rest := Layout(hs[1..], ms[1..]) + Zeros(2 * BLOCK);
      assert Layout(hs, ms) + Zeros(2 * BLOCK) == h + m.content + Zeros(Pad(|m.content|)) + rest;
      assert Headed(h, m);
      ReadMember(h, m.content, rest);
      ReadBack(hs[1..], ms[1..]);
      assert ms == [m] + ms[1..];
    }
  }

  lemma ReadEnd()
    ensures Read(Zeros(2 * BLOCK)) == Some([])
  {
    var t := Zeros(2 * BLOCK);
    assert t[..BLOCK] == Zeros(BLOCK) && t[BLOCK..2 * BLOCK] == Zeros(BLOCK);
  }

  lemma ReadMember(h: bytes, content: bytes, rest: bytes)
    requires |h| == BLOCK && h != Zeros(BLOCK) && |rest| >= 2 * BLOCK
    ensures Parse(h).None? ==> Read(h + content + Zeros(Pad(|content|)) + rest).None?
    ensures Parse(h).Some? && Parse(h).value.size == |content| ==>
      Read(h + content + Zeros(Pad(|content|)) + rest) ==
        if Read(rest).None? then None
        else Some([Found(Parse(h).value, content)] + Read(rest).value)
  {
    hide Parse, Pad;
    Pieces(h, content, Zeros(Pad(|content|)), rest);
  }

  lemma Pieces(h: bytes, content: bytes, zeros: bytes, rest: bytes)
    requires |h| == BLOCK
    ensures var t := h + content + zeros + rest;
      t[..BLOCK] == h && t[BLOCK..BLOCK + |content|] == content && t[BLOCK + |content| + |zeros|..] == rest
  { }

  lemma {:induction false} LayoutLength(hs: seq<bytes>, ms: seq<Member>)
    requires AllHeaded(hs, ms)
    ensures |Layout(hs, ms)| >= Total(ms)
    ensures |Layout(hs, ms)| == Total(ms) <==> forall h | h in hs :: |h| == BLOCK
  {
    if hs != [] { LayoutLength(hs[1..], ms[1..]); }
  }

  function Total(ms: seq<Member>): nat {
    if ms == [] then 0 else BLOCK + |ms[0].content| + Pad(|ms[0].content|) + Total(ms[1..])
  }

  const CHUNK := 1024 * 1024

  // handle.read(CHUNK) until it returns nothing.
  method ReadChunks(content: bytes) returns (sent: bytes)
    ensures sent == content
  {
    sent := [];
    while |sent| < |content|
      invariant sent <= content
    {
      var n := if |content| - |sent| < CHUNK then |content| - |sent| else CHUNK;
      sent := sent + content[|sent|..|sent| + n];
    }
  }

  lemma {:induction false} TotalSnoc(ms: seq<Member>, m: Member)
    ensures Total(ms + [m]) == Total(ms) + BLOCK + |m.content| + Pad(|m.content|)
  {
    if ms != [] {
      assert (ms + [m])[1..] == ms[1..] + [m];
      TotalSnoc(ms[1..], m);
    }
  }

  lemma {:induction false} TotalIsLengths(dir: seq<Entry>, arcname: bytes)
    requires forall e | e in dir && e.File? :: e.size == |e.content|
    ensures Total(Listing(dir, arcname)) == Lengths(dir)
  {
    if dir != [] {
      var front, e := dir[..|dir| - 1], dir[|dir| - 1];
      TotalIsLengths(front, arcname);
      if e.File? { TotalSnoc(Listing(front, arcname), Sent(arcname + [47] + e.name, e.content, e.mtime)); }
    }
  }

  // The generator's output, or None when it raises.
  method TarStream(dir: seq<Entry>, arcname: bytes) returns (r: Option<bytes>)
    requires 0 !in arcname && forall e | e in dir && e.File? :: 0 !in e.name
    ensures r.Some? <==>
      (Link !in dir &&
       forall e | e in dir && e.File? :: |arcname| + 1 + |e.name| <= 100 && e.size == |e.content|)
    ensures r.Some? && AllFit(Listing(dir, arcname)) ==>
      |r.value| == Lengths(dir) + 2 * BLOCK && Read(r.value) == Some(Listing(dir, arcname))
    ensures r.Some? && !AllFit(Listing(dir, arcname)) ==>
      |r.value| > Lengths(dir) + 2 * BLOCK || Read(r.value).None?
  {
    hide Fits, Parse, Pad, Read;
    var out: bytes := [];
    ghost var hs: seq<bytes> := [];
    for i := 0 to |dir|
      invariant AllHeaded(hs, Listing(dir[..i], arcname)) && out == Layout(hs, Listing(dir[..i], arcname))
      invariant forall e | e in dir[..i] :: !e.Link?
      invariant forall e | e in dir[..i] && e.File? :: |arcname| + 1 + |e.name| <= NAME_LIMIT && e.size == |e.content|
    {
      assert dir[..i + 1][..i] == dir[..i];
      var e := dir[i];
      assert e in dir;
      if e.Link? { return None; }
      if e.Skipped? { continue; }
      var h := Header(arcname + [47] + e.name, e.size, e.mtime);
      if h.None? { return None; }
      var sent := ReadChunks(e.content);
      if |sent| != e.size { return None; }
      LayoutSnoc(hs, Listing(dir[..i], arcname), h.value, Sent(arcname + [47] + e.name, e.content, e.mtime));
      out := out + h.value + sent + Zeros(Pad(e.size));
      hs := hs + [h.value];
    }
    assert dir[..|dir|] == dir;
    ghost var ms := Listing(dir, arcname);
    LayoutLength(hs, ms);
    TotalIsLengths(dir, arcname);
    if AllFit(ms) {
      forall i | 0 <= i < |hs| ensures |hs[i]| == BLOCK { assert Headed(hs[i], ms[i]); }
    }
    if forall h | h in hs :: |h| == BLOCK { ReadBack(hs, ms); }
    r := Some(out + Zeros(2 * BLOCK));
  }
}
