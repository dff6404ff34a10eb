// The table of devices seen on the network. Every contact of a machine asks for a write; a contact that
// adds nothing within 15 seconds of the last write is not written.
module NetSeen {
  import opened Wrappers

  const MIN_INTERVAL := 15     // seconds
  const MICRO := 1_000_000     // clock ticks in a second

  // last_seen as read back: a time with a zone, in whole seconds, or text that gives no such time.
  datatype Stamp = Aware(seconds: int) | Naive(seconds: int) | Unreadable(text: string)

  datatype Row = Row(
    ip: Option<string>, firstSeen: Stamp, lastSeen: Stamp, disks: Option<string>, secret: Option<string>,
    auth: Option<string>, prompt: Option<string>, probe: Option<string>, firmware: Option<string>,
    secureBoot: Option<int>, version: Option<string>, localClone: Option<string>, optical: Option<string>)

  datatype Call = Call(
    mac: string, now: int, ip: Option<string>, disks: Option<string>, secret: Option<string>,
    auth: Option<string>, prompt: Option<string>, probe: Option<string>, firmware: Option<string>,
    secureBoot: Option<int>, version: Option<string>, localClone: Option<string>, optical: Option<string>,
    updateOptical: bool)

  type Table = map<string, Row>

  // An empty text and NULL are the same monitor_auth.
  function OrNone(auth: Option<string>): Option<string> { if auth == Some("") then None else auth }

  function Coalesce<T>(given: Option<T>, kept: Option<T>): Option<T> { if given.Some? then given else kept }

  function Now(c: Call): Stamp { Aware(c.now / MICRO) }

  // The INSERT ... ON CONFLICT DO UPDATE statement.
  function Upsert(t: Table, c: Call): Table {
    t[c.mac :=
      if c.mac !in t then
        Row(c.ip, Now(c), Now(c), c.disks, c.secret, c.auth, c.prompt, c.probe, c.firmware, c.secureBoot,
            c.version, c.localClone, c.optical)
      else
        var r := t[c.mac];
        Row(Coalesce(c.ip, r.ip), r.firstSeen, Now(c), Coalesce(c.disks, r.disks), Coalesce(c.secret, r.secret),
            if c.secret.Some? then c.auth else r.auth, c.prompt, Coalesce(c.probe, r.probe),
            Coalesce(c.firmware, r.firmware), Coalesce(c.secureBoot, r.secureBoot),
            Coalesce(c.version, r.version), c.localClone, if c.updateOptical then c.optical else r.optical)]
  }

  predicate Differs<T(==)>(given: Option<T>, kept: Option<T>) { given.Some? && given != kept }

  predicate Fresh(r: Row, now: int) {
    r.lastSeen.Aware? && 0 <= now - r.lastSeen.seconds * MICRO < MIN_INTERVAL * MICRO
  }

  predicate Unchanged(r: Row, c: Call) {
    && !Differs(c.ip, r.ip) && !Differs(c.disks, r.disks) && !Differs(c.secret, r.secret)
    && (c.secret.Some? ==> OrNone(r.auth) == OrNone(c.auth))
    && c.prompt == r.prompt && c.localClone == r.localClone
    && (c.updateOptical ==> c.optical == r.optical)
    && !Differs(c.probe, r.probe) && !Differs(c.firmware, r.firmware) && !Differs(c.secureBoot, r.secureBoot)
    && !Differs(c.version, r.version)
    && Fresh(r, c.now)
  }

  predicate Skips(t: Table, c: Call) { c.mac in t && Unchanged(t[c.mac], c) }

  function Seen(t: Table, c: Call): Table { if Skips(t, c) then t else Upsert(t, c) }

  class Devices {
    var rows: Table

    constructor () ensures rows == map[] { rows := map[]; }

    method NetSeen(c: Call) returns (wrote: bool)
      modifies this
      ensures rows == Seen(old(rows), c)
      ensures wrote == !Skips(old(rows), c)
      ensures forall mac | mac != c.mac && mac in old(rows) :: mac in rows && rows[mac] == old(rows)[mac]
    {
      wrote := true;
      if c.mac in rows {
        var row := rows[c.mac];
        if Unchanged(row, c) { return false; }
      }
      rows := Upsert(rows, c);
    }
  }

  function AlwaysRun(t: Table, calls: seq<Call>): Table {
    if calls == [] then t else Upsert(AlwaysRun(t, calls[..|calls| - 1]), calls[|calls| - 1])
  }

  function Run(t: Table, calls: seq<Call>): Table {
    if calls == [] then t else Seen(Run(t, calls[..|calls| - 1]), calls[|calls| - 1])
  }

  // Two rows agree in every field but last_seen, which is behind by less than 15 seconds and never ahead.
  predicate Agree(r: Row, always: Row) {
    && r.(auth := None, lastSeen := always.lastSeen) == always.(auth := None)
    && OrNone(r.auth) == OrNone(always.auth)
    && (r.lastSeen == always.lastSeen ||
        (r.lastSeen.Aware? && always.lastSeen.Aware? &&
         0 <= always.lastSeen.seconds - r.lastSeen.seconds < 15))
  }

  predicate TablesAgree(t: Table, always: Table) {
    t.Keys == always.Keys && forall mac | mac in t :: Agree(t[mac], always[mac])
  }

  lemma StepAgrees(t: Table, always: Table, c: Call)
    requires TablesAgree(t, always)
    ensures TablesAgree(Seen(t, c), Upsert(always, c))
  {
    var t', always' := Seen(t, c), Upsert(always, c);
    assert t'.Keys == always'.Keys;
    forall mac | mac in t' ensures Agree(t'[mac], always'[mac]) {
      if mac == c.mac {
        if Skips(t, c) {
          SkipAgrees(t[mac], always[mac], c);
        }
      } else {
        assert t'[mac] == t[mac] && always'[mac] == always[mac];
      }
    }
  }

  lemma SkipAgrees(r: Row, always: Row, c: Call)
    requires Agree(r, always) && Unchanged(r, c)
    ensures Agree(r, Upsert(map[c.mac := always], c)[c.mac])
  {
    assert c.now == c.now / MICRO * MICRO + c.now % MICRO;
  }

  // For every sequence of contacts by any machines, whatever the clock does between them, the table the
  // throttle leaves agrees with the table that a write for every contact would leave.
  lemma {:induction false} ThrottleAgrees(t: Table, calls: seq<Call>)
    ensures TablesAgree(Run(t, calls), AlwaysRun(t, calls))
  {
    hide Seen, Upsert;
    if calls != [] {
      ThrottleAgrees(t, calls[..|calls| - 1]);
      StepAgrees(Run(t, calls[..|calls| - 1]), AlwaysRun(t, calls[..|calls| - 1]), calls[|calls| - 1]);
    }
  }

  function Written(t: Table, calls: seq<Call>, mac: string): (n: nat) {
    if calls == [] then 0
    else
      var front, c := calls[..|calls| - 1], calls[|calls| - 1];
      Written(t, front, mac) + if c.mac == mac && !Skips(Run(t, front), c) then 1 else 0
  }

  // One machine says the same thing at each contact, and the clock never steps back.
  predicate Repeats(calls: seq<Call>, first: Call) {
    forall k | 0 <= k < |calls| :: calls[k].mac == first.mac ==> calls[k] == first.(now := calls[k].now)
  }

  predicate ClockRises(from: int, calls: seq<Call>, until: int) {
    && from <= until
    && (forall k | 0 <= k < |calls| :: from <= calls[k].now <= until)
    && (forall j, k | 0 <= j < k < |calls| :: calls[j].now <= calls[k].now)
  }

  predicate Repeated(r: Row, first: Call, written: nat, until: int) {
    && r.lastSeen.Aware? && Unchanged(r, first.(now := r.lastSeen.seconds * MICRO))
    && r.lastSeen.seconds * MICRO <= until
    && written * MIN_INTERVAL <= r.lastSeen.seconds - first.now / MICRO
  }

  lemma {:induction false} RepeatsKeep(t: Table, first: Call, calls: seq<Call>, until: int)
    requires first.mac !in t && Repeats(calls, first) && ClockRises(first.now, calls, until)
    ensures var r := Run(Seen(t, first), calls);
      first.mac in r && Repeated(r[first.mac], first, Written(Seen(t, first), calls, first.mac), until)
  {
    if calls != [] {
      var front, c := calls[..|calls| - 1], calls[|calls| - 1];
      RepeatsKeep(t, first, front, c.now);
      RepeatStep(Run(Seen(t, first), front), first, c, Written(Seen(t, first), front, first.mac));
    }
  }

  lemma RepeatStep(t: Table, first: Call, c: Call, written: nat)
    requires first.mac in t && Repeated(t[first.mac], first, written, c.now)
    requires c.mac == first.mac ==> c == first.(now := c.now)
    ensures first.mac in Seen(t, c)
    ensures Repeated(Seen(t, c)[first.mac], first,
                     written + (if c.mac == first.mac && !Skips(t, c) then 1 else 0), c.now)
  {
    assert c.now == c.now / MICRO * MICRO + c.now % MICRO;
    if c.mac == first.mac && !Skips(t, c) {
      assert !Fresh(t[first.mac], c.now);
    }
  }

  // What the throttle is for: after its first contact such a machine, among any others, costs at most
  // one write for every 15 seconds that pass.
  lemma WritesAreRare(t: Table, first: Call, calls: seq<Call>, until: int)
    requires first.mac !in t && Repeats(calls, first) && ClockRises(first.now, calls, until)
    ensures Written(Seen(t, first), calls, first.mac) * 15 <= until / MICRO - first.now / MICRO
  {
    RepeatsKeep(t, first, calls, until);
  }

  // --- what the row of a machine says ---

  // The fields a contact can fill in but not empty.
  datatype Field = Ip | Disks | Secret | Probe | Firmware | SecureBoot | Version
  datatype Value = Text(text: string) | Flag(flag: int)

  function OfText(v: Option<string>): Option<Value> { if v.None? then None else Some(Text(v.value)) }
  function OfFlag(v: Option<int>): Option<Value> { if v.None? then None else Some(Flag(v.value)) }

  function Given(c: Call, f: Field): Option<Value> {
    match f
    case Ip => OfText(c.ip)
    case Disks => OfText(c.disks)
    case Secret => OfText(c.secret)
    case Probe => OfText(c.probe)
    case Firmware => OfText(c.firmware)
    case SecureBoot => OfFlag(c.secureBoot)
    case Version => OfText(c.version)
  }

  function Held(r: Row, f: Field): Option<Value> {
    match f
    case Ip => OfText(r.ip)
    case Disks => OfText(r.disks)
    case Secret => OfText(r.secret)
    case Probe => OfText(r.probe)
    case Firmware => OfText(r.firmware)
    case SecureBoot => OfFlag(r.secureBoot)
    case Version => OfText(r.version)
  }

  // v is the last value any contact of the machine gave for the field, if one did.
  ghost predicate LastGiven(calls: seq<Call>, mac: string, f: Field, v: Option<Value>) {
    if v.None? then forall i | 0 <= i < |calls| && calls[i].mac == mac :: Given(calls[i], f).None?
    else exists i: nat ::
      i < |calls| && calls[i].mac == mac && Given(calls[i], f) == v && NoneGiven(calls, mac, f, i + 1)
  }

  ghost predicate NoneGiven(calls: seq<Call>, mac: string, f: Field, from: nat) {
    forall j | from <= j < |calls| && calls[j].mac == mac :: Given(calls[j], f).None?
  }

  // The i-th contact is the first of the machine.
  ghost predicate IsFirst(calls: seq<Call>, mac: string, i: nat) {
    i < |calls| && calls[i].mac == mac && forall j | 0 <= j < i :: calls[j].mac != mac
  }

  // Which contacts, besides the first, set the fields that are not simply filled in.
  datatype Kind = Every | WithSecret | WithOptical

  predicate Sets(c: Call, kind: Kind) {
    match kind
    case Every => true
    case WithSecret => c.secret.Some?
    case WithOptical => c.updateOptical
  }

  // The i-th contact is the last of the machine that set such a field.
  ghost predicate IsLast(calls: seq<Call>, mac: string, kind: Kind, i: nat) {
    && i < |calls| && calls[i].mac == mac && (IsFirst(calls, mac, i) || Sets(calls[i], kind))
    && forall j | i < j < |calls| && calls[j].mac == mac :: !Sets(calls[j], kind)
  }

  // The row of a machine says what its contacts said: a field that is only ever filled in holds the last
  // value given, the prompt and the local clone are always those of the last contact, the authentication is
  // that of the last secret, and the first contact is not forgotten.
  ghost predicate RowSays(calls: seq<Call>, mac: string, r: Row) {
    && (forall f :: LastGiven(calls, mac, f, Held(r, f)))
    && (exists i: nat :: IsFirst(calls, mac, i) && r.firstSeen == Aware(calls[i].now / 1_000_000))
    && (exists i: nat :: IsLast(calls, mac, Every, i) && r.prompt == calls[i].prompt &&
          r.localClone == calls[i].localClone && r.lastSeen == Aware(calls[i].now / 1_000_000))
    && (exists i: nat :: IsLast(calls, mac, WithSecret, i) && r.auth == calls[i].auth)
    && (exists i: nat :: IsLast(calls, mac, WithOptical, i) && r.optical == calls[i].optical)
  }

  lemma GivenStep(front: seq<Call>, c: Call, mac: string, f: Field, v: Option<Value>)
    requires LastGiven(front, mac, f, v)
    ensures LastGiven(front + [c], mac, f, if c.mac == mac then Coalesce(Given(c, f), v) else v)
  {
    var calls := front + [c];
    if c.mac == mac && Given(c, f).Some? {
      assert calls[|front|] == c && NoneGiven(calls, mac, f, |front| + 1);
    } else if v.Some? {
      var i: nat :| i < |front| && front[i].mac == mac && Given(front[i], f) == v && NoneGiven(front, mac, f, i + 1);
      assert calls[i] == front[i] && NoneGiven(calls, mac, f, i + 1);
    }
  }

  // Of a later contact the last one is it, or remains what it was.
  lemma LastStep(front: seq<Call>, c: Call, mac: string, kind: Kind, i: nat)
    requires IsLast(front, mac, kind, i)
    ensures i < |front| && (front + [c])[i] == front[i]
    ensures IsLast(front + [c], mac, kind, if c.mac == mac && Sets(c, kind) then |front| else i)
  { }

  lemma UpsertFills(t: Table, c: Call, f: Field)
    ensures Held(Upsert(t, c)[c.mac], f) == if c.mac in t then Coalesce(Given(c, f), Held(t[c.mac], f)) else Given(c, f)
  { }

  lemma {:induction false} AlwaysSays(calls: seq<Call>, mac: string)
    ensures mac in AlwaysRun(map[], calls) <==> exists c | c in calls :: c.mac == mac
    ensures mac in AlwaysRun(map[], calls) ==> RowSays(calls, mac, AlwaysRun(map[], calls)[mac])
  {
    hide RowSays;
    if calls != [] {
      var front, c := calls[..|calls| - 1], calls[|calls| - 1];
      AlwaysSays(front, mac);
      assert calls == front + [c];
      if mac in AlwaysRun(map[], front) {
        SaysStep(front, c, mac, AlwaysRun(map[], front));
      } else if c.mac == mac {
        SaysFirst(front, c, AlwaysRun(map[], front));
      }
    }
  }

  lemma SaysStep(front: seq<Call>, c: Call, mac: string, t: Table)
    requires mac in t && RowSays(front, mac, t[mac])
    ensures RowSays(front + [c], mac, Upsert(t, c)[mac])
  {
    hide LastGiven, Given, Held, IsFirst, IsLast;
    var r, calls := t[mac], front + [c];
    forall f ensures LastGiven(calls, mac, f, Held(Upsert(t, c)[mac], f)) {
      GivenStep(front, c, mac, f, Held(r, f));
      UpsertFills(t, c, f);
    }
    assert calls[|front|] == c;
    forall i: nat | IsFirst(front, mac, i) ensures i < |front| && IsFirst(calls, mac, i) && calls[i] == front[i] {
      FirstStep(front, c, mac, i);
    }
    forall i: nat, kind | IsLast(front, mac, kind, i)
      ensures i < |front| && calls[i] == front[i]
      ensures IsLast(calls, mac, kind, if c.mac == mac && Sets(c, kind) then |front| else i)
    {
      LastStep(front, c, mac, kind, i);
    }
  }

  lemma FirstStep(front: seq<Call>, c: Call, mac: string, i: nat)
    requires IsFirst(front, mac, i)
    ensures i < |front| && IsFirst(front + [c], mac, i) && (front + [c])[i] == front[i]
  { }

  lemma SaysFirst(front: seq<Call>, c: Call, t: Table)
    requires c.mac !in t && forall d | d in front :: d.mac != c.mac
    ensures RowSays(front + [c], c.mac, Upsert(t, c)[c.mac])
  {
    hide Given, Held;
    var r, calls, n := Upsert(t, c)[c.mac], front + [c], |front|;
    assert calls[n] == c && forall i | 0 <= i < n :: calls[i] in front;
    forall f ensures LastGiven(calls, c.mac, f, Held(r, f)) {
      UpsertFills(t, c, f);
      assert NoneGiven(calls, c.mac, f, n + 1);
    }
    assert IsFirst(calls, c.mac, n);
    assert IsLast(calls, c.mac, Every, n);
    assert IsLast(calls, c.mac, WithSecret, n);
    assert IsLast(calls, c.mac, WithOptical, n);
  }

  // What the throttled table says of a machine after any contacts by any machines: the same, with an empty
  // authentication for none and a last contact that may be up to 15 seconds old.
  lemma ThrottledSays(calls: seq<Call>, mac: string)
    ensures mac in Run(map[], calls) <==> exists c | c in calls :: c.mac == mac
    ensures mac in Run(map[], calls) ==>
      exists always :: Agree(Run(map[], calls)[mac], always) && RowSays(calls, mac, always)
  {
    hide Agree, RowSays;
    AlwaysSays(calls, mac);
    ThrottleAgrees(map[], calls);
  }
}
