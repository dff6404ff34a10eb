// The guard against boot loops: how often the server has sent a machine to the agent for one piece of
// work. Requests of all machines run side by side; each counts with one statement and reads the count
// back with another.
module BootGuard {
  import opened GrubMenu
  import opened Wrappers

  const ATTEMPT_LIMIT := 3

  datatype Attempt = Attempt(context: string, attempts: nat)

  // `counts` is false for a request that is no boot of this machine: off the deployment network, from the
  // server itself or its own probe, or with an unusable address.
  datatype Request = Request(mac: string, answer: Answer, counts: bool)

  datatype Phase = Counted | Served(menu: Menu)

  datatype State = State(table: map<string, Attempt>, phases: map<nat, Phase>)

  datatype Step =
    | Ask(k: nat)          // the request arrives and, if it counts, is counted
    | AskFails(k: nat)     // building the answer or counting raised
    | Reply(k: nat)        // the count is read back and the menu chosen
    | ReplyFails(k: nat)   // reading back or the journal line raised
    | Forget(mac: string)  // housekeeping drops the row

  function ContextOf(a: Answer): Option<string> {
    if !a.Answer? then None
    else if a.task.Task? && a.task.id.Some? then Some("task:" + a.task.id.value)
    else if a.session.Session? && a.session.id.Some? then Some("session:" + a.session.id.value)
    else None
  }

  function Exhausted(a: Answer): Answer
    requires a.Answer?
  {
    a.(exhausted := true)
  }

  predicate IsCounted(r: Request) {
    r.counts && Decide(r.answer).action == AGENT && ContextOf(r.answer).Some?
  }

  function Record(table: map<string, Attempt>, mac: string, context: string): map<string, Attempt> {
    table[mac := if mac in table && table[mac].context == context
                 then Attempt(context, table[mac].attempts + 1) else Attempt(context, 1)]
  }

  function ReadBack(table: map<string, Attempt>, mac: string, context: string): Option<nat> {
    if mac in table && table[mac].context == context then Some(table[mac].attempts) else None
  }

  function Choose(r: Request, attempts: Option<nat>): Menu
    requires r.answer.Answer?
  {
    if attempts.Some? && attempts.value <= ATTEMPT_LIMIT then MenuFor(r.answer) else MenuFor(Exhausted(r.answer))
  }

  function Next(s: State, step: Step, reqs: nat -> Request): State {
    match step
    case Ask(k) =>
      var r := reqs(k);
      if k in s.phases then s
      else if !IsCounted(r) then s.(phases := s.phases[k := Served(MenuFor(r.answer))])
      else State(Record(s.table, r.mac, ContextOf(r.answer).value), s.phases[k := Counted])
    case AskFails(k) => if k in s.phases then s else s.(phases := s.phases[k := Served(LocalOnly())])
    case Reply(k) =>
      if k !in s.phases || !s.phases[k].Counted? || !IsCounted(reqs(k)) then s
      else s.(phases := s.phases[k :=
        Served(Choose(reqs(k), ReadBack(s.table, reqs(k).mac, ContextOf(reqs(k).answer).value)))])
    case ReplyFails(k) =>
      if k !in s.phases || !s.phases[k].Counted? then s else s.(phases := s.phases[k := Served(LocalOnly())])
    case Forget(mac) => s.(table := s.table - {mac})
  }

  function Run(s: State, steps: seq<Step>, reqs: nat -> Request): State {
    if steps == [] then s else Next(Run(s, steps[..|steps| - 1], reqs), steps[|steps| - 1], reqs)
  }

  // The counted requests of one machine, in the order they were counted.
  predicate CountsNow(s: State, step: Step, reqs: nat -> Request, mac: string) {
    step.Ask? && step.k !in s.phases && IsCounted(reqs(step.k)) && reqs(step.k).mac == mac
  }

  function Boots(s: State, steps: seq<Step>, reqs: nat -> Request, mac: string): seq<nat> {
    if steps == [] then []
    else
      var front, step := steps[..|steps| - 1], steps[|steps| - 1];
      Boots(s, front, reqs, mac) + if CountsNow(Run(s, front, reqs), step, reqs, mac) then [step.k] else []
  }

  // Throughout the steps the machine is counted for one piece of work only, and its row is kept.
  predicate Unbroken(steps: seq<Step>, reqs: nat -> Request, mac: string, context: string) {
    forall j | 0 <= j < |steps| ::
      && steps[j] != Forget(mac)
      && (steps[j].Ask? && IsCounted(reqs(steps[j].k)) && reqs(steps[j].k).mac == mac ==>
            ContextOf(reqs(steps[j].k).answer) == Some(context))
  }

  // Boots already counted for this work when the stretch begins.
  function Before(s: State, mac: string, context: string): nat {
    if mac in s.table && s.table[mac].context == context then s.table[mac].attempts else 0
  }

  predicate SentToAgent(s: State, k: nat) {
    k in s.phases && s.phases[k].Served? && s.phases[k].menu.default == AGENT
  }

  // A counted machine with a disk, its boots used up, is sent to that disk.
  lemma ExhaustedIsLocal(r: Request)
    requires IsCounted(r) && !IsCloner(r.answer)
    ensures r.answer.Answer? && MenuFor(Exhausted(r.answer)).default == LOCAL
    ensures LocalEntry in MenuFor(Exhausted(r.answer)).entries
  {
    MenuMeaning(Exhausted(r.answer));
  }

  // The machine's count, and who may still be sent to the agent.
  ghost predicate Budget(s: State, boots: seq<nat>, mac: string, context: string, before: nat) {
    && (boots != [] ==> mac in s.table && s.table[mac] == Attempt(context, before + |boots|))
    && (boots == [] ==> before == Before(s, mac, context))
    && (forall j | 0 <= j < |boots| :: boots[j] in s.phases)
    && (forall j | 0 <= j < |boots| && before + j >= 3 :: !SentToAgent(s, boots[j]))
    && (forall i, j | 0 <= i < j < |boots| :: boots[i] != boots[j])
  }

  // The machine the stretch is about is no cloner.
  ghost predicate HasDisk(reqs: nat -> Request, mac: string) {
    forall k: nat :: reqs(k).mac == mac ==> !IsCloner(reqs(k).answer)
  }

  lemma StepKeepsBudget(s: State, step: Step, reqs: nat -> Request, boots: seq<nat>,
                        mac: string, context: string, before: nat)
    requires Budget(s, boots, mac, context, before) && Unbroken([step], reqs, mac, context)
    requires forall j | 0 <= j < |boots| :: BootOf(reqs, boots[j], mac)
    requires HasDisk(reqs, mac)
    ensures var more := if CountsNow(s, step, reqs, mac) then [step.k] else [];
      Budget(Next(s, step, reqs), boots + more, mac, context, before)
  {
    hide Decide, Render, ContextOf, Consistent, NeverTouchesDisks;
    assert [step][0] == step;
    if step.Reply? && exists j :: 0 <= j < |boots| && boots[j] == step.k {
      assert BootOf(reqs, step.k, mac);
      ExhaustedIsLocal(reqs(step.k));
    }
  }

  predicate BootOf(reqs: nat -> Request, k: nat, mac: string) { IsCounted(reqs(k)) && reqs(k).mac == mac }

  lemma {:induction false} BudgetKept(s: State, steps: seq<Step>, reqs: nat -> Request, mac: string, context: string)
    requires Unbroken(steps, reqs, mac, context) && HasDisk(reqs, mac)
    ensures var boots := Boots(s, steps, reqs, mac);
      && Budget(Run(s, steps, reqs), boots, mac, context, Before(s, mac, context))
      && forall j | 0 <= j < |boots| :: BootOf(reqs, boots[j], mac)
  {
    hide Next, Budget, HasDisk, Before;
    if steps == [] {
      NoBoots(s, mac, context);
    } else {
      var front, step := steps[..|steps| - 1], steps[|steps| - 1];
      BudgetKept(s, front, reqs, mac, context);
      var before := Before(s, mac, context);
      StepKeepsBudget(Run(s, front, reqs), step, reqs, Boots(s, front, reqs, mac), mac, context, before);
    }
  }

  lemma NoBoots(s: State, mac: string, context: string)
    ensures Budget(s, [], mac, context, Before(s, mac, context))
  { }

  // However requests overlap: in an unbroken stretch of one piece of work, with the boots counted before
  // it, only the first three counted boots can be sent to the agent. Every later one that is answered
  // gets the local disk.
  lemma BootLoopBound(s: State, steps: seq<Step>, reqs: nat -> Request, mac: string, context: string, j: nat)
    requires Unbroken(steps, reqs, mac, context) && HasDisk(reqs, mac)
    requires j < |Boots(s, steps, reqs, mac)| && Before(s, mac, context) + j >= 3
    ensures var k, e := Boots(s, steps, reqs, mac)[j], Run(s, steps, reqs);
      k in e.phases && (e.phases[k].Served? ==> e.phases[k].menu.default == LOCAL)
  {
    hide Run, Boots, Unbroken, HasDisk;
    BudgetKept(s, steps, reqs, mac, context);
  }

  // A boot whose count is read back before another is counted gets exactly what the budget allows, and
  // another piece of work starts a budget of its own.
  lemma SerialBoot(s: State, k: nat, reqs: nat -> Request)
    requires k !in s.phases && IsCounted(reqs(k)) && !IsCloner(reqs(k).answer)
    ensures var r := reqs(k); var context := ContextOf(r.answer).value;
      var e := Next(Next(s, Ask(k), reqs), Reply(k), reqs);
      && (SentToAgent(e, k) <==> Before(s, r.mac, context) < 3)
      && (SentToAgent(e, k) ==> e.phases[k].menu == MenuFor(r.answer))
      && (r.mac in s.table && s.table[r.mac].context != context ==> SentToAgent(e, k))
      && Before(e, r.mac, context) == Before(s, r.mac, context) + 1
  {
    ExhaustedIsLocal(reqs(k));
  }

  // A count that raised, or that cannot be read back, sends a machine with a disk to it.
  lemma FailedCountIsLocal(s: State, k: nat, reqs: nat -> Request)
    requires k in s.phases && s.phases[k].Counted? && IsCounted(reqs(k)) && !IsCloner(reqs(k).answer)
    ensures !SentToAgent(Next(s, ReplyFails(k), reqs), k)
    ensures ReadBack(s.table, reqs(k).mac, ContextOf(reqs(k).answer).value).None? ==>
      !SentToAgent(Next(s, Reply(k), reqs), k)
  {
    ExhaustedIsLocal(reqs(k));
  }

  // Two requests are for the same work exactly when they name the same task, or the same session.
  lemma ContextNamesWork(a: Answer, b: Answer)
    requires ContextOf(a).Some? && ContextOf(b).Some?
    ensures ContextOf(a) == ContextOf(b) <==>
      if a.task.Task? && a.task.id.Some? then b.task == a.task
      else !(b.task.Task? && b.task.id.Some?) && b.session.id == a.session.id
  {
    var x, y := ContextOf(a).value, ContextOf(b).value;
    assert "task:"[0] == 't' && "session:"[0] == 's';
    if x == y && x[0] == 't' { assert x[5..] == a.task.id.value && y[5..] == b.task.id.value; }
    if x == y && x[0] == 's' { assert x[8..] == a.session.id.value && y[8..] == b.session.id.value; }
  }

  predicate Fails(s: State, step: Step, k: nat) {
    || (step == AskFails(k) && k !in s.phases)
    || (step == ReplyFails(k) && k in s.phases && s.phases[k].Counted?)
  }

  predicate Failed(s: State, steps: seq<Step>, reqs: nat -> Request, k: nat) {
    steps != [] &&
    (Failed(s, steps[..|steps| - 1], reqs, k) || Fails(Run(s, steps[..|steps| - 1], reqs), steps[|steps| - 1], k))
  }

  lemma ExhaustedCloner(a: Answer)
    requires IsCloner(a)
    ensures a.Answer? && NeverTouchesDisks(MenuFor(Exhausted(a)))
  {
    MenuMeaning(Exhausted(a));
  }

  lemma LocalTouchesDisks()
    ensures !NeverTouchesDisks(LocalOnly())
  { }

  // A cloner has no disk to fall back to. Its menu leaves its drives alone, in and out of work and with
  // or without boots left, if and only if answering it did not raise: what is served then is the file
  // for the local disk.
  lemma {:induction false} ClonerKeepsOffDisks(s: State, steps: seq<Step>, reqs: nat -> Request, k: nat)
    requires k !in s.phases && IsCloner(reqs(k).answer)
    ensures var e := Run(s, steps, reqs);
      && (Failed(s, steps, reqs, k) ==> k in e.phases && e.phases[k].Served?)
      && (k in e.phases && e.phases[k].Served? ==>
            (NeverTouchesDisks(e.phases[k].menu) <==> !Failed(s, steps, reqs, k)))
  {
    if steps != [] {
      var front := steps[..|steps| - 1];
      ClonerKeepsOffDisks(s, front, reqs, k);
      hide Run, Failed, IsCloner, NeverTouchesDisks, Decide, Render, ContextOf, Consistent, Serviceable;
      LocalTouchesDisks();
      MenuMeaning(reqs(k).answer);
      ExhaustedCloner(reqs(k).answer);
    }
  }

  // A cloner is counted like any other machine when it has work to name.
  lemma ClonersAreCounted(r: Request)
    requires IsCloner(r.answer)
    ensures IsCounted(r) <==> r.counts && ContextOf(r.answer).Some?
  {
    MenuMeaning(r.answer);
  }

  predicate NamesWork(a: Answer) {
    a.Answer? && ((a.task.Task? && a.task.id.Some?) || (a.session.Session? && a.session.id.Some?))
  }

  // A request is counted exactly when it is a boot of its machine, its menu would start the agent, and it
  // names its work; any other gets its menu at once, and no step touches the row of another machine.
  lemma CountedExactly(s: State, k: nat, reqs: nat -> Request)
    requires k !in s.phases
    ensures var r, e := reqs(k), Next(s, Ask(k), reqs);
      && (forall mac | mac != r.mac ::
            (mac in e.table <==> mac in s.table) && (mac in s.table ==> e.table[mac] == s.table[mac]))
      && (if r.counts && MenuFor(r.answer).default.AGENT? && NamesWork(r.answer)
          then e.phases == s.phases[k := Counted] && r.mac in e.table && e.table[r.mac].attempts ==
            Before(s, r.mac, e.table[r.mac].context) + 1
          else e == s.(phases := s.phases[k := Served(MenuFor(r.answer))]))
  {
    hide Decide;
  }

  // Once housekeeping has dropped the row of a machine every piece of its work has its full budget again.
  lemma ForgetStartsAnew(s: State, mac: string, context: string, reqs: nat -> Request)
    ensures var e := Next(s, Forget(mac), reqs);
      && Before(e, mac, context) == 0 && e.phases == s.phases
      && forall other | other != mac :: Before(e, other, context) == Before(s, other, context)
  { }
}
