// The boot menu: which of the agent and the local disk a machine is sent to, and the file that says so.
module GrubMenu {
  import opened Wrappers

  const SUPPORTED_SCHEMA := 1

  // The parts of the server's answer that the menu reads. An id that is missing or empty is None.
  datatype Schema = Absent | Number(n: int) | NotANumber
  datatype Task = NoTask | EmptyTask | Task(id: Option<string>)
  datatype Session = NoSession | Session(id: Option<string>, state: Option<string>)
  datatype Answer =
    | NotAnObject
    | Answer(schema: Schema, known: bool, role: Option<string>, task: Task, session: Session, exhausted: bool)

  datatype Action = LOCAL | AGENT

  datatype Decision = Decision(
    action: Action, code: string, showMenu: bool, offerRecovery: bool, offerAgent: bool, offerLocal: bool,
    gui: bool, recovery: bool)

  function Local(code: string): Decision { Decision(LOCAL, code, false, false, false, true, false, false) }

  predicate HasNormalEntry(role: string) { role == "build" }
  predicate HasGui(role: string) { role == "build" || role == "classroom" || role == "cloner" }

  predicate Joinable(s: Session) { s.Session? && (s.state == Some("open") || s.state == Some("running")) }

  predicate Serviceable(a: Answer) {
    && a.Answer? && a.known
    && (a.schema.Absent? || (a.schema.Number? && a.schema.n <= 1))
  }

  predicate IsCloner(a: Answer) { Serviceable(a) && a.role == Some("cloner") }

  function Decide(a: Answer): Decision {
    if a.NotAnObject? then Local("bad-answer")
    else if a.schema.NotANumber? || (a.schema.Number? && a.schema.n > SUPPORTED_SCHEMA) then Local("bad-schema")
    else if !a.known then Local("unregistered")
    else
      var role := if a.role.Some? then a.role.value else "unknown";
      var diskless := role == "cloner";
      var gui := HasGui(role);
      if !a.exhausted && a.task.Task? then
        Decision(AGENT, "task-assigned", false, false, false, !diskless, gui, false)
      else if !a.exhausted && Joinable(a.session) then
        Decision(AGENT, "session-joinable", false, false, false, !diskless, gui, false)
      else if diskless then
        Decision(AGENT, "cloner-wait", false, false, false, false, gui, false)
      else
        var normal := HasNormalEntry(role);
        var code := if a.exhausted then "boot-loop-guard" else "no-task";
        if gui && !a.exhausted then Decision(AGENT, code, false, false, false, true, gui, !normal)
        else Decision(LOCAL, code, true, !normal, normal, true, gui, false)
  }

  // An entry of the file; `fallback` says whether a failed agent falls through to the local disk.
  datatype Entry = LocalEntry | AgentEntry(recovery: bool, gui: bool, fallback: bool)

  // `waits`: the menu stays up for a person. `chain`: the functions that search the local disks are present.
  datatype Menu = Menu(default: Action, waits: bool, entries: seq<Entry>, chain: bool)

  function LocalOnly(): Menu { Menu(LOCAL, false, [LocalEntry], true) }

  function Render(d: Decision): Menu {
    if d.action.AGENT? then
      Menu(AGENT, false,
           [AgentEntry(d.recovery, d.gui, d.offerLocal)] + (if d.offerLocal then [LocalEntry] else []), d.offerLocal)
    else
      Menu(LOCAL, d.showMenu,
           [LocalEntry] + (if d.offerAgent || d.offerRecovery then [AgentEntry(d.offerRecovery, d.gui, true)] else []),
           true)
  }

  function MenuFor(a: Answer): Menu { Render(Decide(a)) }

  // The file starts something it contains, and reaches the local disks only through functions it defines.
  predicate Consistent(m: Menu) {
    && (m.default.LOCAL? ==> LocalEntry in m.entries)
    && (m.default.AGENT? ==> exists e | e in m.entries :: e.AgentEntry?)
    && (LocalEntry in m.entries ==> m.chain)
    && (forall e | e in m.entries :: e.AgentEntry? && e.fallback ==> m.chain)
  }

  predicate NeverTouchesDisks(m: Menu) {
    && m.default.AGENT? && !m.chain
    && (forall e | e in m.entries :: e.AgentEntry? && !e.fallback)
  }

  predicate HasRole(a: Answer, role: string) { a.Answer? && a.role == Some(role) }

  predicate HasWork(a: Answer) {
    && a.Answer? && !a.exhausted
    && (a.task.Task? ||
        (a.session.Session? && (a.session.state == Some("open") || a.session.state == Some("running"))))
  }

  // A menu boots the agent by itself exactly for a machine in service that has work, is a cloner, or has
  // a screen, unless its boots for this work are used up; a cloner is the one that has no way out.
  // Otherwise it starts the local disk, and for a machine in service it stays up and offers the agent.
  lemma MenuMeaning(a: Answer)
    ensures Consistent(MenuFor(a))
    ensures (MenuFor(a).default.AGENT? <==>
      && Serviceable(a)
      && (HasRole(a, "cloner") || HasWork(a) || (!a.exhausted && (HasRole(a, "build") || HasRole(a, "classroom")))))
    ensures NeverTouchesDisks(MenuFor(a)) <==> IsCloner(a)
    ensures !IsCloner(a) ==> LocalEntry in MenuFor(a).entries
    ensures !Serviceable(a) ==> MenuFor(a) == LocalOnly()
    ensures MenuFor(a).waits <==> Serviceable(a) && MenuFor(a).default.LOCAL?
  {
    var m := MenuFor(a);
    if m.default.AGENT? { assert m.entries[0].AgentEntry?; }
    if !IsCloner(a) { assert m.entries[0] == LocalEntry || m.entries[1] == LocalEntry; }
  }

  // The agent entry of a machine in service, of which there is exactly one: a recovery entry exactly for
  // the roles that have no entry of their own and no work, with a screen for the roles that have one, and
  // falling back to the disk for all but the cloner.
  lemma EntryMeaning(a: Answer)
    requires Serviceable(a)
    ensures exists k | 0 <= k < |MenuFor(a).entries| :: MenuFor(a).entries[k].AgentEntry?
    ensures forall j, k | 0 <= j < k < |MenuFor(a).entries| :: MenuFor(a).entries[j] != MenuFor(a).entries[k]
    ensures forall e | e in MenuFor(a).entries && e.AgentEntry? ::
      && (e.recovery <==> !HasWork(a) && !HasRole(a, "build") && !HasRole(a, "cloner"))
      && (e.gui <==> HasRole(a, "build") || HasRole(a, "classroom") || HasRole(a, "cloner"))
      && (e.fallback <==> !HasRole(a, "cloner"))
    ensures |MenuFor(a).entries| == if HasRole(a, "cloner") then 1 else 2
  {
    var m := MenuFor(a);
    assert m.entries[if m.default.AGENT? then 0 else 1].AgentEntry?;
  }
}
