// The scheduled reboot of the server: the next time of day that matches the settings, and the tick that
// reboots at it, puts it off while the server is busy, or gives it up.
module AutoReboot {
  import opened Wrappers

  // Wall-clock times are counted in microseconds from the midnight that begins some Monday.
  const MINUTE := 60_000_000
  const DAY := 1440 * MINUTE
  const RETRY := 10 * MINUTE
  const GIVE_UP := 120 * MINUTE

  datatype Time = Time(hour: int, minute: int)
  datatype Plan = Off | Daily(at: Time) | Weekly(at: Time, weekday: nat)   // Monday is 0

  // What datetime.replace takes; it raises for anything else.
  predicate ValidTime(t: Time) { 0 <= t.hour <= 23 && 0 <= t.minute <= 59 }

  predicate ValidPlan(p: Plan) {
    match p
    case Off => true
    case Daily(at) => ValidTime(at)
    case Weekly(at, weekday) => ValidTime(at) && weekday <= 6
  }

  // --- the stored settings ---

  predicate AllDigits(text: string) { forall i | 0 <= i < |text| :: '0' <= text[i] <= '9' }

  function Digits(text: string): (n: int)
    requires AllDigits(text)
    ensures n >= 0
  {
    if text == [] then 0 else 10 * Digits(text[..|text| - 1]) + (text[|text| - 1] as int - '0' as int)
  }

  function Strip(text: string): string {
    if text != [] && text[0] == ' ' then Strip(text[1..])
    else if text != [] && text[|text| - 1] == ' ' then Strip(text[..|text| - 1])
    else text
  }

  // Python's int(): blanks around it and one sign are allowed.
  function Int(text: string): Option<int> {
    var s := Strip(text);
    if s != "" && AllDigits(s) then Some(Digits(s))
    else if |s| > 1 && s[0] == '-' && AllDigits(s[1..]) then Some(-Digits(s[1..]))
    else if |s| > 1 && s[0] == '+' && AllDigits(s[1..]) then Some(Digits(s[1..]))
    else None
  }

  function Dec(n: nat): string { if n < 10 then ['0' + n as char] else Dec(n / 10) + ['0' + (n % 10) as char] }

  // The format specification 02d: the sign counts towards the width.
  function Shown(n: int): string {
    if n < 0 then "-" + Dec(-n) else if n < 10 then "0" + Dec(n) else Dec(n)
  }

  function ParseTime(text: string): Option<Time> {
    if |text| != 5 || text[2] != ':' || ':' in text[..2] || ':' in text[3..] then None
    else
      var hour, minute := Int(text[..2]), Int(text[3..]);
      if hour.None? || minute.None? then None
      else if Shown(hour.value) + ":" + Shown(minute.value) != text || hour.value > 23 || minute.value > 59 then None
      else Some(Time(hour.value, minute.value))
  }

  lemma DecLength(n: nat)
    ensures |Dec(n)| >= 1 && (|Dec(n)| == 1 <==> n < 10) && (|Dec(n)| == 2 <==> 10 <= n < 100)
    ensures AllDigits(Dec(n))
  { }

  lemma ShownLength(n: int)
    ensures |Shown(n)| >= 2 && (|Shown(n)| == 2 <==> -10 < n < 100)
    ensures ':' !in Shown(n) && ('-' in Shown(n) <==> n < 0)
  {
    DecLength(if n < 0 then -n else n);
  }

  lemma {:induction false} DigitsOfDec(n: nat)
    requires n < 100
    ensures AllDigits(Dec(n)) && Digits(Dec(n)) == n
  {
    DecLength(n);
    if n >= 10 {
      DigitsOfDec(n / 10);
      assert Dec(n)[..|Dec(n)| - 1] == Dec(n / 10);
    } else {
      assert Dec(n)[..0] == [];
    }
  }

  lemma IntOfShown(n: int)
    requires -10 < n < 100
    ensures Int(Shown(n)) == Some(n)
  {
    DigitsOfDec(if n < 0 then -n else n);
    if n < 0 {
      assert Shown(n)[1..] == Dec(-n);
    } else if n < 10 {
      var s := Shown(n);
      assert s == ['0', '0' + n as char] && s[..1] == ['0'] && ['0'][..0] == [];
      assert Digits(s) == 10 * Digits(s[..1]) + n && Digits(s[..1]) == 10 * Digits([]);
    }
  }

  // Exactly what is accepted: the two-digit form of an hour up to 23 and a minute up to 59, and besides it
  // a minus sign and a digit in the place of either.
  lemma ParseTimeIff(text: string, t: Time)
    ensures ParseTime(text) == Some(t) <==>
      -9 <= t.hour <= 23 && -9 <= t.minute <= 59 && text == Shown(t.hour) + ":" + Shown(t.minute)
  {
    hide Int, Shown;
    ShownLength(t.hour);
    ShownLength(t.minute);
    if -9 <= t.hour <= 23 && -9 <= t.minute <= 59 && text == Shown(t.hour) + ":" + Shown(t.minute) {
      assert text[..2] == Shown(t.hour) && text[3..] == Shown(t.minute);
      IntOfShown(t.hour);
      IntOfShown(t.minute);
    }
  }

  lemma MinusIsAccepted()
    ensures ParseTime("-1:05") == Some(Time(-1, 5)) && ParseTime("05:-1") == Some(Time(5, -1))
  {
    ParseTimeIff("-1:05", Time(-1, 5));
    ParseTimeIff("05:-1", Time(5, -1));
  }

  // An empty text counts as none; what is not accepted falls back to its default. Of weekdays exactly the
  // one-digit texts up to 6 are accepted.
  function Settings(mode: Option<string>, at: Option<string>, day: Option<string>): Plan {
    var time := if at.Some? && ParseTime(at.value).Some? then ParseTime(at.value).value else Time(3, 0);
    var weekday: nat :=
      if day.Some? && |day.value| == 1 && '0' <= day.value[0] <= '6' then day.value[0] as nat - '0' as nat else 0;
    if mode == Some("daily") then Daily(time)
    else if mode == Some("weekly") then Weekly(time, weekday)
    else Off
  }

  // Stored settings make a plan that works if and only if the accepted time has no minus sign.
  lemma SettingsUsableIff(mode: Option<string>, at: Option<string>, day: Option<string>)
    ensures var p := Settings(mode, at, day);
      ValidPlan(p) <==> p.Off? || !(at.Some? && ParseTime(at.value).Some? && '-' in at.value)
  {
    hide ParseTime, Shown;
    if at.Some? && ParseTime(at.value).Some? {
      var t := ParseTime(at.value).value;
      ParseTimeIff(at.value, t);
      ShownLength(t.hour);
      ShownLength(t.minute);
      assert '-' in at.value <==> '-' in Shown(t.hour) || '-' in Shown(t.minute);
    }
  }

  predicate Matches(p: Plan, t: int) {
    match p
    case Off => false
    case Daily(at) => t % DAY == (60 * at.hour + at.minute) * MINUTE
    case Weekly(at, weekday) => t % DAY == (60 * at.hour + at.minute) * MINUTE && t / DAY % 7 == weekday
  }

  function NextOccurrence(p: Plan, now: int): int
    requires ValidPlan(p) && !p.Off?
  {
    var today := now / DAY * DAY + (60 * p.at.hour + p.at.minute) * MINUTE;
    match p
    case Daily(_) => if today > now then today else today + DAY
    case Weekly(_, weekday) =>
      var candidate := today + (weekday - now / DAY % 7) % 7 * DAY;
      if candidate > now then candidate else candidate + 7 * DAY
  }

  lemma DayAndTime(day: int, time: int)
    requires 0 <= time < DAY
    ensures (day * DAY + time) / DAY == day && (day * DAY + time) % DAY == time
  { }

  function TimeOf(p: Plan): int
    requires !p.Off?
  {
    (60 * p.at.hour + p.at.minute) * MINUTE
  }

  // Days until the plan's next day of the week, today included.
  function Ahead(p: Plan, day: int): int
    requires !p.Off?
  {
    if p.Weekly? then (p.weekday - day % 7) % 7 else 0
  }

  function Period(p: Plan): int { if p.Weekly? then 7 else 1 }

  lemma MatchesIff(p: Plan, day: int, time: int)
    requires ValidPlan(p) && !p.Off? && 0 <= time < DAY
    ensures Matches(p, day * DAY + time) <==> time == TimeOf(p) && Ahead(p, day) == 0
  {
    DayAndTime(day, time);
  }

  lemma NextByDays(p: Plan, now: int)
    requires ValidPlan(p) && !p.Off?
    ensures 0 <= TimeOf(p) < DAY
    ensures var day := now / DAY; var first := day + Ahead(p, day);
      NextOccurrence(p, now) ==
      (if first * DAY + TimeOf(p) > now then first else first + Period(p)) * DAY + TimeOf(p)
  { }

  // From one matching day the next is a period away.
  lemma MatchingDays(p: Plan, from: int, day: int)
    requires ValidPlan(p) && !p.Off?
    ensures Ahead(p, from + Ahead(p, from)) == 0 && Ahead(p, from + Ahead(p, from) + Period(p)) == 0
    ensures Ahead(p, day) == 0 && day >= from ==>
      day == from + Ahead(p, from) || day >= from + Ahead(p, from) + Period(p)
  {
    if p.Weekly? {
      WeekdayAhead(from, p.weekday);
      WeekdayOnlyEverySeven(from + Ahead(p, from), day, p.weekday);
      if Ahead(p, day) == 0 { SameWeekday(p.weekday, day % 7); }
    }
  }

  lemma SameWeekday(w: nat, r: nat)
    requires w <= 6 && r <= 6
    ensures (w - r) % 7 == 0 <==> w == r
  { }

  lemma WeekdayAhead(day: int, w: nat)
    requires w <= 6
    ensures 0 <= (w - day % 7) % 7 < 7
    ensures (day + (w - day % 7) % 7) % 7 == w && (day + (w - day % 7) % 7 + 7) % 7 == w
  {
    var r := day % 7;
    var x := if w >= r then w - r else w - r + 7;
    assert (w - r) % 7 == x;
    assert day + x == 7 * (day / 7) + (if w >= r then w else w + 7);
  }

  lemma WeekdayOnlyEverySeven(a: int, b: int, w: nat)
    requires a % 7 == w
    ensures b % 7 == w && b > a - 7 ==> b == a || b >= a + 7
  {
    assert a == 7 * (a / 7) + a % 7 && b == 7 * (b / 7) + b % 7;
  }

  // The least matching time strictly after now.
  lemma NextIsLeast(p: Plan, now: int, t: int)
    requires ValidPlan(p) && !p.Off?
    ensures NextOccurrence(p, now) > now && Matches(p, NextOccurrence(p, now))
    ensures Matches(p, t) && t > now ==> NextOccurrence(p, now) <= t
  {
    hide NextOccurrence, TimeOf, Ahead, Matches;
    var day := now / DAY;
    var first := day + Ahead(p, day);
    NextByDays(p, now);
    MatchingDays(p, day, t / DAY);
    MatchesIff(p, first, TimeOf(p));
    MatchesIff(p, first + Period(p), TimeOf(p));
    MatchesIff(p, t / DAY, t % DAY);
    assert now < (day + 1) * DAY;
    assert first >= day by { assert Ahead(p, day) >= 0 by { AheadIsNat(p, day); } }
    assert t == t / DAY * DAY + t % DAY;
  }

  lemma AheadIsNat(p: Plan, day: int)
    requires !p.Off?
    ensures Ahead(p, day) >= 0
  { }

  datatype Busy = Free | InUse | Unknown   // Unknown: the check itself raised

  // Where the tick raises, if it gets there.
  datatype Fault =
    | NoFault
    | SettingsFault   // reading the settings
    | ReportFault     // the journal line about a check that raised
    | JournalFault    // the journal line of the decision to skip or defer
    | VerdictFault    // between the decision to reboot and the reboot
    | RebootFault     // the reboot command
    | LateFault       // the marker or the journal line after the reboot command

  datatype Input = Input(now: int, plan: Plan, busy: Busy, fault: Fault)

  datatype Outcome = Nothing | Deferred | Skipped | Done | Raised(rebooted: bool)

  datatype State = State(due: Option<int>, firstDeferred: Option<int>, retryAt: Option<int>)

  function ToMinute(now: int): int { now - now % MINUTE }

  // The occurrence a tick works on: the current minute counts when none is set.
  function Due(s: State, i: Input): int
    requires !i.plan.Off? && (ValidPlan(i.plan) || s.due.Some?)
  {
    if s.due.Some? then s.due.value else NextOccurrence(i.plan, ToMinute(i.now) - MINUTE)
  }

  function Ticked(s: State, i: Input): (State, Outcome) {
    var current := ToMinute(i.now);
    if i.fault.SettingsFault? then (s, Raised(false))
    else if i.plan.Off? then (State(None, None, None), Nothing)
    else if !ValidPlan(i.plan) && s.due.None? then (s, Raised(false))
    else
      var due := Due(s, i);
      var s := s.(due := Some(due));
      if current < due || (s.retryAt.Some? && current < s.retryAt.value) then (s, Nothing)
      else if i.busy.Unknown? && i.fault.ReportFault? then (s, Raised(false))
      else if !i.busy.Free? then
        var first := if s.firstDeferred.Some? then s.firstDeferred.value else current;
        var s := s.(firstDeferred := Some(first));
        if i.fault.JournalFault? then (s, Raised(false))
        else if current - first >= GIVE_UP then
          if !ValidPlan(i.plan) then (s, Raised(false))
          else (State(Some(NextOccurrence(i.plan, current)), None, None), Skipped)
        else (s.(retryAt := Some(current + RETRY)), Deferred)
      else if i.fault.VerdictFault? || i.fault.RebootFault? then (s, Raised(false))
      else if i.fault.LateFault? || !ValidPlan(i.plan) then (s, Raised(true))
      else (State(Some(NextOccurrence(i.plan, current)), None, None), Done)
  }

  class Scheduler {
    var due: Option<int>
    var firstDeferred: Option<int>
    var retryAt: Option<int>

    function Abstract(): State reads this { State(due, firstDeferred, retryAt) }

    constructor ()
      ensures Abstract() == State(None, None, None)
    {
      due, firstDeferred, retryAt := None, None, None;
    }

    method Tick(i: Input) returns (outcome: Outcome)
      modifies this
      ensures (Abstract(), outcome) == Ticked(old(Abstract()), i)
    {
      if i.fault.SettingsFault? { return Raised(false); }
      var current := ToMinute(i.now);
      if i.plan.Off? {
        due, firstDeferred, retryAt := None, None, None;
        return Nothing;
      }
      if due.None? {
        if !ValidPlan(i.plan) { return Raised(false); }
        due := Some(NextOccurrence(i.plan, current - MINUTE));
      }
      if current < due.value || (retryAt.Some? && current < retryAt.value) { return Nothing; }
      if i.busy.Unknown? && i.fault.ReportFault? { return Raised(false); }
      if !i.busy.Free? {
        if firstDeferred.None? { firstDeferred := Some(current); }
        if i.fault.JournalFault? { return Raised(false); }
        if current - firstDeferred.value >= GIVE_UP {
          if !ValidPlan(i.plan) { return Raised(false); }
          due := Some(NextOccurrence(i.plan, current));
          firstDeferred, retryAt := None, None;
          return Skipped;
        }
        retryAt := Some(current + RETRY);
        return Deferred;
      }
      if i.fault.VerdictFault? || i.fault.RebootFault? { return Raised(false); }
      if i.fault.LateFault? || !ValidPlan(i.plan) { return Raised(true); }
      due := Some(NextOccurrence(i.plan, current));
      firstDeferred, retryAt := None, None;
      outcome := Done;
    }
  }

  // Runs with one plan. The state before tick k, and what tick k did.
  predicate Fixed(p: Plan, inputs: seq<Input>) {
    ValidPlan(p) && !p.Off? && forall k | 0 <= k < |inputs| :: inputs[k].plan == p
  }

  function After(inputs: seq<Input>): State {
    if inputs == [] then State(None, None, None) else Ticked(After(inputs[..|inputs| - 1]), inputs[|inputs| - 1]).0
  }

  function OutcomeOf(inputs: seq<Input>, k: nat): Outcome
    requires k < |inputs|
  {
    Ticked(After(inputs[..k]), inputs[k]).1
  }

  // The same settings throughout, usable or not.
  predicate SameSettings(p: Plan, inputs: seq<Input>) { !p.Off? && forall k | 0 <= k < |inputs| :: inputs[k].plan == p }

  function DueAt(p: Plan, inputs: seq<Input>, k: nat): int
    requires Fixed(p, inputs) && k < |inputs|
  {
    Due(After(inputs[..k]), inputs[k])
  }

  predicate Ends(o: Outcome) { o.Done? || o.Skipped? }
  predicate Reboots(o: Outcome) { o.Done? || o == Raised(true) }

  // The due time after a tick: the one it worked on, or a later one if the tick ended it.
  lemma TickMovesDue(p: Plan, s: State, i: Input)
    requires ValidPlan(p) && !p.Off? && i.plan == p
    ensures var (t, o) := Ticked(s, i);
      && (o.Nothing? || o.Deferred? ==> t.due == Some(Due(s, i)))
      && (o.Raised? ==> t.due == s.due || t.due == Some(Due(s, i)))
      && (Ends(o) || o == Raised(true) ==> Due(s, i) <= ToMinute(i.now))
      && (Ends(o) ==> t.due == Some(NextOccurrence(p, ToMinute(i.now))) && t.due.value > ToMinute(i.now))
      && (Reboots(o) ==> i.busy.Free?)
      && (s.due.Some? ==> t.due.Some?)
  {
    NextIsLeast(p, ToMinute(i.now), 0);
  }

  // Whenever the server is rebooted or an occurrence given up, that occurrence is a time the plan names,
  // it has come, and for a reboot the server is not busy.
  lemma {:induction false} DueIsPlanned(p: Plan, inputs: seq<Input>)
    requires Fixed(p, inputs)
    ensures After(inputs).due.Some? ==> Matches(p, After(inputs).due.value)
  {
    if inputs != [] {
      var front, i := inputs[..|inputs| - 1], inputs[|inputs| - 1];
      DueIsPlanned(p, front);
      NextIsLeast(p, ToMinute(i.now), 0);
      NextIsLeast(p, ToMinute(i.now) - MINUTE, 0);
      hide Matches, NextOccurrence;
    }
  }

  lemma ActsOnlyWhenDue(p: Plan, inputs: seq<Input>, k: nat)
    requires Fixed(p, inputs) && k < |inputs|
    ensures Ends(OutcomeOf(inputs, k)) || Reboots(OutcomeOf(inputs, k)) ==>
      Matches(p, DueAt(p, inputs, k)) && DueAt(p, inputs, k) <= inputs[k].now
    ensures Reboots(OutcomeOf(inputs, k)) ==> inputs[k].busy.Free?
  {
    DueIsPlanned(p, inputs[..k]);
    NextIsLeast(p, ToMinute(inputs[k].now) - MINUTE, 0);
    hide Matches, NextOccurrence;
  }

  lemma {:induction false} DueNeverDrops(p: Plan, inputs: seq<Input>, j: nat, k: nat)
    requires Fixed(p, inputs) && j < k <= |inputs| && After(inputs[..j + 1]).due.Some?
    ensures After(inputs[..k]).due.Some? && After(inputs[..j + 1]).due.value <= After(inputs[..k]).due.value
    decreases k
  {
    if j + 1 < k {
      DueNeverDrops(p, inputs, j, k - 1);
      AfterStep(inputs, k - 1);
      TickMovesDue(p, After(inputs[..k - 1]), inputs[k - 1]);
    }
  }

  lemma AfterStep(inputs: seq<Input>, k: nat)
    requires k < |inputs|
    ensures After(inputs[..k + 1]) == Ticked(After(inputs[..k]), inputs[k]).0
  {
    assert inputs[..k + 1][..k] == inputs[..k];
  }

  // Whatever the clock does: an occurrence that was ended is behind every later one, so each ends in at
  // most one reboot recorded as done or one skip.
  lemma DueRises(p: Plan, inputs: seq<Input>, j: nat, k: nat)
    requires Fixed(p, inputs) && j < k < |inputs| && Ends(OutcomeOf(inputs, j))
    ensures DueAt(p, inputs, j) < DueAt(p, inputs, k)
  {
    AfterStep(inputs, j);
    TickMovesDue(p, After(inputs[..j]), inputs[j]);
    DueNeverDrops(p, inputs, j, k);
  }

  // The first busy tick of a deferral that is still going on at the end of the run.
  predicate Deferral(p: Plan, inputs: seq<Input>, from: nat)
    requires Fixed(p, inputs)
  {
    && from < |inputs| && !inputs[from].busy.Free?
    && DueAt(p, inputs, from) <= ToMinute(inputs[from].now)
    && (forall j | from <= j < |inputs| :: !Ends(OutcomeOf(inputs, j)) && DueAt(p, inputs, j) == DueAt(p, inputs, from))
  }

  predicate Since(p: Plan, inputs: seq<Input>, from: nat, due: int, first: int)
    requires Fixed(p, inputs)
  {
    Deferral(p, inputs, from) && ToMinute(inputs[from].now) == first && DueAt(p, inputs, from) == due
  }

  ghost predicate DeferredSince(p: Plan, inputs: seq<Input>)
    requires Fixed(p, inputs)
  {
    var s := After(inputs);
    s.firstDeferred.Some? ==>
      && s.due.Some?
      && exists from: nat :: Since(p, inputs, from, s.due.value, s.firstDeferred.value)
  }

  lemma {:induction false} DeferralsAreRecorded(p: Plan, inputs: seq<Input>)
    requires Fixed(p, inputs)
    ensures DeferredSince(p, inputs)
  {
    hide NextOccurrence;
    if inputs != [] {
      var n := |inputs| - 1;
      var front := inputs[..n];
      DeferralsAreRecorded(p, front);
      AfterStep(inputs, n);
      assert inputs[..n + 1] == inputs;
      TickMovesDue(p, After(front), inputs[n]);
      if After(inputs).firstDeferred.Some? {
        var from: nat := n;
        if After(front).firstDeferred.Some? {
          from :| Since(p, front, from, After(front).due.value, After(front).firstDeferred.value);
        }
        ExtendsDeferral(p, inputs, from);
        assert Since(p, inputs, from, After(inputs).due.value, After(inputs).firstDeferred.value);
      }
    }
  }

  lemma FrontSame(p: Plan, inputs: seq<Input>, n: nat, j: nat)
    requires Fixed(p, inputs) && j < n <= |inputs|
    ensures inputs[..n][j] == inputs[j] && OutcomeOf(inputs[..n], j) == OutcomeOf(inputs, j)
    ensures DueAt(p, inputs[..n], j) == DueAt(p, inputs, j)
  {
    assert inputs[..n][..j] == inputs[..j];
  }

  // What the last tick of a run has to do with a deferral that is open after it.
  lemma OpenAfterTick(p: Plan, inputs: seq<Input>)
    requires Fixed(p, inputs) && inputs != [] && After(inputs).firstDeferred.Some?
    ensures var n := |inputs| - 1; var s := After(inputs[..n]);
      && !Ends(OutcomeOf(inputs, n))
      && (s.firstDeferred.Some? && s.due.Some? ==>
            DueAt(p, inputs, n) == s.due.value && After(inputs).firstDeferred == s.firstDeferred)
      && (s.firstDeferred.None? ==>
            && !inputs[n].busy.Free?
            && DueAt(p, inputs, n) <= ToMinute(inputs[n].now) == After(inputs).firstDeferred.value)
      && ((s.firstDeferred.Some? && s.due.None?) || After(inputs).due == Some(DueAt(p, inputs, n)))
  {
    hide NextOccurrence;
    AfterStep(inputs, |inputs| - 1);
    assert inputs[..|inputs| - 1 + 1] == inputs;
  }

  lemma ExtendsDeferral(p: Plan, inputs: seq<Input>, from: nat)
    requires Fixed(p, inputs) && from < |inputs| && After(inputs).firstDeferred.Some?
    requires (from < |inputs| - 1 ==>
      Deferral(p, inputs[..|inputs| - 1], from) && After(inputs[..|inputs| - 1]).firstDeferred.Some? &&
      After(inputs[..|inputs| - 1]).due == Some(DueAt(p, inputs[..|inputs| - 1], from)))
    requires from == |inputs| - 1 ==> After(inputs[..|inputs| - 1]).firstDeferred.None?
    ensures Deferral(p, inputs, from) && After(inputs).due == Some(DueAt(p, inputs, from))
  {
    hide NextOccurrence, After, OutcomeOf, DueAt;
    var n := |inputs| - 1;
    OpenAfterTick(p, inputs);
    if from < n {
      FrontSame(p, inputs, n, from);
      forall j | from <= j < |inputs|
        ensures !Ends(OutcomeOf(inputs, j)) && DueAt(p, inputs, j) == DueAt(p, inputs, from)
      {
        if j < n {
          FrontSame(p, inputs, n, j);
          assert !Ends(OutcomeOf(inputs[..n], j));
        }
      }
    }
  }

  // A skip comes after a stretch of at least two hours that began with a busy server, at or after the
  // same occurrence, and in which nothing was done about that occurrence.
  lemma SkipFollowsDeferral(p: Plan, inputs: seq<Input>, k: nat)
    requires Fixed(p, inputs) && k < |inputs| && OutcomeOf(inputs, k).Skipped?
    ensures exists from: nat, first: int ::
      Since(p, inputs[..k], from, DueAt(p, inputs, k), first) && ToMinute(inputs[k].now) - first >= 120 * MINUTE
    ensures !inputs[k].busy.Free?
  {
    DeferralsAreRecorded(p, inputs[..k]);
    hide NextOccurrence;
    var s := After(inputs[..k]);
    assert s.firstDeferred.Some?;
    var from: nat :| Since(p, inputs[..k], from, s.due.value, s.firstDeferred.value);
    assert s.due == Some(DueAt(p, inputs, k));
  }

  lemma {:induction false} RetryStays(p: Plan, inputs: seq<Input>, j: nat, k: nat)
    requires Fixed(p, inputs) && j < k <= |inputs| && OutcomeOf(inputs, j).Deferred?
    requires forall n | j < n < k :: !Ends(OutcomeOf(inputs, n))
    ensures After(inputs[..k]).retryAt.Some? && After(inputs[..k]).retryAt.value >= ToMinute(inputs[j].now) + RETRY
    decreases k
  {
    hide NextOccurrence;
    AfterStep(inputs, k - 1);
    if j + 1 < k {
      RetryStays(p, inputs, j, k - 1);
      assert !Ends(OutcomeOf(inputs, k - 1));
    }
  }

  // After a deferral nothing more is done about the occurrence for ten minutes of wall clock.
  lemma RetryWaits(p: Plan, inputs: seq<Input>, j: nat, k: nat)
    requires Fixed(p, inputs) && j < k < |inputs| && OutcomeOf(inputs, j).Deferred?
    requires forall n | j < n < k :: !Ends(OutcomeOf(inputs, n))
    ensures OutcomeOf(inputs, k).Nothing? || OutcomeOf(inputs, k) == Raised(false) ||
            ToMinute(inputs[k].now) >= ToMinute(inputs[j].now) + 10 * MINUTE
  {
    hide NextOccurrence;
    RetryStays(p, inputs, j, k);
  }

  // One occurrence reboots the server once as long as no tick fails after its reboot command; such a tick
  // does repeat the reboot.
  lemma RebootsOncePerDue(p: Plan, inputs: seq<Input>, j: nat, k: nat)
    requires Fixed(p, inputs) && j < k < |inputs|
    requires forall n | 0 <= n < |inputs| :: !inputs[n].fault.LateFault?
    requires Reboots(OutcomeOf(inputs, j)) && Reboots(OutcomeOf(inputs, k))
    ensures DueAt(p, inputs, j) < DueAt(p, inputs, k)
  {
    assert OutcomeOf(inputs, j).Done? by { hide NextOccurrence; }
    DueRises(p, inputs, j, k);
  }

  lemma LateFaultRebootsAgain(p: Plan, inputs: seq<Input>, again: Input)
    requires Fixed(p, inputs) && inputs != [] && OutcomeOf(inputs, |inputs| - 1) == Raised(true)
    requires again == inputs[|inputs| - 1].(fault := NoFault)
    ensures Fixed(p, inputs + [again]) && OutcomeOf(inputs + [again], |inputs|) == Done
    ensures DueAt(p, inputs + [again], |inputs|) == DueAt(p, inputs, |inputs| - 1)
  {
    var n := |inputs| - 1;
    AfterStep(inputs, n);
    assert inputs[..n + 1] == inputs && (inputs + [again])[..n + 1] == inputs;
    hide NextOccurrence;
  }

  // --- runs without faults ---

  // Tick j deferred, and no tick after it and before n ended the occurrence.
  predicate OpenUntil(inputs: seq<Input>, j: nat, n: nat)
    requires n <= |inputs|
  {
    j < n && OutcomeOf(inputs, j).Deferred? && forall i | j < i < n :: !Ends(OutcomeOf(inputs, i))
  }

  predicate FirstOpen(inputs: seq<Input>, j: nat, n: nat)
    requires n <= |inputs|
  {
    j < n && OpenUntil(inputs, j, n) && forall i | 0 <= i < j :: !OpenUntil(inputs, i, n)
  }

  predicate LastOpen(inputs: seq<Input>, j: nat, n: nat)
    requires n <= |inputs|
  {
    j < n && OpenUntil(inputs, j, n) && forall i | j < i < n :: !OpenUntil(inputs, i, n)
  }

  // What the two clocks of a deferral stand for.
  ghost predicate ClocksRight(inputs: seq<Input>, n: nat, s: State)
    requires n <= |inputs|
  {
    && (s.firstDeferred.None? <==> s.retryAt.None?)
    && (s.firstDeferred.None? ==> forall j: nat | j < n :: !OpenUntil(inputs, j, n))
    && (s.firstDeferred.Some? ==>
          exists j: nat :: FirstOpen(inputs, j, n) && s.firstDeferred.value == ToMinute(inputs[j].now))
    && (s.retryAt.Some? ==>
          exists j: nat :: LastOpen(inputs, j, n) && s.retryAt.value == ToMinute(inputs[j].now) + 10 * MINUTE)
  }

  predicate FaultFree(p: Plan, inputs: seq<Input>) {
    Fixed(p, inputs) && forall k | 0 <= k < |inputs| :: inputs[k].fault.NoFault?
  }

  lemma {:induction false} ClocksKept(p: Plan, inputs: seq<Input>, n: nat)
    requires FaultFree(p, inputs) && n <= |inputs|
    ensures ClocksRight(inputs, n, After(inputs[..n]))
  {
    hide NextOccurrence, Ticked, ClocksRight;
    if n > 0 {
      ClocksKept(p, inputs, n - 1);
      AfterStep(inputs, n - 1);
      TickClocks(p, After(inputs[..n - 1]), inputs[n - 1]);
      ClocksStep(inputs, n - 1, After(inputs[..n - 1]), After(inputs[..n]));
    } else {
      assert ClocksRight(inputs, 0, State(None, None, None)) by { NothingOpen(inputs); }
    }
  }

  lemma NothingOpen(inputs: seq<Input>)
    ensures ClocksRight(inputs, 0, State(None, None, None))
  { }

  lemma ClocksStep(inputs: seq<Input>, n: nat, s: State, t: State)
    requires n < |inputs| && ClocksRight(inputs, n, s)
    requires ClocksMove(inputs[n], s, t, OutcomeOf(inputs, n))
    ensures ClocksRight(inputs, n + 1, t)
  {
    hide OutcomeOf, ToMinute;
    forall j: nat
      ensures OpenUntil(inputs, j, n + 1) <==>
        if j == n then OutcomeOf(inputs, j).Deferred?
        else OpenUntil(inputs, j, n) && !Ends(OutcomeOf(inputs, n))
    {
      OpenStep(inputs, j, n);
    }
    hide OpenUntil;
    if OutcomeOf(inputs, n).Deferred? {
      assert LastOpen(inputs, n, n + 1);
      if s.firstDeferred.None? { assert FirstOpen(inputs, n, n + 1); }
    }
  }

  predicate ClocksMove(i: Input, s: State, t: State, o: Outcome) {
    && (o.Nothing? ==> t == s.(due := t.due))
    && (o.Deferred? ==>
          && t.firstDeferred == (if s.firstDeferred.Some? then s.firstDeferred else Some(ToMinute(i.now)))
          && t.retryAt == Some(ToMinute(i.now) + 10 * MINUTE))
    && (Ends(o) ==> t.firstDeferred.None? && t.retryAt.None?)
    && !o.Raised?
  }

  lemma OpenStep(inputs: seq<Input>, j: nat, n: nat)
    requires n < |inputs|
    ensures OpenUntil(inputs, j, n + 1) <==>
      if j == n then OutcomeOf(inputs, n).Deferred? else OpenUntil(inputs, j, n) && !Ends(OutcomeOf(inputs, n))
  {
    hide OutcomeOf;
    if OpenUntil(inputs, j, n) && !Ends(OutcomeOf(inputs, n)) {
      forall i | j < i < n + 1 ensures !Ends(OutcomeOf(inputs, i)) { }
    }
  }

  lemma TickClocks(p: Plan, s: State, i: Input)
    requires ValidPlan(p) && !p.Off? && i.plan == p && i.fault.NoFault?
    ensures ClocksMove(i, s, Ticked(s, i).0, Ticked(s, i).1)
  {
    hide NextOccurrence;
  }

  // Still within ten minutes of the last deferral of the occurrence.
  ghost predicate Waits(inputs: seq<Input>, k: nat)
    requires k < |inputs|
  {
    exists j: nat :: LastOpen(inputs, j, k) && ToMinute(inputs[k].now) < ToMinute(inputs[j].now) + 10 * MINUTE
  }

  // Two hours after its first deferral.
  ghost predicate GivesUp(inputs: seq<Input>, k: nat)
    requires k < |inputs|
  {
    exists j: nat :: FirstOpen(inputs, j, k) && ToMinute(inputs[k].now) - ToMinute(inputs[j].now) >= 120 * MINUTE
  }

  // What every tick of a run without faults does, said about the run: nothing before the occurrence or
  // within ten minutes of its last deferral, and otherwise a reboot if the server is free, a skip if it
  // has been put off for two hours, and a deferral if not.
  lemma TickDecides(p: Plan, inputs: seq<Input>, k: nat)
    requires FaultFree(p, inputs) && k < |inputs|
    ensures OutcomeOf(inputs, k) ==
      if ToMinute(inputs[k].now) < DueAt(p, inputs, k) || Waits(inputs, k) then Nothing
      else if inputs[k].busy.Free? then Done
      else if GivesUp(inputs, k) then Skipped
      else Deferred
  {
    hide NextOccurrence, OpenUntil;
    ClocksKept(p, inputs, k);
    var s := After(inputs[..k]);
    assert Waits(inputs, k) <==> s.retryAt.Some? && ToMinute(inputs[k].now) < s.retryAt.value by { hide Ticked; }
    assert GivesUp(inputs, k) <==>
      s.firstDeferred.Some? && ToMinute(inputs[k].now) - s.firstDeferred.value >= 120 * MINUTE by { hide Ticked; }
  }

  predicate Held(s: State, i: Input)
    requires ValidPlan(i.plan) && !i.plan.Off?
  {
    ToMinute(i.now) < Due(s, i) || (s.retryAt.Some? && ToMinute(i.now) < s.retryAt.value)
  }

  // Exactly which ticks raise, and after which of them the server is going down all the same.
  lemma RaisedIff(p: Plan, s: State, i: Input)
    requires ValidPlan(p) && !p.Off? && i.plan == p
    ensures Ticked(s, i).1.Raised? <==>
      i.fault.SettingsFault? ||
      (!Held(s, i) && if i.busy.Free? then i.fault.VerdictFault? || i.fault.RebootFault? || i.fault.LateFault?
                      else i.fault.JournalFault? || (i.fault.ReportFault? && i.busy.Unknown?))
    ensures Ticked(s, i).1 == Raised(true) <==> !Held(s, i) && i.busy.Free? && i.fault.LateFault?
  {
    hide NextOccurrence;
  }

  // Switching the plan off forgets the occurrence and its deferral: the next plan starts afresh.
  lemma OffForgets(s: State, i: Input, j: Input)
    requires i.plan.Off? && !i.fault.SettingsFault?
    ensures Ticked(s, i) == (State(None, None, None), Nothing)
    ensures ValidPlan(j.plan) && !j.plan.Off? ==>
      Due(Ticked(s, i).0, j) == NextOccurrence(j.plan, ToMinute(j.now) - MINUTE)
  { }

  // A tick that raised gives nothing up: tried again at once, without the fault, it reboots a free server,
  // also when the settings could not be read and the occurrence has come.
  lemma RaisedTickRetries(p: Plan, s: State, i: Input, again: Input)
    requires ValidPlan(p) && !p.Off? && i.plan == p && Ticked(s, i).1.Raised?
    requires i.fault.SettingsFault? ==> !Held(s, i)
    requires again == i.(busy := Free, fault := NoFault)
    ensures Ticked(Ticked(s, i).0, again).1.Done? && Due(Ticked(s, i).0, again) == Due(s, i)
  {
    hide NextOccurrence;
  }

  // A plan that does not work: every tick raises, and none reboots.
  lemma {:induction false} UnusableNeverReboots(p: Plan, inputs: seq<Input>)
    requires SameSettings(p, inputs) && !ValidPlan(p)
    ensures After(inputs) == State(None, None, None)
    ensures forall k | 0 <= k < |inputs| :: OutcomeOf(inputs, k) == Raised(false)
  {
    if inputs != [] {
      var front := inputs[..|inputs| - 1];
      UnusableNeverReboots(p, front);
      forall k | 0 <= k < |inputs| ensures OutcomeOf(inputs, k) == Raised(false) {
        if k < |front| { assert front[..k] == inputs[..k] && OutcomeOf(front, k) == OutcomeOf(inputs, k); }
      }
    }
  }

  ghost predicate EverReboots(p: Plan) {
    exists inputs, k: nat :: SameSettings(p, inputs) && k < |inputs| && Reboots(OutcomeOf(inputs, k))
  }

  lemma UsableReboots(p: Plan)
    requires ValidPlan(p) && !p.Off?
    ensures EverReboots(p)
  {
    hide NextOccurrence, Matches;
    var t := NextOccurrence(p, 0);
    NextIsLeast(p, 0, 0);
    NextIsLeast(p, t - MINUTE, t);
    WholeMinute(p, t);
    var inputs := [Input(t, p, Free, NoFault)];
    assert inputs[..0] == [];
    assert OutcomeOf(inputs, 0).Done?;
  }

  lemma WholeMinute(p: Plan, t: int)
    requires Matches(p, t)
    ensures ToMinute(t) == t
  {
    assert t == t / DAY * DAY + t % DAY;
  }

  // The scheduler can reboot the server under the stored settings if and only if they are on and the
  // accepted time has no minus sign.
  lemma SettingsRebootIff(mode: Option<string>, at: Option<string>, day: Option<string>)
    requires !Settings(mode, at, day).Off?
    ensures EverReboots(Settings(mode, at, day)) <==> !(at.Some? && ParseTime(at.value).Some? && '-' in at.value)
  {
    hide ParseTime;
    var p := Settings(mode, at, day);
    SettingsUsableIff(mode, at, day);
    if ValidPlan(p) {
      UsableReboots(p);
    } else if EverReboots(p) {
      var inputs, k: nat :| SameSettings(p, inputs) && k < |inputs| && Reboots(OutcomeOf(inputs, k));
      UnusableNeverReboots(p, inputs);
    }
  }
}
