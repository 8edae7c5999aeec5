/** `start` and `main`: which router operations run for the parsed
    settings, in which order, and what the program reports. Each
    operation's outcome is a parameter; `Outcome` gives it in terms of the
    router's answers. */
module Program {
  import opened Io
  import CommandLine
  type Args = CommandLine.Args
  import Router

  /** The router operations `start` calls. */
  datatype Op = Login | ActiveClients | MacFltEnable | MacFltDisable | MacFltStatus | Logout | Reboot

  /** The operations performed, in order, and what `start` returned. */
  datatype Run = Run(trace: seq<Op>, result: Result<()>)

  /** The action a set of flags selects. */
  datatype Action =
    | LoginOnlyAction | ClientsAction | EnableAction | DisableAction
    | StatusAction | LogoutAction | RebootAction | NoAction

  /** The action flags in the order `start` examines them. */
  function ActionFlags(a: Args): seq<bool> {
    [a.loginOnly, a.getClientsOnly, a.enableMacflt, a.disableMacflt, a.showStatus, a.logout, a.reboot]
  }

  /** The place of an action's flag in that order; `NoAction` comes after
      all of them. */
  function ActionIndex(act: Action): nat {
    match act
    case LoginOnlyAction => 0
    case ClientsAction => 1
    case EnableAction => 2
    case DisableAction => 3
    case StatusAction => 4
    case LogoutAction => 5
    case RebootAction => 6
    case NoAction => 7
  }

  /** The action of the first action flag that is set. */
  function Selected(a: Args): Action {
    if a.loginOnly then LoginOnlyAction
    else if a.getClientsOnly then ClientsAction
    else if a.enableMacflt then EnableAction
    else if a.disableMacflt then DisableAction
    else if a.showStatus then StatusAction
    else if a.logout then LogoutAction
    else if a.reboot then RebootAction
    else NoAction
  }

  /** The place of the first `true` in `fs` at or after `k`, or `|fs|`
      when there is none. */
  function FirstSetFrom(fs: seq<bool>, k: nat): nat
    decreases |fs| - k
  {
    if k >= |fs| then |fs| else if fs[k] then k else FirstSetFrom(fs, k + 1)
  }

  /** `FirstSetFrom` finds a set flag, with none set between `k` and it. */
  lemma {:induction false} FirstSetFromIsFirst(fs: seq<bool>, k: nat)
    requires k <= |fs|
    ensures k <= FirstSetFrom(fs, k) <= |fs|
    ensures FirstSetFrom(fs, k) < |fs| ==> fs[FirstSetFrom(fs, k)]
    ensures forall j :: k <= j < FirstSetFrom(fs, k) ==> !fs[j]
    decreases |fs| - k
  {
    if k < |fs| && !fs[k] {
      FirstSetFromIsFirst(fs, k + 1);
    }
  }

  /** The selected action sits in the place of the first set flag. */
  lemma SelectedAtFirstSet(a: Args)
    ensures ActionIndex(Selected(a)) == FirstSetFrom(ActionFlags(a), 0)
  {
    var fs := ActionFlags(a);
    assert |fs| == 7;
    assert FirstSetFrom(fs, 7) == 7;
    assert FirstSetFrom(fs, 6) == if a.reboot then 6 else 7;
    assert FirstSetFrom(fs, 5) == if a.logout then 5 else FirstSetFrom(fs, 6);
    assert FirstSetFrom(fs, 4) == if a.showStatus then 4 else FirstSetFrom(fs, 5);
    assert FirstSetFrom(fs, 3) == if a.disableMacflt then 3 else FirstSetFrom(fs, 4);
    assert FirstSetFrom(fs, 2) == if a.enableMacflt then 2 else FirstSetFrom(fs, 3);
    assert FirstSetFrom(fs, 1) == if a.getClientsOnly then 1 else FirstSetFrom(fs, 2);
    assert FirstSetFrom(fs, 0) == if a.loginOnly then 0 else FirstSetFrom(fs, 1);
  }

  /** Only the first action flag that is set counts; with none set nothing
      is selected. */
  lemma SelectedIsFirstSetFlag(a: Args)
    ensures forall i :: 0 <= i < |ActionFlags(a)| ==>
      (ActionIndex(Selected(a)) == i <==> ActionFlags(a)[i] && forall j :: 0 <= j < i ==> !ActionFlags(a)[j])
    ensures Selected(a) == NoAction <==> forall i :: 0 <= i < |ActionFlags(a)| ==> !ActionFlags(a)[i]
  {
    var fs := ActionFlags(a);
    var k := FirstSetFrom(fs, 0);
    SelectedAtFirstSet(a);
    FirstSetFromIsFirst(fs, 0);
    forall i | 0 <= i < |fs|
      ensures k == i <==> fs[i] && forall j :: 0 <= j < i ==> !fs[j]
    {
      if fs[i] && forall j :: 0 <= j < i ==> !fs[j] {
        assert !(k < i) && !(i < k);
      }
    }
    if Selected(a) != NoAction {
      assert k < |fs| && fs[k];
    }
  }

  /** The operations an action performs when none of them fails. */
  function Plan(act: Action): seq<Op> {
    match act
    case LoginOnlyAction => [Login]
    case ClientsAction => [Login, ActiveClients, Logout]
    case EnableAction => [Login, MacFltEnable, Logout]
    case DisableAction => [Login, MacFltDisable, Logout]
    case StatusAction => [Login, MacFltStatus, ActiveClients, Logout]
    case LogoutAction => [Logout]
    case RebootAction => [Login, Reboot]
    case NoAction => []
  }

  /** Running a plan, stopping at the first failure and returning it. */
  function Execute(plan: seq<Op>, outcome: Op -> Result<()>): (r: Run)
    ensures |r.trace| <= |plan| && r.trace == plan[..|r.trace|]
    ensures r.result.Ok? <==> forall k :: 0 <= k < |plan| ==> outcome(plan[k]).Ok?
    ensures r.result.Ok? ==> r.trace == plan
    ensures r.result.Err? ==>
      |r.trace| >= 1 && r.result == outcome(r.trace[|r.trace| - 1])
      && forall k :: 0 <= k < |r.trace| - 1 ==> outcome(r.trace[k]).Ok?
  {
    if plan == [] then Run([], Ok(()))
    else
      match outcome(plan[0])
      case Err(e) => Run([plan[0]], Err(e))
      case Ok(_) =>
        var rest := Execute(plan[1..], outcome);
        assert forall k :: 1 <= k < |plan| ==> plan[k] == plan[1..][k - 1];
        Run([plan[0]] + rest.trace, rest.result)
  }

  /** `op()?` followed by the rest of the function. */
  function Then(op: Op, outcome: Op -> Result<()>, next: Run): Run {
    match outcome(op)
    case Err(e) => Run([op], Err(e))
    case Ok(_) => Run([op] + next.trace, next.result)
  }

  /** `return op()`. */
  function Last(op: Op, outcome: Op -> Result<()>): Run {
    Run([op], outcome(op))
  }

  /** `start()`, as its chain of conditionals with early returns. */
  function Start(a: Args, outcome: Op -> Result<()>): (r: Run)
    ensures |r.trace| <= 4
    ensures r.result.Err? ==> r.trace != [] && r.result == outcome(r.trace[|r.trace| - 1])
  {
    if a.loginOnly then
      Last(Login, outcome)
    else if a.getClientsOnly then
      Then(Login, outcome, Then(ActiveClients, outcome, Last(Logout, outcome)))
    else if a.enableMacflt then
      Then(Login, outcome, Then(MacFltEnable, outcome, Last(Logout, outcome)))
    else if a.disableMacflt then
      Then(Login, outcome, Then(MacFltDisable, outcome, Last(Logout, outcome)))
    else if a.showStatus then
      Then(Login, outcome, Then(MacFltStatus, outcome,
        Then(ActiveClients, outcome, Last(Logout, outcome))))
    else if a.logout then
      Last(Logout, outcome)
    else if a.reboot then
      Then(Login, outcome, Last(Reboot, outcome))
    else
      Run([], Ok(()))
  }

  lemma ExecuteCons(op: Op, rest: seq<Op>, outcome: Op -> Result<()>)
    ensures Execute([op] + rest, outcome) == Then(op, outcome, Execute(rest, outcome))
  {
    assert ([op] + rest)[1..] == rest;
  }

  lemma ExecuteOne(op: Op, outcome: Op -> Result<()>)
    ensures Execute([op], outcome) == Last(op, outcome)
  {
    ExecuteCons(op, [], outcome);
    assert [op] + [] == [op];
    match outcome(op)
    case Ok(u) => assert u == ();
    case Err(_) =>
  }

  lemma ExecutePair(op: Op, last: Op, outcome: Op -> Result<()>)
    ensures Execute([op, last], outcome) == Then(op, outcome, Last(last, outcome))
  {
    assert [op, last] == [op] + [last];
    ExecuteCons(op, [last], outcome);
    ExecuteOne(last, outcome);
  }

  lemma ExecuteTriple(first: Op, op: Op, last: Op, outcome: Op -> Result<()>)
    ensures Execute([first, op, last], outcome)
         == Then(first, outcome, Then(op, outcome, Last(last, outcome)))
  {
    assert [first, op, last] == [first] + [op, last];
    ExecuteCons(first, [op, last], outcome);
    ExecutePair(op, last, outcome);
  }

  lemma ExecuteQuad(first: Op, second: Op, op: Op, last: Op, outcome: Op -> Result<()>)
    ensures Execute([first, second, op, last], outcome)
         == Then(first, outcome, Then(second, outcome, Then(op, outcome, Last(last, outcome))))
  {
    assert [first, second, op, last] == [first] + [second, op, last];
    ExecuteCons(first, [second, op, last], outcome);
    ExecuteTriple(second, op, last, outcome);
  }

  /** `start` runs the plan of the selected action and stops at the first
      failure. */
  lemma StartRunsPlan(a: Args, outcome: Op -> Result<()>)
    ensures Start(a, outcome) == Execute(Plan(Selected(a)), outcome)
  {
    match Selected(a)
    case LoginOnlyAction => ExecuteOne(Login, outcome);
    case ClientsAction => ExecuteTriple(Login, ActiveClients, Logout, outcome);
    case EnableAction => ExecuteTriple(Login, MacFltEnable, Logout, outcome);
    case DisableAction => ExecuteTriple(Login, MacFltDisable, Logout, outcome);
    case StatusAction => ExecuteQuad(Login, MacFltStatus, ActiveClients, Logout, outcome);
    case LogoutAction => ExecuteOne(Logout, outcome);
    case RebootAction => ExecutePair(Login, Reboot, outcome);
    case NoAction =>
  }

  /** Running a plan that opens with a login and closes with its only
      logout. */
  lemma {:induction false} SessionRun(plan: seq<Op>, outcome: Op -> Result<()>)
    requires |plan| >= 2 && plan[0] == Login && plan[|plan| - 1] == Logout
    requires Logout !in plan[..|plan| - 1]
    ensures var r := Execute(plan, outcome);
      r.trace != [] && r.trace[0] == Login
      && (r.result.Ok? ==> r.trace[|r.trace| - 1] == Logout)
      && (r.result.Err? ==> Logout !in r.trace[..|r.trace| - 1])
      && (outcome(Login).Err? ==> r == Run([Login], outcome(Login)))
  {
    var r := Execute(plan, outcome);
    if r.result.Err? {
      assert r.trace[..|r.trace| - 1] == plan[..|plan| - 1][..|r.trace| - 1];
    }
  }

  /** The plans of the session actions open with a login and close with
      their only logout. */
  lemma SessionPlans(act: Action)
    requires act in {ClientsAction, EnableAction, DisableAction, StatusAction}
    ensures var plan := Plan(act);
      |plan| >= 2 && plan[0] == Login && plan[|plan| - 1] == Logout
      && Logout !in plan[..|plan| - 1]
  {
    var plan := Plan(act);
    assert plan[..|plan| - 1] == if act == StatusAction then [Login, MacFltStatus, ActiveClients] else [Login, plan[1]];
  }

  /** An action that logs in and then works opens a session: it starts with
      a login, ends with a logout when everything succeeds, and when
      something fails stops there, so no logout follows a failure. */
  lemma SessionShape(a: Args, outcome: Op -> Result<()>)
    requires Selected(a) in {ClientsAction, EnableAction, DisableAction, StatusAction}
    ensures var r := Start(a, outcome);
      r.trace != [] && r.trace[0] == Login
      && (r.result.Ok? ==> r.trace[|r.trace| - 1] == Logout)
      && (r.result.Err? ==> Logout !in r.trace[..|r.trace| - 1])
      && (outcome(Login).Err? ==> r == Run([Login], outcome(Login)))
  {
    StartRunsPlan(a, outcome);
    SessionPlans(Selected(a));
    SessionRun(Plan(Selected(a)), outcome);
  }

  /** With no action flag set nothing happens; the flags `get_macs_only`,
      `show_white_list` and `show_black_list` are never looked at. */
  lemma UnusedFlags(a: Args, outcome: Op -> Result<()>, getMacsOnly: bool, showWhiteList: bool, showBlackList: bool)
    ensures Start(a, outcome)
         == Start(a.(getMacsOnly := getMacsOnly, showWhiteList := showWhiteList, showBlackList := showBlackList), outcome)
    ensures Selected(a) == NoAction ==> Start(a, outcome) == Run([], Ok(()))
  {
    StartRunsPlan(a, outcome);
  }

  /** The outcome of each operation given the router's answer to its
      request, for the settings `a`. */
  function Outcome(a: Args, answers: Op -> Result<string>, op: Op): Result<()> {
    match op
    case Login => Router.Login(answers(op))
    case ActiveClients => Router.Completed(Router.ActiveClients(answers(op)))
    case MacFltEnable =>
      if a.blackListFile.GetOr([]) + a.addBlackList.GetOr([]) == [] then Ok(())
      else Router.Completed(answers(op))
    case MacFltDisable => Router.Completed(answers(op))
    case MacFltStatus => Router.Completed(Router.MacFltStatus(answers(op)))
    case Logout => Router.Completed(answers(op))
    case Reboot => Router.Completed(answers(op))
  }

  /** What the program does: it panics when parsing does, and otherwise
      runs `start`, reports its error on standard error, and prints the
      usage text. */
  datatype Exit =
    | Panicked(message: string)
    | Exited(trace: seq<Op>, stderr: seq<string>, usage: bool)

  /** `main`, for a parse outcome and the number of command-line words
      (the program name included). */
  function ProgramRun(parsed: CommandLine.Parsed, argCount: nat, outcome: Op -> Result<()>): (e: Exit)
    ensures parsed.Panic? ==> e == Panicked(parsed.message)
    ensures parsed.Parsed? ==> e.Exited? && (e.usage <==> argCount == 1) && |e.stderr| <= 1
  {
    match parsed
    case Panic(message) => Panicked(message)
    case Parsed(a) =>
      var run := Start(a, outcome);
      var stderr := if run.result.Err? then ["routerctl: ERR: " + run.result.error.Text()] else [];
      Exited(run.trace, stderr, argCount == 1)
  }

  /** The usage text is printed exactly when the program got no arguments,
      whether or not `start` failed; an error line, `routerctl: ERR: `
      followed by the error's text, is printed exactly when `start` failed. */
  lemma MainReports(a: Args, argCount: nat, outcome: Op -> Result<()>)
    ensures var e := ProgramRun(CommandLine.Parsed(a), argCount, outcome);
      e.Exited? && (e.usage <==> argCount == 1)
      && (e.stderr != [] <==> Start(a, outcome).result.Err?)
      && (Start(a, outcome).result.Err? ==>
            e.stderr == ["routerctl: ERR: " + Start(a, outcome).result.error.Text()])
      && e.trace == Execute(Plan(Selected(a)), outcome).trace
  {
    StartRunsPlan(a, outcome);
  }

  /** A refused login (the router answers with its login page) ends a
      session action at once, with the refusal reported and no logout
      sent. */
  lemma RefusedLogin(a: Args, answers: Op -> Result<string>, argCount: nat)
    requires Selected(a) in {ClientsAction, EnableAction, DisableAction, StatusAction, RebootAction}
    requires answers(Login).Ok? && Router.HasLoginMarker(answers(Login).value)
    ensures ProgramRun(CommandLine.Parsed(a), argCount, op => Outcome(a, answers, op))
         == Exited([Login], ["routerctl: ERR: " + Router.WrongPassword], argCount == 1)
  {
    var outcome := op => Outcome(a, answers, op);
    StartRunsPlan(a, outcome);
    assert outcome(Login) == Err(Other(Router.WrongPassword));
  }
}
