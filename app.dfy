/** The command side of the agent (app.py): `execute_command`, which turns one command
    from the control server into calls on the `Mikrotik` object and a status result, and
    one pass of the poll loop, which executes a fetched batch and reports each result. */
module App {
  import opened Basics
  import opened Device
  import opened Hotspot

  /** The `{"status": ..., "message": ...}` result of one command. */
  datatype CommandResult = CommandResult(status: string, message: string)

  function Success(message: string): CommandResult {
    CommandResult("success", message)
  }

  function Failure(message: string): CommandResult {
    CommandResult("error", message)
  }

  /** The `data` of a command: its `type`, if present, and its `params`, where an absent
      `params` is the empty mapping. */
  datatype CommandData = CommandData(kind: Option<string>, params: map<string, string>)

  /** `params.get(key)`. */
  function Param(params: map<string, string>, key: string): (v: Option<string>)
    ensures v.Some? <==> key in params
    ensures v.Some? ==> v.value == params[key]
  {
    if key in params then Some(params[key]) else None
  }

  /** Python truthiness of a text parameter: present and not empty. */
  predicate Truthy(v: Option<string>) {
    v.Some? && v.value != ""
  }

  /** How an f-string renders the command type; an absent one prints as `None`. */
  function Shown(kind: Option<string>): string {
    match kind
    case None => "None"
    case Some(k) => k
  }

  /** `username`, `password` and `time_limit` all given and not empty. */
  predicate AddUserReady(params: map<string, string>) {
    Truthy(Param(params, "username")) && Truthy(Param(params, "password")) && Truthy(Param(params, "time_limit"))
  }

  /** `mac` and `ip` both given and not empty. */
  predicate LoginReady(params: map<string, string>) {
    Truthy(Param(params, "mac")) && Truthy(Param(params, "ip"))
  }

  /** A command `execute_command` hands on to the router. */
  predicate Dispatched(data: CommandData) {
    || (data.kind == Some("add_user") && AddUserReady(data.params))
    || (data.kind == Some("login_user") && LoginReady(data.params))
  }

  /** A result the control server understands: `success` or `error`. */
  predicate Reported(result: CommandResult) {
    result.status == "success" || result.status == "error"
  }

  const MissingAddUserParams := "Missing required parameters for add_user"
  const MissingLoginParams := "Missing required parameters for login_user"

  /** `execute_command`: the tables after the command and its result. Every exception of
      the router becomes an error result carrying its text. */
  function ExecuteSpec(t: Tables, data: CommandData, fw: Firmware): (r: Step<CommandResult>)
    ensures Reported(r.out)
    ensures WellFormed(t) ==> WellFormed(r.tables)
  {
    var params := data.params;
    if data.kind == Some("add_user") then
      if AddUserReady(params) then
        var username := params["username"];
        var added := AddUserSpec(t, username, params["password"], params["time_limit"], fw);
        match added.out
        case Ok(_) => Step(added.tables, Success("User " + username + " added successfully"))
        case Err(e) => Step(added.tables, Failure(e))
      else Step(t, Failure(MissingAddUserParams))
    else if data.kind == Some("login_user") then
      if LoginReady(params) then
        var mac := params["mac"];
        var login := LoginSpec(t, mac, params["ip"], fw);
        match login.out
        case Ok(_) => Step(login.tables, Success("User " + mac + " logged in successfully"))
        case Err(e) => Step(login.tables, Failure(ErrorText(e)))
      else Step(t, Failure(MissingLoginParams))
    else Step(t, Failure("Unknown command type: " + Shown(data.kind)))
  }

  /** A fetched command: its `id` and its `data`, either of which may be absent. */
  datatype Command = Command(id: Option<int>, data: Option<CommandData>)

  /** What `report_status` sends for one command. */
  datatype Report = Report(commandId: Option<int>, status: CommandResult)

  /** `command.get('data', {})`. */
  function DataOf(c: Command): CommandData {
    c.data.GetOr(CommandData(None, map[]))
  }

  /** What executing one command does: the tables after it and its result. */
  type Executor = (Tables, CommandData) -> Step<CommandResult>

  /** `execute_command` against a device whose firmware is `fw`. */
  function Execute(fw: Firmware): (execute: Executor)
    ensures forall t, data :: Reported(execute(t, data).out)
    ensures forall t, data :: WellFormed(t) ==> WellFormed(execute(t, data).tables)
  {
    (t: Tables, data: CommandData) => ExecuteSpec(t, data, fw)
  }

  /** One pass of `poll_command` over a fetched batch: each command executed on the
      tables its predecessors left, and one report per command, in list order. */
  function Batch(t: Tables, commands: seq<Command>, execute: Executor): (r: Step<seq<Report>>)
    ensures |r.out| == |commands|
    ensures forall i :: 0 <= i < |commands| ==> r.out[i].commandId == commands[i].id
    decreases |commands|
  {
    if commands == [] then Step(t, [])
    else
      var first := execute(t, DataOf(commands[0]));
      var rest := Batch(first.tables, commands[1..], execute);
      Step(rest.tables, [Report(commands[0].id, first.out)] + rest.out)
  }

  // ----- properties -----

  /** A command that is not handed on to the router, for a missing or empty parameter
      or an unknown type, is an error naming the reason and leaves the device as it was. */
  lemma RefusedCommand(t: Tables, data: CommandData, fw: Firmware)
    requires !Dispatched(data)
    ensures ExecuteSpec(t, data, fw).tables == t
    ensures data.kind == Some("add_user") ==> ExecuteSpec(t, data, fw).out == Failure(MissingAddUserParams)
    ensures data.kind == Some("login_user") ==> ExecuteSpec(t, data, fw).out == Failure(MissingLoginParams)
    ensures data.kind != Some("add_user") && data.kind != Some("login_user") ==>
      ExecuteSpec(t, data, fw).out == Failure("Unknown command type: " + Shown(data.kind))
  {
  }

  /** A command without `data` is an unknown command of type `None`. */
  lemma MissingData(t: Tables, id: Option<int>, fw: Firmware)
    ensures ExecuteSpec(t, DataOf(Command(id, None)), fw)
         == Step(t, Failure("Unknown command type: None"))
  {
    assert Shown(None) == "None";
    assert "Unknown command type: " + "None" == "Unknown command type: None";
  }

  /** A dispatched command calls the router exactly once: the device ends as that one
      call left it, and a failure reports the exception's text. In particular the re-add
      signal of `login_user` is not acted on: no account is re-created and no second
      login is tried, the result is the error `Readd user`. */
  lemma DispatchedCommand(t: Tables, data: CommandData, fw: Firmware)
    requires Dispatched(data)
    ensures var r := ExecuteSpec(t, data, fw);
      var p := data.params;
      && (data.kind == Some("add_user") ==>
            var added := AddUserSpec(t, p["username"], p["password"], p["time_limit"], fw);
            && r.tables == added.tables
            && (added.out.Ok? ==> r.out == Success("User " + p["username"] + " added successfully"))
            && (added.out.Err? ==> r.out == Failure(added.out.error)))
      && (data.kind == Some("login_user") ==>
            var login := LoginSpec(t, p["mac"], p["ip"], fw);
            && r.tables == login.tables
            && (login.out.Ok? ==> r.out == Success("User " + p["mac"] + " logged in successfully"))
            && (login.out.Err? ==> r.out == Failure(ErrorText(login.out.error)))
            && (login.out == Err(ReAddUser) ==> r.out == Failure("Readd user")))
  {
  }

  /** A result is a success exactly when the command was handed on to the router and the
      router call returned normally. */
  lemma SuccessMeansDone(t: Tables, data: CommandData, fw: Firmware)
    ensures var p := data.params;
      ExecuteSpec(t, data, fw).out.status == "success" <==>
        && Dispatched(data)
        && (data.kind == Some("add_user") ==>
              AddUserSpec(t, p["username"], p["password"], p["time_limit"], fw).out.Ok?)
        && (data.kind == Some("login_user") ==> LoginSpec(t, p["mac"], p["ip"], fw).out.Ok?)
  {
  }

  /** After an `add_user` command that succeeded, the account table holds exactly one
      record under the requested name, with the requested password and time limit, and
      no other name's records changed. */
  lemma AddUserCommandSucceeded(t: Tables, params: map<string, string>, fw: Firmware)
    requires WellFormed(t)
    requires "username" in params ==> |Named(t.users, params["username"])| <= 1
    requires ExecuteSpec(t, CommandData(Some("add_user"), params), fw).out.status == "success"
    ensures AddUserReady(params)
    ensures var users := ExecuteSpec(t, CommandData(Some("add_user"), params), fw).tables.users;
      var name := params["username"];
      && Named(users, name) == [NewUser(t.nextId, name, params["password"], params["time_limit"])]
      && (forall n :: n != name ==> Named(users, n) == Named(t.users, n))
  {
    AddUserLeavesOne(t, params["username"], params["password"], params["time_limit"], fw);
  }

  /** After a `login_user` command that succeeded, the MAC has a new session with an id,
      bound to the address of the first host entry with that MAC, and sessions of other
      MACs and the account table are as they were. When the clean-up of the MAC's earlier
      sessions went through, the new session is the MAC's only session with an id; when
      it failed, the earlier sessions remain beside the new one. */
  lemma LoginCommandSucceeded(t: Tables, params: map<string, string>, fw: Firmware)
    requires WellFormed(t)
    requires ExecuteSpec(t, CommandData(Some("login_user"), params), fw).out.status == "success"
    ensures LoginReady(params)
    ensures var mac := params["mac"];
      var r := ExecuteSpec(t, CommandData(Some("login_user"), params), fw);
      var cleanup := RemoveByMacSpec(t, mac, fw);
      var matching := HostsWithMac(t.hosts, mac);
      && matching != []
      && var added := LoggedIn(t.nextId, mac, LoginAddress(matching[0]));
      && r.tables.users == t.users
      && added in r.tables.active
      && (forall x :: x in t.active && !MacMatches(x.mac, mac) ==> x in r.tables.active)
      && (cleanup.out ==>
            forall x :: x in r.tables.active && x.id.Some? && MacMatches(x.mac, mac) <==> x == added)
      && (!cleanup.out ==> r.tables.active == t.active + [added])
  {
    LoginSucceeded(t, params["mac"], params["ip"], fw);
  }

  /** Taking the first element off a concatenation whose first part is not empty. */
  lemma SplitHead<T>(a: seq<T>, b: seq<T>)
    requires a != []
    ensures (a + b)[0] == a[0] && (a + b)[1..] == a[1..] + b
  {
  }

  /** The first command of a batch runs first, on the tables the batch starts from. */
  lemma BatchFirst(t: Tables, commands: seq<Command>, execute: Executor)
    requires commands != []
    ensures var first := execute(t, DataOf(commands[0]));
      var rest := Batch(first.tables, commands[1..], execute);
      Batch(t, commands, execute) == Step(rest.tables, [Report(commands[0].id, first.out)] + rest.out)
  {
  }

  /** Executing the i-th command and appending its report leaves the account of the
      whole pass unchanged: what remains is the pass over the commands after it. */
  lemma BatchAdvance(commands: seq<Command>, i: nat, before: Tables, after: Tables,
                     result: CommandResult, reports: seq<Report>, execute: Executor)
    requires i < |commands|
    requires execute(before, DataOf(commands[i])) == Step(after, result)
    ensures var rest := Batch(before, commands[i..], execute);
      var next := Batch(after, commands[i + 1..], execute);
      rest.tables == next.tables &&
      reports + rest.out == (reports + [Report(commands[i].id, result)]) + next.out
  {
    var report := Report(commands[i].id, result);
    assert commands[i..][0] == commands[i] && commands[i..][1..] == commands[i + 1..];
    BatchFirst(before, commands[i..], execute);
    var next := Batch(after, commands[i + 1..], execute);
    assert reports + ([report] + next.out) == (reports + [report]) + next.out;
  }

  /** Processing a batch is processing its first part and then, on the tables that left,
      its second part: commands run one after another in list order. */
  lemma {:induction false} BatchInOrder(t: Tables, a: seq<Command>, b: seq<Command>, execute: Executor)
    ensures var ra := Batch(t, a, execute);
      var rb := Batch(ra.tables, b, execute);
      Batch(t, a + b, execute) == Step(rb.tables, ra.out + rb.out)
    decreases |a|
  {
    if a == [] {
      assert a + b == b;
      var rb := Batch(t, b, execute);
      assert [] + rb.out == rb.out;
    } else {
      var first := execute(t, DataOf(a[0]));
      var head := Report(a[0].id, first.out);
      var ra := Batch(first.tables, a[1..], execute);
      var rb := Batch(ra.tables, b, execute);
      SplitHead(a, b);
      BatchInOrder(first.tables, a[1..], b, execute);
      assert [head] + (ra.out + rb.out) == ([head] + ra.out) + rb.out;
    }
  }

  /** The report for the i-th command is the result of executing it on the tables the
      commands before it left. */
  lemma BatchReportAt(t: Tables, commands: seq<Command>, i: nat, execute: Executor)
    requires i < |commands|
    ensures Batch(t, commands, execute).out[i]
         == Report(commands[i].id, execute(Batch(t, commands[..i], execute).tables, DataOf(commands[i])).out)
  {
    assert commands == commands[..i] + commands[i..];
    BatchInOrder(t, commands[..i], commands[i..], execute);
  }

  /** Results that are `success` or `error` and tables kept well formed, command by
      command, make the same hold of a whole pass. */
  lemma {:induction false} BatchReports(t: Tables, commands: seq<Command>, execute: Executor)
    requires forall s, data :: Reported(execute(s, data).out)
    requires forall s, data :: WellFormed(s) ==> WellFormed(execute(s, data).tables)
    ensures forall i :: 0 <= i < |commands| ==> Reported(Batch(t, commands, execute).out[i].status)
    ensures WellFormed(t) ==> WellFormed(Batch(t, commands, execute).tables)
    decreases |commands|
  {
    if commands != [] {
      var first := execute(t, DataOf(commands[0]));
      var rest := Batch(first.tables, commands[1..], execute);
      BatchReports(first.tables, commands[1..], execute);
      var r := Batch(t, commands, execute);
      assert r.out == [Report(commands[0].id, first.out)] + rest.out;
      assert Reported(r.out[0].status);
      forall i | 1 <= i < |commands|
        ensures Reported(r.out[i].status)
      {
        assert r.out[i] == rest.out[i - 1];
      }
    }
  }

  // ----- the agent -----

  /** `execute_command` against the agent's `Mikrotik` object. */
  method ExecuteCommand(router: Mikrotik, data: CommandData, fw: Firmware) returns (result: CommandResult)
    requires router.Valid()
    modifies router
    ensures router.Valid()
    ensures Step(router.State(), result) == ExecuteSpec(old(router.State()), data, fw)
  {
    var params := data.params;
    if data.kind == Some("add_user") {
      if AddUserReady(params) {
        var username := params["username"];
        var added := router.AddUser(username, params["password"], params["time_limit"], fw);
        if added.Err? {
          return Failure(added.error);
        }
        return Success("User " + username + " added successfully");
      }
      return Failure(MissingAddUserParams);
    } else if data.kind == Some("login_user") {
      if LoginReady(params) {
        var mac := params["mac"];
        var login := router.LoginUser(mac, params["ip"], fw);
        if login.Err? {
          return Failure(ErrorText(login.error));
        }
        return Success("User " + mac + " logged in successfully");
      }
      return Failure(MissingLoginParams);
    }
    return Failure("Unknown command type: " + Shown(data.kind));
  }

  /** One pass of `poll_command` over a fetched batch: execute each command, then report
      its result under its id, in the order received. */
  method PollOnce(router: Mikrotik, commands: seq<Command>, fw: Firmware) returns (reports: seq<Report>)
    requires router.Valid()
    modifies router
    ensures router.Valid()
    ensures Step(router.State(), reports) == Batch(old(router.State()), commands, Execute(fw))
  {
    reports := [];
    assert commands[0..] == commands;
    assert [] + Batch(router.State(), commands, Execute(fw)).out == Batch(router.State(), commands, Execute(fw)).out;
    for i := 0 to |commands|
      invariant router.Valid()
      invariant var rest := Batch(router.State(), commands[i..], Execute(fw));
        Batch(old(router.State()), commands, Execute(fw)) == Step(rest.tables, reports + rest.out)
    {
      var command := commands[i];
      ghost var before := router.State();
      var result := ExecuteCommand(router, DataOf(command), fw);
      BatchAdvance(commands, i, before, router.State(), result, reports, Execute(fw));
      reports := reports + [Report(command.id, result)];
    }
    assert commands[|commands|..] == [];
    assert reports + [] == reports;
  }
}
