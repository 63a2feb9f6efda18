/** The agent's account and session operations on the hotspot device (class `Mikrotik`
    of mikrotik.py). Each operation is specified by a function from the device tables
    before the call to the tables after it and the value it returns or the error it
    raises; class `Mikrotik` performs the operations on its tables and is proved to
    follow those functions. */
module Hotspot {
  import opened Basics
  import opened Text
  import opened Duration
  import opened Device

  // ----- accounts -----

  /** `limit-uptime` is set (not zero) and `uptime` has reached it; an absent attribute
      reads as `"0s"`. */
  predicate Expired(u: User) {
    var limit := Seconds(u.limitUptime.GetOr("0s"));
    limit != 0 && Seconds(u.uptime.GetOr("0s")) >= limit
  }

  /** `user_exists`: decided on the first record named `name`; an expired one is removed. */
  function UserExistsSpec(t: Tables, name: string, fw: Firmware): (r: Step<Result<bool, string>>)
    ensures WellFormed(t) ==> WellFormed(r.tables)
  {
    match fw(t, Connect(UserCheck))
    case Some(e) => Step(t, Err(e))
    case None =>
      var found := Named(t.users, name);
      if found == [] then Step(t, Ok(false))
      else if Expired(found[0]) then Step(t.(users := WithoutUser(t.users, found[0].id)), Ok(false))
      else Step(t, Ok(true))
  }

  /** `remove_existing_user`: removes the first record named `name`, if there is one. */
  function RemoveExistingUserSpec(t: Tables, name: string, fw: Firmware): (r: Step<Result<bool, string>>)
    ensures WellFormed(t) ==> WellFormed(r.tables)
  {
    match fw(t, Connect(UserRemoval))
    case Some(e) => Step(t, Err(e))
    case None =>
      var found := Named(t.users, name);
      if found != [] then Step(t.(users := WithoutUser(t.users, found[0].id)), Ok(true))
      else Step(t, Ok(false))
  }

  /** The record `add_user` asks the device to create. */
  function NewUser(id: nat, name: string, password: string, time: string): User {
    User(id, name, password, "default", Some(time), None)
  }

  /** `add_user`: always `remove_existing_user` first, then a fresh record with the
      `default` profile. */
  function AddUserSpec(t: Tables, name: string, password: string, time: string, fw: Firmware)
    : (r: Step<Result<(), string>>)
    ensures WellFormed(t) ==> WellFormed(r.tables)
  {
    var removed := RemoveExistingUserSpec(t, name, fw);
    var t1 := removed.tables;
    match removed.out
    case Err(e) => Step(t1, Err(e))
    case Ok(_) =>
      match fw(t1, Connect(AccountCreation))
      case Some(e) => Step(t1, Err(e))
      case None =>
        match fw(t1, AddAccount(name, password, "default", time))
        case Some(e) => Step(t1, Err(e))
        case None =>
          Step(t1.(users := t1.users + [NewUser(t1.nextId, name, password, time)],
                   nextId := t1.nextId + 1), Ok(()))
  }

  // ----- sessions -----

  /** `remove_active_session_by_mac`: false when the device cannot be reached. */
  function RemoveByMacSpec(t: Tables, mac: string, fw: Firmware): (r: Step<bool>)
    ensures WellFormed(t) ==> WellFormed(r.tables)
  {
    match fw(t, Connect(SessionsByMac))
    case Some(_) => Step(t, false)
    case None => Step(t.(active := RemoveEach(t.active, WithMac(t.active, mac))), true)
  }

  /** `remove_active_session_by_ip`: false when the device cannot be reached. */
  function RemoveByIpSpec(t: Tables, ip: string, fw: Firmware): (r: Step<bool>)
    ensures WellFormed(t) ==> WellFormed(r.tables)
  {
    match fw(t, Connect(SessionsByIp))
    case Some(_) => Step(t, false)
    case None => Step(t.(active := RemoveEach(t.active, AtAddress(t.active, ip))), true)
  }

  /** `str()` of the `KeyError` that `user['id']` raises on a record without an id. */
  const MissingIdMessage := "'id'"

  /** Index of the first session without an id, or the length when all have one. */
  function FirstWithoutId(ss: seq<Session>): (k: nat)
    ensures k <= |ss|
    ensures forall j :: 0 <= j < k ==> ss[j].id.Some?
    ensures k < |ss| ==> ss[k].id.None?
  {
    if ss == [] || ss[0].id.None? then 0 else 1 + FirstWithoutId(ss[1..])
  }

  /** `disconect_active_hotspot_user`: removes the user's sessions in table order and
      fails at the first one without an id, after removing those before it. */
  function DisconnectSpec(t: Tables, name: string, fw: Firmware): (r: Step<Result<bool, string>>)
    ensures WellFormed(t) ==> WellFormed(r.tables)
  {
    match fw(t, Connect(UserSessions))
    case Some(e) => Step(t, Err(e))
    case None =>
      var found := OfUser(t.active, name);
      if found == [] then Step(t, Ok(false))
      else
        var k := FirstWithoutId(found);
        Step(t.(active := RemoveEach(t.active, found[..k])),
             if k < |found| then Err(MissingIdMessage) else Ok(true))
  }

  // ----- login -----

  /** The exceptions `login_user` raises. `Refused` and `LoginFailed` both re-raise the
      original exception. */
  datatype LoginError =
    | ReAddUser
    | UserNotFound(mac: string)
    | Refused(message: string)
    | UnknownHost(ip: string)
    | LoginFailed(message: string)

  /** The except block of `login_user`: the lower-cased message is tested for each
      phrase in turn. */
  function Classify(message: string, mac: string, loginIp: string): (e: LoginError)
    ensures e.Refused? || e.LoginFailed? ==> e.message == message
  {
    var m := Lower(message);
    if Contains(m, "your uptime limit reached") then ReAddUser
    else if Contains(m, "no such user") then UserNotFound(mac)
    else if Contains(m, "connection refused") then Refused(message)
    else if Contains(m, "unknown host") then UnknownHost(loginIp)
    else LoginFailed(message)
  }

  /** `str()` of the exception `login_user` raises. */
  function ErrorText(e: LoginError): string {
    match e
    case ReAddUser => "Readd user"
    case UserNotFound(mac) => "User not found: " + mac
    case Refused(message) => message
    case UnknownHost(ip) => "Unknown host IP: " + ip
    case LoginFailed(message) => message
  }

  function HostNotFoundMessage(mac: string): string {
    "Host entry not found for MAC " + mac
  }

  function NoAddressMessage(mac: string): string {
    "No valid IP found for MAC " + mac
  }

  /** The session a successful login leaves in the active table. */
  function LoggedIn(id: nat, mac: string, ip: string): Session {
    Session(Some(id), Some(mac), Some(ip), Some(mac))
  }

  /** `login_user`: clear the MAC's sessions, bind to the first host entry for the MAC
      (its `to-address` if present, else its `address`), and ask the device to log in
      with user, password and MAC all equal to `mac`. The `ip` argument is not used. */
  function LoginSpec(t: Tables, mac: string, ip: string, fw: Firmware): (r: Step<Result<(), LoginError>>)
    ensures WellFormed(t) ==> WellFormed(r.tables)
  {
    var t1 := RemoveByMacSpec(t, mac, fw).tables;
    match fw(t1, Connect(HostLookup))
    case Some(e) => Step(t1, Err(Classify(e, mac, "")))
    case None =>
      var matching := HostsWithMac(t1.hosts, mac);
      if matching == [] then Step(t1, Err(Classify(HostNotFoundMessage(mac), mac, "")))
      else
        var loginIp := LoginAddress(matching[0]);
        if loginIp == "" then Step(t1, Err(Classify(NoAddressMessage(mac), mac, loginIp)))
        else
          match fw(t1, Login(mac, mac, mac, loginIp))
          case Some(e) => Step(t1, Err(Classify(e, mac, loginIp)))
          case None =>
            Step(t1.(active := t1.active + [LoggedIn(t1.nextId, mac, loginIp)],
                     nextId := t1.nextId + 1), Ok(()))
  }

  // ----- properties -----

  /** The three outcomes of `user_exists`, all decided on the first record named `name`:
      none, so false and nothing changes; expired, so exactly that record is removed and
      false; otherwise true and nothing changes. An unreachable device raises. */
  lemma UserExistsOutcomes(t: Tables, name: string, fw: Firmware)
    requires WellFormed(t)
    ensures var r := UserExistsSpec(t, name, fw);
      && (fw(t, Connect(UserCheck)).Some? ==> r == Step(t, Err(fw(t, Connect(UserCheck)).value)))
      && (fw(t, Connect(UserCheck)).None? && (forall x :: x in t.users ==> x.name != name) ==>
            r == Step(t, Ok(false)))
      && (fw(t, Connect(UserCheck)).None? && Named(t.users, name) != [] ==>
            var first := Named(t.users, name)[0];
            && (exists k :: 0 <= k < |t.users| && t.users[k] == first &&
                            forall j :: 0 <= j < k ==> t.users[j].name != name)
            && (Expired(first) ==>
                  && r.out == Ok(false)
                  && r.tables == t.(users := r.tables.users)
                  && forall x :: x in r.tables.users <==> x in t.users && x != first)
            && (!Expired(first) ==> r == Step(t, Ok(true))))
  {
    var found := Named(t.users, name);
    if found != [] {
      NamedHeadIsFirst(t.users, name);
    } else if fw(t, Connect(UserCheck)).None? {
      assert forall x :: x in t.users ==> x.name != name ==> x !in found;
    }
  }

  /** `remove_existing_user` returns whether a record named `name` existed, and removes
      exactly the first such record. */
  lemma RemoveExistingUserOutcome(t: Tables, name: string, fw: Firmware)
    requires WellFormed(t)
    ensures var r := RemoveExistingUserSpec(t, name, fw);
      && r.tables == t.(users := r.tables.users)
      && (fw(t, Connect(UserRemoval)).Some? ==> r == Step(t, Err(fw(t, Connect(UserRemoval)).value)))
      && (r.out.Ok? ==> (r.out.value <==> exists x :: x in t.users && x.name == name))
      && (r.out == Ok(false) ==> r.tables == t)
      && (r.out == Ok(true) ==>
            forall x :: x in r.tables.users <==> x in t.users && x != Named(t.users, name)[0])
  {
    var found := Named(t.users, name);
    if found != [] {
      assert found[0] in found;
    }
  }

  /** After `remove_existing_user` succeeds on a table with at most one record named
      `name`, no record has that name and the records of every other name are as before. */
  lemma RemoveExistingClearsName(t: Tables, name: string, fw: Firmware)
    requires WellFormed(t)
    requires |Named(t.users, name)| <= 1
    requires RemoveExistingUserSpec(t, name, fw).out.Ok?
    ensures var users := RemoveExistingUserSpec(t, name, fw).tables.users;
      && Named(users, name) == []
      && forall n :: n != name ==> Named(users, n) == Named(t.users, n)
  {
    var found := Named(t.users, name);
    var users := RemoveExistingUserSpec(t, name, fw).tables.users;
    if found != [] {
      var gone := found[0];
      assert found == [gone];
      assert users == WithoutUser(t.users, gone.id);
      NamedWithoutUser(t.users, gone.id, name);
      assert WithoutUser([gone], gone.id) == [];
      forall n | n != name
        ensures Named(users, n) == Named(t.users, n)
      {
        NamedWithoutUser(t.users, gone.id, n);
        assert gone in found;
        assert forall x :: x in Named(t.users, n) ==> x.id != gone.id;
        WithoutAbsentUser(Named(t.users, n), gone.id);
      }
    } else {
      assert users == t.users;
    }
  }

  /** `add_user` replaces whatever record had the name, expired or not: when at most one
      record had the name before, exactly one has it afterwards, the new one, and the
      records of every other name are untouched. */
  lemma AddUserLeavesOne(t: Tables, name: string, password: string, time: string, fw: Firmware)
    requires WellFormed(t)
    requires |Named(t.users, name)| <= 1
    ensures var r := AddUserSpec(t, name, password, time, fw);
      r.out.Ok? ==>
        && Named(r.tables.users, name) == [NewUser(t.nextId, name, password, time)]
        && (forall n :: n != name ==> Named(r.tables.users, n) == Named(t.users, n))
        && r.tables.active == t.active && r.tables.hosts == t.hosts
  {
    var r := AddUserSpec(t, name, password, time, fw);
    if r.out.Ok? {
      var added := NewUser(t.nextId, name, password, time);
      var t1 := RemoveExistingUserSpec(t, name, fw).tables;
      assert r.tables.users == t1.users + [added];
      RemoveExistingClearsName(t, name, fw);
      NamedConcat(t1.users, [added], name);
      forall n | n != name
        ensures Named(r.tables.users, n) == Named(t.users, n)
      {
        NamedConcat(t1.users, [added], n);
        assert Named([added], n) == [];
      }
    }
  }

  /** On success `remove_active_session_by_mac` returns true and leaves no session with an
      id whose MAC matches ignoring case; every other session stays. An unreachable device
      yields false and no change. */
  lemma RemoveByMacOutcome(t: Tables, mac: string, fw: Firmware)
    requires WellFormed(t)
    ensures var r := RemoveByMacSpec(t, mac, fw);
      && r.tables == t.(active := r.tables.active)
      && (r.out <==> fw(t, Connect(SessionsByMac)).None?)
      && (!r.out ==> r.tables == t)
      && (r.out ==> forall x :: x in r.tables.active <==>
                                 x in t.active && !(MacMatches(x.mac, mac) && x.id.Some?))
  {
    RemoveListed(t.active, WithMac(t.active, mac));
  }

  /** The same for `remove_active_session_by_ip`, on sessions whose address is `ip`. */
  lemma RemoveByIpOutcome(t: Tables, ip: string, fw: Firmware)
    requires WellFormed(t)
    ensures var r := RemoveByIpSpec(t, ip, fw);
      && r.tables == t.(active := r.tables.active)
      && (r.out <==> fw(t, Connect(SessionsByIp)).None?)
      && (!r.out ==> r.tables == t)
      && (r.out ==> forall x :: x in r.tables.active <==>
                                 x in t.active && !(x.address == Some(ip) && x.id.Some?))
  {
    RemoveListed(t.active, AtAddress(t.active, ip));
  }

  /** `disconect_active_hotspot_user` returns true exactly when the user had a session, and
      then every session of the user is gone and every other session stays. A session of
      the user without an id raises, after the sessions listed before it were removed. */
  lemma DisconnectOutcome(t: Tables, name: string, fw: Firmware)
    requires WellFormed(t)
    ensures var r := DisconnectSpec(t, name, fw);
      var found := OfUser(t.active, name);
      && r.tables == t.(active := r.tables.active)
      && (fw(t, Connect(UserSessions)).Some? ==> r == Step(t, Err(fw(t, Connect(UserSessions)).value)))
      && (r.out.Ok? ==> (r.out.value <==> exists x :: x in t.active && x.user == Some(name)))
      && (r.out == Ok(false) ==> r.tables == t)
      && (r.out == Ok(true) ==>
            forall x :: x in r.tables.active <==> x in t.active && x.user != Some(name))
      && (fw(t, Connect(UserSessions)).None? && r.out.Err? ==>
            var k := FirstWithoutId(found);
            && k < |found| && found[k].user == Some(name) && found[k].id.None?
            && forall x :: x in r.tables.active <==> x in t.active && x !in found[..k])
  {
    var found := OfUser(t.active, name);
    var k := FirstWithoutId(found);
    if fw(t, Connect(UserSessions)).None? && found != [] {
      assert forall m :: m in found[..k] ==> m in found;
      RemoveListed(t.active, found[..k]);
      forall x | x in found[..k] ensures x.id.Some? {
        var j :| 0 <= j < k && found[..k][j] == x;
      }
      if k == |found| {
        assert found[..k] == found;
      } else {
        assert found[k] in found;
      }
    } else if fw(t, Connect(UserSessions)).None? {
      assert forall x :: x in t.active && x.user == Some(name) ==> x in found;
    }
  }

  /** A successful `login_user` bound the MAC to the first host entry whose MAC matches,
      whatever the `ip` argument was, and the device added one session for it. When the
      clean-up of the MAC's sessions went through, the MAC then has exactly one session
      with an id, the new one; when the clean-up failed the login still went ahead, and
      the MAC's earlier sessions remain beside the new one. Sessions of other MACs stay
      and the user and host tables are untouched. */
  lemma LoginSucceeded(t: Tables, mac: string, ip: string, fw: Firmware)
    requires WellFormed(t)
    requires LoginSpec(t, mac, ip, fw).out.Ok?
    ensures var r := LoginSpec(t, mac, ip, fw);
      var cleanup := RemoveByMacSpec(t, mac, fw);
      var matching := HostsWithMac(t.hosts, mac);
      && fw(cleanup.tables, Connect(HostLookup)).None?
      && matching != []
      && (exists k :: 0 <= k < |t.hosts| && t.hosts[k] == matching[0] &&
                      forall j :: 0 <= j < k ==> !MacMatches(t.hosts[j].mac, mac))
      && var loginIp := LoginAddress(matching[0]);
      && var added := LoggedIn(t.nextId, mac, loginIp);
      && loginIp != ""
      && fw(cleanup.tables, Login(mac, mac, mac, loginIp)).None?
      && r.tables.users == t.users && r.tables.hosts == t.hosts
      && added in r.tables.active
      && (forall x :: x in t.active && !MacMatches(x.mac, mac) ==> x in r.tables.active)
      && (cleanup.out ==>
            && r.tables.active == RemoveEach(t.active, WithMac(t.active, mac)) + [added]
            && (forall x :: x in r.tables.active && x.id.Some? && MacMatches(x.mac, mac) <==> x == added))
      && (!cleanup.out ==> r.tables.active == t.active + [added])
  {
    var r := LoginSpec(t, mac, ip, fw);
    var matching := HostsWithMac(t.hosts, mac);
    HostsWithMacHeadIsFirst(t.hosts, mac);
    var loginIp := LoginAddress(matching[0]);
    var added := LoggedIn(t.nextId, mac, loginIp);
    RemoveListed(t.active, WithMac(t.active, mac));
    var cleanup := RemoveByMacSpec(t, mac, fw);
    assert r.tables.active == cleanup.tables.active + [added];
    assert MacMatches(added.mac, mac);
  }

  /** A failed `login_user` leaves the tables as the session clean-up left them; a device
      that cannot be reached, a missing host entry and an empty address are failures. */
  lemma LoginFailures(t: Tables, mac: string, ip: string, fw: Firmware)
    ensures var r := LoginSpec(t, mac, ip, fw);
      var cleared := RemoveByMacSpec(t, mac, fw).tables;
      var matching := HostsWithMac(t.hosts, mac);
      && (r.out.Err? ==> r.tables == cleared)
      && (fw(cleared, Connect(HostLookup)).Some? ==> r.out == Err(Classify(fw(cleared, Connect(HostLookup)).value, mac, "")))
      && (fw(cleared, Connect(HostLookup)).None? && matching == [] ==>
            r.out == Err(Classify(HostNotFoundMessage(mac), mac, "")))
      && (fw(cleared, Connect(HostLookup)).None? && matching != [] && LoginAddress(matching[0]) == "" ==>
            r.out == Err(Classify(NoAddressMessage(mac), mac, "")))
  {
    var cleared := RemoveByMacSpec(t, mac, fw).tables;
    assert cleared.hosts == t.hosts;
  }

  /** The `ip` argument of `login_user` makes no difference. */
  lemma LoginIgnoresIp(t: Tables, mac: string, ip: string, other: string, fw: Firmware)
    ensures LoginSpec(t, mac, ip, fw) == LoginSpec(t, mac, other, fw)
  {
  }

  /** The classifier tests the phrases in a fixed order on the lower-cased message; the
      first one found decides, and a message with none of them re-raises unchanged. */
  lemma ClassifyOrder(message: string, mac: string, loginIp: string)
    ensures var e := Classify(message, mac, loginIp);
      var m := Lower(message);
      && (e == ReAddUser <==> Contains(m, "your uptime limit reached"))
      && (e == UserNotFound(mac) <==>
            !Contains(m, "your uptime limit reached") && Contains(m, "no such user"))
      && (e == Refused(message) <==>
            !Contains(m, "your uptime limit reached") && !Contains(m, "no such user") &&
            Contains(m, "connection refused"))
      && (e == UnknownHost(loginIp) <==>
            !Contains(m, "your uptime limit reached") && !Contains(m, "no such user") &&
            !Contains(m, "connection refused") && Contains(m, "unknown host"))
      && (e == LoginFailed(message) <==>
            !Contains(m, "your uptime limit reached") && !Contains(m, "no such user") &&
            !Contains(m, "connection refused") && !Contains(m, "unknown host"))
      && (e.Refused? || e.LoginFailed? ==> ErrorText(e) == message)
  {
  }

  /** Messages differing only in letter case are classified alike. */
  lemma ClassifyIgnoresCase(a: string, b: string, mac: string, loginIp: string)
    requires Lower(a) == Lower(b)
    ensures Classify(a, mac, loginIp).ReAddUser? == Classify(b, mac, loginIp).ReAddUser?
    ensures Classify(a, mac, loginIp).UserNotFound? == Classify(b, mac, loginIp).UserNotFound?
    ensures Classify(a, mac, loginIp).Refused? == Classify(b, mac, loginIp).Refused?
    ensures Classify(a, mac, loginIp).UnknownHost? == Classify(b, mac, loginIp).UnknownHost?
    ensures Classify(a, mac, loginIp).LoginFailed? == Classify(b, mac, loginIp).LoginFailed?
  {
  }

  /** An example message containing the uptime-limit phrase, with a capital letter at its
      start, becomes the re-add signal, whose text is `Readd user`. */
  lemma UptimeLimitWording(mac: string, loginIp: string)
    ensures Classify("Your uptime limit reached", mac, loginIp) == ReAddUser
    ensures ErrorText(Classify("Your uptime limit reached", mac, loginIp)) == "Readd user"
  {
    var lowered := Lower("Your uptime limit reached");
    LowerUptimeLimit();
    assert StartsWith(lowered, "your uptime limit reached");
  }

  /** The example uptime-limit message, lower-cased. */
  lemma LowerUptimeLimit()
    ensures Lower("Your uptime limit reached") == "your uptime limit reached"
  {
  }

  /** An example message containing the unknown-user phrase, with a capital letter at its
      start, becomes user-not-found. */
  lemma NoSuchUserWording(mac: string, loginIp: string)
    ensures Classify("No such user", mac, loginIp) == UserNotFound(mac)
  {
    var lowered := Lower("No such user");
    LowerNoSuchUser();
    NoShortOccurrence(lowered, "your uptime limit reached");
    assert StartsWith(lowered, "no such user");
  }

  /** The example unknown-user message, lower-cased. */
  lemma LowerNoSuchUser()
    ensures Lower("No such user") == "no such user"
  {
  }

  // ----- the agent's operations on the device -----

  /** The `Mikrotik` object together with the device tables it acts on. Every method
      opens its own connection, whose failure the firmware `fw` decides. */
  class Mikrotik {
    var users: seq<User>
    var active: seq<Session>
    var hosts: seq<Host>
    var nextId: nat

    function State(): Tables
      reads this
    {
      Tables(users, active, hosts, nextId)
    }

    predicate Valid()
      reads this
    {
      WellFormed(State())
    }

    constructor (t: Tables)
      requires WellFormed(t)
      ensures Valid() && State() == t
    {
      users, active, hosts, nextId := t.users, t.active, t.hosts, t.nextId;
    }

    method UserExists(username: string, fw: Firmware) returns (r: Result<bool, string>)
      requires Valid()
      modifies this
      ensures Valid()
      ensures Step(State(), r) == UserExistsSpec(old(State()), username, fw)
    {
      var failure := fw(State(), Connect(UserCheck));
      if failure.Some? {
        return Err(failure.value);
      }
      var existing := Named(users, username);
      if existing != [] {
        var details := existing[0];
        var uptime := ParseMikrotikTime(details.uptime.GetOr("0s"));
        var limit := ParseMikrotikTime(details.limitUptime.GetOr("0s"));
        if limit != 0 && uptime >= limit {
          users := WithoutUser(users, details.id);
          return Ok(false);
        }
        return Ok(true);
      }
      return Ok(false);
    }

    method RemoveExistingUser(username: string, fw: Firmware) returns (r: Result<bool, string>)
      requires Valid()
      modifies this
      ensures Valid()
      ensures Step(State(), r) == RemoveExistingUserSpec(old(State()), username, fw)
    {
      var failure := fw(State(), Connect(UserRemoval));
      if failure.Some? {
        return Err(failure.value);
      }
      var existing := Named(users, username);
      if existing != [] {
        users := WithoutUser(users, existing[0].id);
        return Ok(true);
      }
      return Ok(false);
    }

    method AddUser(username: string, password: string, time: string, fw: Firmware)
      returns (r: Result<(), string>)
      requires Valid()
      modifies this
      ensures Valid()
      ensures Step(State(), r) == AddUserSpec(old(State()), username, password, time, fw)
    {
      var removed := RemoveExistingUser(username, fw);
      if removed.Err? {
        return Err(removed.error);
      }
      var failure := fw(State(), Connect(AccountCreation));
      if failure.Some? {
        return Err(failure.value);
      }
      var rejection := fw(State(), AddAccount(username, password, "default", time));
      if rejection.Some? {
        return Err(rejection.value);
      }
      users := users + [NewUser(nextId, username, password, time)];
      nextId := nextId + 1;
      return Ok(());
    }

    /** One removal request per listed session that has an id, in list order. */
    method RemoveSessions(listed: seq<Session>)
      modifies this
      ensures active == RemoveEach(old(active), listed)
      ensures users == old(users) && hosts == old(hosts) && nextId == old(nextId)
    {
      for i := 0 to |listed|
        invariant RemoveEach(active, listed[i..]) == RemoveEach(old(active), listed)
        invariant users == old(users) && hosts == old(hosts) && nextId == old(nextId)
      {
        assert listed[i..][1..] == listed[i + 1..];
        if listed[i].id.Some? {
          active := WithoutSession(active, listed[i].id.value);
        }
      }
      assert listed[|listed|..] == [];
    }

    method RemoveActiveSessionByMac(mac: string, fw: Firmware) returns (ok: bool)
      requires Valid()
      modifies this
      ensures Valid()
      ensures Step(State(), ok) == RemoveByMacSpec(old(State()), mac, fw)
    {
      if fw(State(), Connect(SessionsByMac)).Some? {
        return false;
      }
      var matching := WithMac(active, mac);
      if matching == [] {
        return true;
      }
      RemoveSessions(matching);
      return true;
    }

    method RemoveActiveSessionByIp(ip: string, fw: Firmware) returns (ok: bool)
      requires Valid()
      modifies this
      ensures Valid()
      ensures Step(State(), ok) == RemoveByIpSpec(old(State()), ip, fw)
    {
      if fw(State(), Connect(SessionsByIp)).Some? {
        return false;
      }
      var sessions := AtAddress(active, ip);
      if sessions == [] {
        return true;
      }
      RemoveSessions(sessions);
      return true;
    }

    method DisconnectActiveHotspotUser(username: string, fw: Firmware) returns (r: Result<bool, string>)
      requires Valid()
      modifies this
      ensures Valid()
      ensures Step(State(), r) == DisconnectSpec(old(State()), username, fw)
    {
      var failure := fw(State(), Connect(UserSessions));
      if failure.Some? {
        return Err(failure.value);
      }
      var sessions := OfUser(active, username);
      if sessions == [] {
        return Ok(false);
      }
      var complete := RemoveSessionsWithIds(sessions);
      if !complete {
        return Err(MissingIdMessage);
      }
      return Ok(true);
    }

    /** One removal request per listed session, in list order, stopping at the first
        session without an id; `complete` tells whether every listed session had one. */
    method RemoveSessionsWithIds(listed: seq<Session>) returns (complete: bool)
      modifies this
      ensures complete <==> FirstWithoutId(listed) == |listed|
      ensures active == RemoveEach(old(active), listed[..FirstWithoutId(listed)])
      ensures users == old(users) && hosts == old(hosts) && nextId == old(nextId)
    {
      ghost var k := FirstWithoutId(listed);
      for i := 0 to |listed|
        invariant i <= k
        invariant RemoveEach(active, listed[i..k]) == RemoveEach(old(active), listed[..k])
        invariant users == old(users) && hosts == old(hosts) && nextId == old(nextId)
      {
        if listed[i].id.None? {
          assert listed[i..k] == [];
          return false;
        }
        assert listed[i..k][1..] == listed[i + 1..k];
        active := WithoutSession(active, listed[i].id.value);
      }
      assert listed[..k] == listed;
      return true;
    }

    method LoginUser(mac: string, ip: string, fw: Firmware) returns (r: Result<(), LoginError>)
      requires Valid()
      modifies this
      ensures Valid()
      ensures Step(State(), r) == LoginSpec(old(State()), mac, ip, fw)
    {
      var cleared := RemoveActiveSessionByMac(mac, fw);
      var failure := fw(State(), Connect(HostLookup));
      if failure.Some? {
        return Err(Classify(failure.value, mac, ""));
      }
      var matching := HostsWithMac(hosts, mac);
      if matching == [] {
        return Err(Classify(HostNotFoundMessage(mac), mac, ""));
      }
      var loginIp := LoginAddress(matching[0]);
      if loginIp == "" {
        return Err(Classify(NoAddressMessage(mac), mac, loginIp));
      }
      var refusal := fw(State(), Login(mac, mac, mac, loginIp));
      if refusal.Some? {
        return Err(Classify(refusal.value, mac, loginIp));
      }
      active := active + [LoggedIn(nextId, mac, loginIp)];
      nextId := nextId + 1;
      return Ok(());
    }
  }
}
