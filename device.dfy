/** The hotspot device as the agent sees it: three tables of records, the filtered reads
    the agent issues against them, the removals it requests, and the device's answers
    to the requests whose outcome the agent cannot predict. */
module Device {
  import opened Basics
  import opened Text

  /** A record of the hotspot user table. `limit-uptime` and `uptime` may be absent. */
  datatype User = User(id: nat, name: string, password: string, profile: string,
                       limitUptime: Option<string>, uptime: Option<string>)

  /** A record of the active-session table; the agent reads each attribute with a
      default, so each may be absent. */
  datatype Session = Session(id: Option<nat>, mac: Option<string>, address: Option<string>,
                             user: Option<string>)

  /** A record of the host table: a MAC address, the address seen for it and, behind
      NAT, the address it is translated to. */
  datatype Host = Host(mac: Option<string>, address: Option<string>, toAddress: Option<string>)

  /** The device state. Record ids are opaque tokens the device hands out; here they
      are drawn from `nextId`. */
  datatype Tables = Tables(users: seq<User>, active: seq<Session>, hosts: seq<Host>, nextId: nat)

  /** The places where an operation opens its own API connection and makes its first
      read. A failure of the connection and a failure of that read reach the same
      handler, so one answer of the device stands for both. */
  datatype Site =
    | UserCheck        // `user_exists`: connection, read of the user table by name
    | UserRemoval      // `remove_existing_user`: connection, read of the user table by name
    | AccountCreation  // `add_user`'s own connection, before the account is added
    | SessionsByMac    // `remove_active_session_by_mac`: connection, read of the active table
    | SessionsByIp     // `remove_active_session_by_ip`: connection, read by address
    | UserSessions     // `disconect_active_hotspot_user`: connection, read by user
    | HostLookup       // `login_user`'s own connection, read of the host table

  /** The requests whose outcome the device decides: opening a connection (and its first
      read) at a given site, adding a user, and logging a session in. */
  datatype Request =
    | Connect(site: Site)
    | AddAccount(name: string, password: string, profile: string, limitUptime: string)
    | Login(user: string, password: string, mac: string, ip: string)

  /** The device's answer to a request made while it holds the given tables: `None`
      when it accepts, `Some(message)` when it fails with that message. */
  type Firmware = (Tables, Request) -> Option<string>

  /** The tables after an operation, and what the operation returned. */
  datatype Step<T> = Step(tables: Tables, out: T)

  /** The device's own bookkeeping: an id names one record, and every id was handed out. */
  predicate WellFormed(t: Tables) {
    (forall a, b :: a in t.users && b in t.users && a.id == b.id ==> a == b) &&
    (forall a :: a in t.users ==> a.id < t.nextId) &&
    SessionIdsDetermine(t.active) &&
    (forall a :: a in t.active && a.id.Some? ==> a.id.value < t.nextId)
  }

  predicate SessionIdsDetermine(ss: seq<Session>) {
    forall a, b :: a in ss && b in ss && a.id.Some? && a.id == b.id ==> a == b
  }

  // ----- users -----

  /** The device's answer to a read of the user table filtered by `name`, in table order. */
  function Named(us: seq<User>, name: string): (r: seq<User>)
    ensures forall x :: x in r <==> x in us && x.name == name
  {
    if us == [] then []
    else (if us[0].name == name then [us[0]] else []) + Named(us[1..], name)
  }

  /** The head of a read by name is the first record of the table with that name. */
  lemma {:induction false} NamedHeadIsFirst(us: seq<User>, name: string)
    requires Named(us, name) != []
    ensures exists k :: 0 <= k < |us| && us[k] == Named(us, name)[0] &&
                        forall j :: 0 <= j < k ==> us[j].name != name
    decreases |us|
  {
    if us[0].name != name {
      NamedHeadIsFirst(us[1..], name);
      var k :| 0 <= k < |us[1..]| && us[1..][k] == Named(us[1..], name)[0] &&
               forall j :: 0 <= j < k ==> us[1..][j].name != name;
      assert us[k + 1] == Named(us, name)[0];
      forall j | 0 <= j < k + 1 ensures us[j].name != name {
        if j > 0 { assert us[j] == us[1..][j - 1]; }
      }
    } else {
      assert us[0] == Named(us, name)[0];
    }
  }

  lemma {:induction false} NamedConcat(a: seq<User>, b: seq<User>, name: string)
    ensures Named(a + b, name) == Named(a, name) + Named(b, name)
    decreases |a|
  {
    if a == [] {
      assert a + b == b;
    } else {
      assert (a + b)[0] == a[0] && (a + b)[1..] == a[1..] + b;
      NamedConcat(a[1..], b, name);
    }
  }

  /** The user table after the device removes the record with id `id`. */
  function WithoutUser(us: seq<User>, id: nat): (r: seq<User>)
    ensures forall x :: x in r <==> x in us && x.id != id
  {
    if us == [] then []
    else (if us[0].id == id then [] else [us[0]]) + WithoutUser(us[1..], id)
  }

  /** Reads by name of a table the device removed a record from. */
  lemma {:induction false} NamedWithoutUser(us: seq<User>, id: nat, name: string)
    ensures Named(WithoutUser(us, id), name) == WithoutUser(Named(us, name), id)
    decreases |us|
  {
    if us != [] {
      NamedWithoutUser(us[1..], id, name);
      var head := if us[0].id == id then [] else [us[0]];
      assert WithoutUser(us, id) == head + WithoutUser(us[1..], id);
      NamedConcat(head, WithoutUser(us[1..], id), name);
      if us[0].name == name {
        assert Named(head, name) == head;
        assert Named(us, name) == [us[0]] + Named(us[1..], name);
        var rest := Named(us[1..], name);
        assert ([us[0]] + rest)[0] == us[0] && ([us[0]] + rest)[1..] == rest;
        assert WithoutUser([us[0]] + rest, id) == head + WithoutUser(rest, id);
      } else {
        assert Named(head, name) == [];
        assert Named(us, name) == Named(us[1..], name);
      }
    }
  }

  /** Removing an id no record carries changes nothing. */
  lemma {:induction false} WithoutAbsentUser(us: seq<User>, id: nat)
    requires forall x :: x in us ==> x.id != id
    ensures WithoutUser(us, id) == us
    decreases |us|
  {
    if us != [] {
      assert us[0] in us;
      assert forall x :: x in us[1..] ==> x in us;
      WithoutAbsentUser(us[1..], id);
      assert [us[0]] + us[1..] == us;
    }
  }

  // ----- sessions and hosts -----

  /** `record.get('mac-address', '').lower() == mac.lower()`. */
  predicate MacMatches(recorded: Option<string>, mac: string) {
    Lower(recorded.GetOr("")) == Lower(mac)
  }

  /** The active sessions whose MAC address equals `mac` ignoring case, in table order. */
  function WithMac(ss: seq<Session>, mac: string): (r: seq<Session>)
    ensures forall x :: x in r <==> x in ss && MacMatches(x.mac, mac)
  {
    if ss == [] then []
    else (if MacMatches(ss[0].mac, mac) then [ss[0]] else []) + WithMac(ss[1..], mac)
  }

  /** The device's answer to a read of the active table filtered by `address`. */
  function AtAddress(ss: seq<Session>, ip: string): (r: seq<Session>)
    ensures forall x :: x in r <==> x in ss && x.address == Some(ip)
  {
    if ss == [] then []
    else (if ss[0].address == Some(ip) then [ss[0]] else []) + AtAddress(ss[1..], ip)
  }

  /** The device's answer to a read of the active table filtered by `user`. */
  function OfUser(ss: seq<Session>, name: string): (r: seq<Session>)
    ensures forall x :: x in r <==> x in ss && x.user == Some(name)
  {
    if ss == [] then []
    else (if ss[0].user == Some(name) then [ss[0]] else []) + OfUser(ss[1..], name)
  }

  /** The host entries whose MAC address equals `mac` ignoring case, in table order. */
  function HostsWithMac(hs: seq<Host>, mac: string): (r: seq<Host>)
    ensures forall x :: x in r <==> x in hs && MacMatches(x.mac, mac)
  {
    if hs == [] then []
    else (if MacMatches(hs[0].mac, mac) then [hs[0]] else []) + HostsWithMac(hs[1..], mac)
  }

  /** `matching_hosts[0]`: the head of the host entries for a MAC is the first entry of
      the table whose MAC matches. */
  lemma {:induction false} HostsWithMacHeadIsFirst(hs: seq<Host>, mac: string)
    requires HostsWithMac(hs, mac) != []
    ensures exists k :: 0 <= k < |hs| && hs[k] == HostsWithMac(hs, mac)[0] &&
                        forall j :: 0 <= j < k ==> !MacMatches(hs[j].mac, mac)
    decreases |hs|
  {
    if !MacMatches(hs[0].mac, mac) {
      HostsWithMacHeadIsFirst(hs[1..], mac);
      var k :| 0 <= k < |hs[1..]| && hs[1..][k] == HostsWithMac(hs[1..], mac)[0] &&
               forall j :: 0 <= j < k ==> !MacMatches(hs[1..][j].mac, mac);
      assert hs[k + 1] == HostsWithMac(hs, mac)[0];
      forall j | 0 <= j < k + 1 ensures !MacMatches(hs[j].mac, mac) {
        if j > 0 { assert hs[j] == hs[1..][j - 1]; }
      }
    } else {
      assert hs[0] == HostsWithMac(hs, mac)[0];
    }
  }

  /** `str(host.get('to-address', host.get('address', '')))`: a present `to-address`
      wins, even an empty one. */
  function LoginAddress(h: Host): (ip: string)
    ensures h.toAddress.Some? ==> ip == h.toAddress.value
    ensures h.toAddress.None? && h.address.Some? ==> ip == h.address.value
    ensures h.toAddress.None? && h.address.None? ==> ip == ""
  {
    match h.toAddress
    case Some(a) => a
    case None => h.address.GetOr("")
  }

  /** The active table after the device removes the session with id `id`. */
  function WithoutSession(ss: seq<Session>, id: nat): (r: seq<Session>)
    ensures forall x :: x in r <==> x in ss && x.id != Some(id)
  {
    if ss == [] then []
    else (if ss[0].id == Some(id) then [] else [ss[0]]) + WithoutSession(ss[1..], id)
  }

  /** The active table after one removal request per listed session that has an id, in
      list order. */
  function RemoveEach(ss: seq<Session>, listed: seq<Session>): (r: seq<Session>)
    ensures forall x :: x in r ==> x in ss
    decreases |listed|
  {
    if listed == [] then ss
    else
      var next := if listed[0].id.Some? then WithoutSession(ss, listed[0].id.value) else ss;
      RemoveEach(next, listed[1..])
  }

  /** `x` carries the id of some listed session. */
  predicate IdListed(x: Session, listed: seq<Session>) {
    x.id.Some? && exists m :: m in listed && m.id == x.id
  }

  /** The removals take out exactly the sessions whose id some listed session carries. */
  lemma {:induction false} RemoveEachMembers(ss: seq<Session>, listed: seq<Session>)
    ensures forall x :: x in RemoveEach(ss, listed) <==> x in ss && !IdListed(x, listed)
    decreases |listed|
  {
    if listed == [] {
    } else {
      var next := if listed[0].id.Some? then WithoutSession(ss, listed[0].id.value) else ss;
      RemoveEachMembers(next, listed[1..]);
      assert listed == [listed[0]] + listed[1..];
      forall x ensures IdListed(x, listed) <==> (x.id.Some? && x.id == listed[0].id) || IdListed(x, listed[1..]) {
        if IdListed(x, listed) {
          var m :| m in listed && m.id == x.id;
          if m != listed[0] {
            assert m in listed[1..];
          }
        }
      }
    }
  }

  /** When ids determine sessions and every listed session is in the table, the removals
      take out exactly the listed sessions that have an id, and keep everything else. */
  lemma RemoveListed(ss: seq<Session>, listed: seq<Session>)
    requires SessionIdsDetermine(ss)
    requires forall m :: m in listed ==> m in ss
    ensures forall x :: x in RemoveEach(ss, listed) <==> x in ss && !(x in listed && x.id.Some?)
  {
    RemoveEachMembers(ss, listed);
    forall x | x in ss && IdListed(x, listed)
      ensures x in listed
    {
      var m :| m in listed && m.id == x.id;
      assert m == x;
    }
  }
}
