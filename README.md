# Hotspot agent: verified model

This project models the agent that manages captive-portal ("hotspot") users on a MikroTik
router for a remote control server. The agent fetches commands from the server. For each
command it creates an account or logs a device in by its MAC address, then reports the
outcome back to the server.

The model covers two source files.

- `mikrotik.py`, class `Mikrotik`:
  - parsing the router's duration strings;
  - the account operations: existence and expiry check, removal, creation;
  - the three ways of tearing down active sessions: by MAC, by address, by user name;
  - `login_user`, with its host-entry resolution and its error classification.
- `app.py`:
  - `execute_command`, which dispatches one command;
  - one pass of the poll loop over a fetched batch, which executes each command and
    reports it.

## Modules

- `Basics` (`basics.dfy`): `Option` and `Result`.
- `Text` (`text.dfy`): ASCII lower-casing and Python's substring test `needle in s`.
- `Duration` (`duration.dfy`): `_parse_mikrotik_time`. It has:
  - a model of `re.findall(r'(\d+)([wdhms])', s)`;
  - the summing loop as a method;
  - a reference reading of a duration (every maximal digit run followed by a unit
    letter), proved equal to what the code computes.
- `Device` (`device.dfy`): the router state that the agent reads and changes.
  - `Tables` holds the user table, the active-session table and the host table, plus the
    next record id the router will hand out.
  - `WellFormed` is the router's own bookkeeping: an id names one record.
  - The table queries and removals, and lemmas about them.
- `Hotspot` (`hotspot.dfy`): one specification function per router operation, mapping the
  tables before the call to a `Step`: the tables after it, plus the returned value or the
  raised error. Lemmas state what each operation promises. Class `Mikrotik` holds the
  tables as fields; each of its methods is proved to follow its specification function.
- `App` (`app.py`'s part, `app.dfy`):
  - `ExecuteSpec` and the method `ExecuteCommand`;
  - `Batch` and the method `PollOnce`;
  - lemmas that connect a command's result to the router operation it ran.

The router's own decisions are a parameter `fw: Firmware` of every operation. The agent
cannot see these decisions, so the model does not fix them. There are three:

- whether a connection can be opened;
- whether an account creation is accepted;
- whether a login is accepted.

`fw` answers `None` for success or `Some(message)` for the text of the exception raised.
It is a function of the current tables and the request. A connection request names the
place in the code that opens it, so two connections on unchanged tables, such as the
session clean-up and the host lookup in `login_user`, can get different answers. The
same request at the same site on unchanged tables gets the same answer, also from one
command of a poll pass to the next (see "## Left out").

## Where the code and its design description differ (the model follows the code)

- `add_user` does not skip an existing account. It always calls `remove_existing_user`
  and then creates a new account (`AddUserLeavesOne`).
- `execute_command` does not retry a login after the re-add signal:
  - there is no re-creation of the account and no second login;
  - the result is the error `Readd user` (`DispatchedCommand`).
- The poll loop runs the batch in the order received, without sorting by id and without
  checking its shape (`BatchInOrder`, `BatchReportAt`).
- `login_user` ignores its `ip` argument. The address always comes from the first host
  entry for the MAC (`LoginIgnoresIp`).
- The uptime-limit phrase that is matched is `your uptime limit reached`, not just
  `uptime limit`.

## Model

| member | source | states |
|---|---|---|
| Text.Lower | mikrotik.py:51 | lower-casing keeps the length, turns each capital letter into its small letter, leaves every other character as it is, and leaves no capital letter |
| Text.LowerIdempotent | mikrotik.py:272 | lower-casing an already lower-cased message changes nothing |
| Text.Contains | mikrotik.py:273-282 | Python's `needle in s`, as a scan that tries each start position from the left (meaning stated by `ContainsIff`) |
| Text.ContainsIff | mikrotik.py:273-282 | the left-to-right scan of `in` finds the phrase exactly when it occurs at some index |
| Text.ContainsWhereOccurs | mikrotik.py:273-282 | an occurrence anywhere in the message is found |
| Text.NoShortOccurrence | mikrotik.py:273-282 | a phrase longer than the message is never found in it |
| Duration.UnitSeconds | mikrotik.py:122 | the `time_units` table: a week, a day, an hour, a minute and a second in seconds |
| Duration.DigitsValue | mikrotik.py:125 | `int(num)` of a string of decimal digits, most significant first, the empty string reading as 0 |
| Duration.Total | mikrotik.py:124-125 | the loop's sum: each match's number times its unit's seconds, added over the matches |
| Duration.DigitRun | mikrotik.py:123 | the greedy `\d+` run at the start of a string is maximal and all digits |
| Duration.RegexMatchAtStart | mikrotik.py:123 | with backtracking, `\d+[wdhms]` can only match by taking the whole digit run |
| Duration.FindAll | mikrotik.py:123 | every match `findall` returns is a non-empty digit string and a unit letter |
| Duration.FindAllSkipsRun | mikrotik.py:123 | a digit run that no unit letter follows yields no match inside it |
| Duration.FindAllTotalIsRunTotal | mikrotik.py:122-126 | the sum over the matches equals the reference reading (each maximal run times its unit) |
| Duration.FastPathRedundant | mikrotik.py:119-120 | the `'0s'` fast path returns what the general rule would |
| Duration.Seconds | mikrotik.py:117-126 | `_parse_mikrotik_time` as written: `0s` is zero, otherwise the sum over the `findall` matches of number times unit (meaning stated by `SecondsIsRunTotal`) |
| Duration.SecondsIsRunTotal | mikrotik.py:117-126 | `_parse_mikrotik_time` is the reference reading of a duration |
| Duration.DigitRunOfConcat | mikrotik.py:123 | a digit run ending inside the first part is not changed by what follows |
| Duration.SeparatorContributesNothing | mikrotik.py:122-126 | a character that is neither digit nor unit splits a duration into two independently summed parts |
| Duration.ExampleHoursMinutes | mikrotik.py:118 | `2h30m` is 9000 seconds |
| Duration.MinutesExample | mikrotik.py:122-125 | `30m` is 1800 seconds |
| Duration.ExampleWeek | mikrotik.py:122 | `1w` is 604800 seconds |
| Duration.ExampleZero | mikrotik.py:119-126 | the empty string and `0s` are both zero |
| Duration.ParseMikrotikTime | mikrotik.py:117-126 | the loop over the matches returns the value of `Seconds`, hence the reference reading |
| Device.Named | mikrotik.py:142 | the router's read by name returns exactly the records with that name |
| Device.NamedHeadIsFirst | mikrotik.py:145 | the head of a read by name is the first record of the table with that name |
| Device.NamedConcat | mikrotik.py:209-214 | a read by name after appending a record splits over the two parts |
| Device.WithoutUser | mikrotik.py:145 | removing by id keeps exactly the records with another id |
| Device.NamedWithoutUser | mikrotik.py:142-145 | a read by name commutes with removal by id |
| Device.WithoutAbsentUser | mikrotik.py:145 | removing an id no record carries changes nothing |
| Device.MacMatches | mikrotik.py:51 | a recorded MAC (absent reads as the empty string) equals the given MAC after both are lower-cased |
| Device.WithMac | mikrotik.py:51 | the sessions kept are exactly those whose MAC equals the given one, ignoring case |
| Device.AtAddress | mikrotik.py:78 | the router's read by address returns exactly the sessions at that address |
| Device.OfUser | mikrotik.py:167 | the router's read by user returns exactly that user's sessions |
| Device.HostsWithMac | mikrotik.py:243 | the host entries kept are exactly those whose MAC equals the given one, ignoring case |
| Device.HostsWithMacHeadIsFirst | mikrotik.py:243-251 | `matching_hosts[0]` is the first entry of the host table whose MAC matches, ignoring case |
| Device.LoginAddress | mikrotik.py:251-252 | a present `to-address` wins, else `address`, else the empty string |
| Device.WithoutSession | mikrotik.py:62 | removing by id keeps exactly the sessions with another id |
| Device.RemoveEach | mikrotik.py:58-66 | one removal per listed session with an id only ever takes sessions out |
| Device.RemoveEachMembers | mikrotik.py:58-66 | the removals take out exactly the sessions whose id a listed session with an id carries |
| Device.RemoveListed | mikrotik.py:58-66 | when ids name sessions, the removals take out exactly the listed sessions that have an id |
| Hotspot.Expired | mikrotik.py:189-191 | a record is expired when its limit (absent reads as `0s`) is not zero and its uptime (absent reads as `0s`) reaches it |
| Hotspot.UserExistsSpec | mikrotik.py:180-201 | `user_exists` keeps the router's tables well formed |
| Hotspot.RemoveExistingUserSpec | mikrotik.py:128-152 | `remove_existing_user` keeps the router's tables well formed |
| Hotspot.NewUser | mikrotik.py:209-214 | the record `add` creates: the next id, the name, the password, profile `default`, the given uptime limit, no uptime yet |
| Hotspot.AddUserSpec | mikrotik.py:203-218 | `add_user` keeps the router's tables well formed |
| Hotspot.RemoveByMacSpec | mikrotik.py:35-72 | `remove_active_session_by_mac` keeps the router's tables well formed |
| Hotspot.RemoveByIpSpec | mikrotik.py:74-99 | `remove_active_session_by_ip` keeps the router's tables well formed |
| Hotspot.FirstWithoutId | mikrotik.py:170-171 | the index where `user['id']` first fails: every earlier session has an id, that one has none |
| Hotspot.MissingIdMessage | mikrotik.py:171 | `'id'`, the text of the `KeyError` raised by `user['id']` on a session without an id |
| Hotspot.DisconnectSpec | mikrotik.py:154-178 | `disconect_active_hotspot_user` keeps the router's tables well formed |
| Hotspot.Classify | mikrotik.py:271-287 | re-raised errors (`connection refused` and the fallback) carry the original message |
| Hotspot.HostNotFoundMessage | mikrotik.py:248 | `Host entry not found for MAC <mac>` |
| Hotspot.NoAddressMessage | mikrotik.py:255 | `No valid IP found for MAC <mac>` |
| Hotspot.ErrorText | mikrotik.py:275-287 | the `str()` of each raised error: `Readd user`, `User not found: <mac>`, `Unknown host IP: <ip>`, or the re-raised message |
| Hotspot.LoggedIn | mikrotik.py:263-268 | the session a successful login adds: the new id, user and MAC both the MAC, at the login address |
| Hotspot.LoginSpec | mikrotik.py:220-287 | `login_user` keeps the router's tables well formed |
| Hotspot.UserExistsOutcomes | mikrotik.py:180-201 | no record: false, no change. Expired first record: exactly that record removed, false. Otherwise true, no change. Unreachable router: raises |
| Hotspot.RemoveExistingUserOutcome | mikrotik.py:128-152 | returns whether a record had the name; removes exactly the first such record and nothing else; raises when unreachable |
| Hotspot.RemoveExistingClearsName | mikrotik.py:128-152 | with at most one record per name, a successful removal leaves none with that name and other names untouched |
| Hotspot.AddUserLeavesOne | mikrotik.py:203-218 | after a successful `add_user`, exactly one record has the name (the new one, profile `default`, given limit); other names and the session and host tables are unchanged |
| Hotspot.RemoveByMacOutcome | mikrotik.py:35-72 | true exactly when the router is reachable; then no session with an id has the MAC (ignoring case) and all others stay; false means no change |
| Hotspot.RemoveByIpOutcome | mikrotik.py:74-99 | true exactly when the router is reachable; then no session with an id is at the address and all others stay; false means no change |
| Hotspot.DisconnectOutcome | mikrotik.py:154-178 | true exactly when the user had a session, and then all of them are gone and the others stay; a session without an id raises after the earlier ones were removed |
| Hotspot.LoginSucceeded | mikrotik.py:220-270 | on success, the device was reached and the login accepted for the first host entry with the MAC and its non-empty address; the new session is present, other MACs' sessions stay, user and host tables are unchanged; if the clean-up went through the new session is the MAC's only one with an id, and if it failed the earlier sessions remain beside it |
| Hotspot.LoginFailures | mikrotik.py:237-255 | a failed login leaves the tables as the session clean-up left them; an unreachable router, a missing host entry and an empty address all fail |
| Hotspot.LoginIgnoresIp | mikrotik.py:220-270 | the `ip` argument makes no difference to the outcome or to the tables |
| Hotspot.ClassifyOrder | mikrotik.py:271-287 | the phrases are tested in order on the lower-cased message, the first found decides, and a message with none is re-raised unchanged |
| Hotspot.ClassifyIgnoresCase | mikrotik.py:272 | messages differing only in letter case get the same kind of error: re-add, user not found, refused, unknown host or other failure |
| Hotspot.UptimeLimitWording | mikrotik.py:273-275 | an example message `Your uptime limit reached`, capitalised, becomes the re-add signal with text `Readd user` |
| Hotspot.LowerUptimeLimit | mikrotik.py:272 | lower-casing the example uptime-limit message gives the matched phrase |
| Hotspot.NoSuchUserWording | mikrotik.py:276-278 | an example message `No such user`, capitalised, becomes user-not-found for the MAC |
| Hotspot.LowerNoSuchUser | mikrotik.py:272 | lower-casing the example unknown-user message gives the matched phrase |
| Hotspot.Mikrotik.constructor | mikrotik.py:20-24 | the object starts on the given well-formed tables |
| Hotspot.Mikrotik.UserExists | mikrotik.py:180-201 | the method's outcome and new tables are those of `UserExistsSpec` |
| Hotspot.Mikrotik.RemoveExistingUser | mikrotik.py:128-152 | the method's outcome and new tables are those of `RemoveExistingUserSpec` |
| Hotspot.Mikrotik.AddUser | mikrotik.py:203-218 | the method's outcome and new tables are those of `AddUserSpec` |
| Hotspot.Mikrotik.RemoveSessions | mikrotik.py:58-66 | the loop of removals leaves the active table as `RemoveEach` says and touches nothing else |
| Hotspot.Mikrotik.RemoveActiveSessionByMac | mikrotik.py:35-72 | the method's outcome and new tables are those of `RemoveByMacSpec` |
| Hotspot.Mikrotik.RemoveActiveSessionByIp | mikrotik.py:74-99 | the method's outcome and new tables are those of `RemoveByIpSpec` |
| Hotspot.Mikrotik.DisconnectActiveHotspotUser | mikrotik.py:154-178 | the method's outcome and new tables are those of `DisconnectSpec` |
| Hotspot.Mikrotik.RemoveSessionsWithIds | mikrotik.py:170-171 | the loop removes the sessions before the first one without an id, and reports whether it got through them all |
| Hotspot.Mikrotik.LoginUser | mikrotik.py:220-287 | the method's outcome and new tables are those of `LoginSpec` |
| App.Success | app.py:38 | a result with status `success` and the given message |
| App.Failure | app.py:40-56 | a result with status `error` and the given message |
| App.Shown | app.py:52 | the f-string rendering of the command type: the type itself, or `None` when absent |
| App.Param | app.py:33-35 | a parameter is present exactly when its key is in `params`, and then it is the value stored under the key |
| App.Truthy | app.py:36 | Python truthiness of a text parameter: given and not empty |
| App.AddUserReady | app.py:33-36 | `username`, `password` and `time_limit` are all given and not empty |
| App.LoginReady | app.py:43-45 | `mac` and `ip` are both given and not empty |
| App.ExecuteSpec | app.py:26-56 | every result is `success` or `error`, and the router's tables stay well formed |
| App.Execute | app.py:94 | the same, for the executor used by the poll loop |
| App.Batch | app.py:86-97 | one report per command, in the same order, under the command's own id |
| App.RefusedCommand | app.py:32-52 | a command with a missing or empty parameter, or of unknown type, is an error naming the reason and leaves the router unchanged |
| App.DataOf | app.py:89 | the command's `data`, or the empty record (no type, no parameters) when absent |
| App.MissingData | app.py:89 | a command without `data` is reported as `Unknown command type: None` |
| App.DispatchedCommand | app.py:36-56 | a dispatched command calls the router exactly once; a normal return reports `User <name> added successfully` or `User <mac> logged in successfully`, an exception reports its text; the re-add signal becomes the error `Readd user`, with no retry |
| App.SuccessMeansDone | app.py:32-56 | `success` exactly when the command was dispatched and the router call returned normally |
| App.AddUserCommandSucceeded | app.py:32-38 | after a successful `add_user` command, exactly one account has the name, with the given password and limit |
| App.LoginCommandSucceeded | app.py:42-47 | after a successful `login_user` command, the MAC has a new session at the first host entry's address, other MACs' sessions and the accounts stay; it is the MAC's only session with an id when the clean-up went through, and the earlier ones remain when it failed |
| App.BatchFirst | app.py:87-97 | the first command runs first, on the tables the pass starts from |
| App.BatchAdvance | app.py:87-97 | executing and reporting one more command keeps the account of the whole pass |
| App.BatchInOrder | app.py:87-97 | a pass over `a + b` is a pass over `a`, then over `b` on the tables `a` left |
| App.BatchReportAt | app.py:87-97 | the i-th report is the result of the i-th command run on the tables its predecessors left |
| App.BatchReports | app.py:87-97 | every report of a pass is `success` or `error`, and the tables stay well formed |
| App.ExecuteCommand | app.py:26-56 | the method's result and the router's new tables are those of `ExecuteSpec` |
| App.PollOnce | app.py:86-97 | the reports and the router's final tables are those of `Batch` with `execute_command` |

## Left out

- The RouterOS API transport (`get_mt_api`, `routeros_api`) is not modelled. Only whether
  a connection opens matters, and the `Firmware` parameter decides that.
- The rest of `app.py` is left out:
  - HTTP to the control server (fetching the batch, posting reports), so a report that
    fails to post has no effect on the model;
  - the Flask status endpoint, the polling thread, the infinite loop and `sleep`.
- Configuration from the environment (`_validate_config`, `__init__`'s reads) and logging
  are left out. `logging_config.py` and `test.py` are not part of this model.
- Router failures are modelled per call site. Each place that opens a connection
  (`Device.Site`) gets its own answer from `fw`, and that answer also stands for the
  first read made on the connection, since both failures reach the same handler. The
  account-creation and login requests have their own answers too. A failure of a later
  call is not modelled: the removal of a session or an account that the first read
  returned is taken to succeed.
- Record ids are natural numbers that the router hands out in increasing order. All user
  records carry an id.
- Digits (`\d`) and lower-casing (`str.lower`) are ASCII only. Unicode digits and
  non-ASCII case mappings are not modelled.
- Command parameters are text and commands are records. JSON values of other types are
  not modelled, nor is a batch that is not a list (where the code's loop would raise and
  skip the rest of the batch).
- Hotspot.Classify: the logging f-strings at mikrotik.py:274, 277, 283 and 286 read
  `login_ip`. When the failure happens before line 252 (the router is unreachable, or no
  host entry matches), `login_ip` is unbound. In those four branches Python then raises
  its unbound-variable error instead of the classified one. The `connection refused`
  branch (mikrotik.py:279-281) logs the message, not `login_ip`, so it re-raises the
  original error, as the model does. The model classifies by the message alone and uses
  the empty string for the address in the other branches.
- App.Batch: the device's answers (`Firmware`) depend only on the tables and the
  request, and one `fw` serves the whole poll pass. A request that fails without changing
  the tables therefore fails again when a later command of the same pass repeats it on
  those tables. A router that is down for one command and back up for the next, with
  nothing changed in between, is not modelled.
- Hotspot.NewUser: the `uptime` attribute of a new account is modelled as absent, which
  `user_exists` reads as zero.
- The retry loop implied by `Mikrotik.ReAddUserError` has no counterpart in the code,
  and so none in the model.
