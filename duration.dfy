/** RouterOS duration text (`2h30m`, `1w`, `0s`) read as whole seconds, as
    `Mikrotik._parse_mikrotik_time` does it with `re.findall(r'(\d+)([wdhms])', s)`. */
module Duration {

  /** A character matched by `\d` (ASCII digits in this model). */
  predicate IsDigit(c: char) {
    '0' <= c <= '9'
  }

  /** A character matched by `[wdhms]`. */
  predicate IsUnit(c: char) {
    c == 'w' || c == 'd' || c == 'h' || c == 'm' || c == 's'
  }

  /** Seconds per unit: week, day, hour, minute, second. */
  function UnitSeconds(u: char): nat
    requires IsUnit(u)
  {
    if u == 'w' then 604800
    else if u == 'd' then 86400
    else if u == 'h' then 3600
    else if u == 'm' then 60
    else 1
  }

  predicate AllDigits(s: string) {
    forall i :: 0 <= i < |s| ==> IsDigit(s[i])
  }

  /** Python's `int()` of a run of decimal digits. */
  function DigitsValue(d: string): nat
    requires AllDigits(d)
  {
    if d == [] then 0
    else 10 * DigitsValue(d[..|d| - 1]) + (d[|d| - 1] as int - '0' as int)
  }

  /** Length of the maximal run of digits at the start of `s`. */
  function DigitRun(s: string): (n: nat)
    ensures n <= |s|
    ensures AllDigits(s[..n])
    ensures n < |s| ==> !IsDigit(s[n])
  {
    if s == [] || !IsDigit(s[0]) then 0
    else
      var m := DigitRun(s[1..]);
      assert s[..m + 1] == [s[0]] + s[1..][..m];
      m + 1
  }

  /** One element of the list `findall` returns: the captured digits and unit letter. */
  datatype Token = Token(digits: string, unit: char)

  predicate IsToken(t: Token) {
    t.digits != [] && AllDigits(t.digits) && IsUnit(t.unit)
  }

  /** `\d+[wdhms]` tried at the start of `s`, with the backtracking of `\d+`: it matches
      exactly when the maximal digit run is followed by a unit letter, because every
      shorter run is followed by a digit. */
  lemma RegexMatchAtStart(s: string, k: nat)
    requires 1 <= k < |s| && AllDigits(s[..k]) && IsUnit(s[k])
    ensures k == DigitRun(s)
  {
  }

  /** `re.findall(r'(\d+)([wdhms])', s)`: scanning from the left, a match at the current
      position is taken whole and the scan resumes behind it; where nothing matches the
      scan moves on by one character. */
  function FindAll(s: string): (ts: seq<Token>)
    ensures forall k :: 0 <= k < |ts| ==> IsToken(ts[k])
    decreases |s|
  {
    if s == [] then []
    else
      var n := DigitRun(s);
      if 0 < n < |s| && IsUnit(s[n]) then [Token(s[..n], s[n])] + FindAll(s[n + 1..])
      else FindAll(s[1..])
  }

  /** The sum the loop of `_parse_mikrotik_time` accumulates over the matches. */
  function Total(ts: seq<Token>): nat
    requires forall k :: 0 <= k < |ts| ==> IsToken(ts[k])
  {
    if ts == [] then 0
    else
      assert IsToken(ts[0]);
      DigitsValue(ts[0].digits) * UnitSeconds(ts[0].unit) + Total(ts[1..])
  }

  /** `_parse_mikrotik_time(s)`, with its `'0s'` fast path. */
  function Seconds(s: string): nat {
    if s == "0s" then 0 else Total(FindAll(s))
  }

  /** Reference reading of a duration: every maximal run of digits immediately followed by
      a unit letter contributes value times multiplier; any other character, and a digit
      run followed by anything but a unit letter, contributes nothing. */
  function RunTotal(s: string): nat
    decreases |s|
  {
    if s == [] then 0
    else
      var n := DigitRun(s);
      if n == 0 then RunTotal(s[1..])
      else if n < |s| && IsUnit(s[n]) then DigitsValue(s[..n]) * UnitSeconds(s[n]) + RunTotal(s[n + 1..])
      else RunTotal(s[n..])
  }

  /** A digit run that no unit letter follows yields no match anywhere inside it. */
  lemma {:induction false} FindAllSkipsRun(s: string)
    requires 0 < DigitRun(s)
    requires !(DigitRun(s) < |s| && IsUnit(s[DigitRun(s)]))
    ensures FindAll(s) == FindAll(s[DigitRun(s)..])
    decreases |s|
  {
    var n := DigitRun(s);
    assert FindAll(s) == FindAll(s[1..]);
    var m := DigitRun(s[1..]);
    assert m == n - 1;
    if m > 0 {
      assert s[1..][m..] == s[n..];
      FindAllSkipsRun(s[1..]);
    } else {
      assert s[1..] == s[n..];
    }
  }

  /** What `findall` and the loop compute is the reference reading. */
  lemma {:induction false} FindAllTotalIsRunTotal(s: string)
    ensures Total(FindAll(s)) == RunTotal(s)
    decreases |s|
  {
    if s != [] {
      var n := DigitRun(s);
      if n == 0 {
        FindAllTotalIsRunTotal(s[1..]);
      } else if n < |s| && IsUnit(s[n]) {
        var t := Token(s[..n], s[n]);
        var rest := FindAll(s[n + 1..]);
        assert FindAll(s) == [t] + rest;
        assert ([t] + rest)[1..] == rest;
        FindAllTotalIsRunTotal(s[n + 1..]);
      } else {
        FindAllSkipsRun(s);
        FindAllTotalIsRunTotal(s[n..]);
      }
    }
  }

  /** The `'0s'` fast path returns what the general rule returns, so it is redundant:
      `_parse_mikrotik_time` is the sum over the matches for every input. */
  lemma FastPathRedundant(s: string)
    ensures Seconds(s) == Total(FindAll(s))
  {
    if s == "0s" {
      assert DigitRun(s[1..]) == 0;
      assert DigitRun(s) == 1;
      assert s[..1] == "0" && s[2..] == [];
      assert FindAll(s) == [Token("0", 's')];
      assert DigitsValue("0") == 0;
    }
  }

  /** `_parse_mikrotik_time` is the reference reading of durations. */
  lemma SecondsIsRunTotal(s: string)
    ensures Seconds(s) == RunTotal(s)
  {
    FastPathRedundant(s);
    FindAllTotalIsRunTotal(s);
  }

  /** A digit run that ends inside `a`, or at a non-digit that starts `t`, is not
      lengthened by appending `t`. */
  lemma {:induction false} DigitRunOfConcat(a: string, t: string)
    requires DigitRun(a) < |a| || (t != [] && !IsDigit(t[0]))
    ensures DigitRun(a + t) == DigitRun(a)
    decreases |a|
  {
    if a != [] && IsDigit(a[0]) {
      assert (a + t)[1..] == a[1..] + t;
      DigitRunOfConcat(a[1..], t);
    }
  }

  /** A character that is neither a digit nor a unit letter contributes nothing and
      separates what stands before it from what stands after it. */
  lemma {:induction false} SeparatorContributesNothing(a: string, c: char, b: string)
    requires !IsDigit(c) && !IsUnit(c)
    ensures RunTotal(a + [c] + b) == RunTotal(a) + RunTotal(b)
    decreases |a|
  {
    var s := a + [c] + b;
    if a == [] {
      assert s == [c] + b && s[1..] == b;
    } else {
      DigitRunOfConcat(a, [c] + b);
      assert s == a + ([c] + b);
      var n := DigitRun(a);
      assert DigitRun(s) == n;
      if n == 0 {
        assert s[1..] == a[1..] + [c] + b;
        SeparatorContributesNothing(a[1..], c, b);
      } else if n == |a| {
        assert s[n] == c && s[n..] == [c] + b && a[n..] == [];
        assert ([c] + b)[1..] == b;
      } else {
        assert s[n] == a[n] && s[..n] == a[..n];
        if IsUnit(a[n]) {
          assert s[n + 1..] == a[n + 1..] + [c] + b;
          SeparatorContributesNothing(a[n + 1..], c, b);
        } else {
          assert s[n..] == a[n..] + [c] + b;
          SeparatorContributesNothing(a[n..], c, b);
        }
      }
    }
  }

  /** Two hours and thirty minutes are 9000 seconds. */
  lemma ExampleHoursMinutes()
    ensures Seconds("2h30m") == 9000
  {
    var s := "2h30m";
    SecondsIsRunTotal(s);
    assert DigitRun(s[1..]) == 0 && DigitRun(s) == 1;
    assert s[2..] == "30m";
    MinutesExample();
    assert RunTotal(s) == 7200 + 1800;
  }

  /** A lone run: thirty minutes. */
  lemma MinutesExample()
    ensures RunTotal("30m") == 1800
  {
    assert DigitRun("30m"[2..]) == 0 && DigitRun("30m"[1..]) == 1 && DigitRun("30m") == 2;
    assert DigitsValue("30"[..1]) == 3;
    assert DigitsValue("30") == 30;
    assert "30m"[3..] == [];
  }

  /** A week is 604800 seconds. */
  lemma ExampleWeek()
    ensures Seconds("1w") == 604800
  {
    var w := "1w";
    SecondsIsRunTotal(w);
    assert DigitRun(w[1..]) == 0 && DigitRun(w) == 1;
    assert RunTotal(w) == 604800 + RunTotal(w[2..]);
  }

  /** The empty duration and the fast-path `0s` are both zero. */
  lemma ExampleZero()
    ensures Seconds("") == 0
    ensures Seconds("0s") == 0
  {
  }

  /** `_parse_mikrotik_time` as the agent runs it: the `'0s'` fast path, then a loop that
      adds up value times multiplier over the matches. */
  method ParseMikrotikTime(s: string) returns (total: nat)
    ensures total == Seconds(s)
  {
    if s == "0s" {
      return 0;
    }
    total := 0;
    var matches := FindAll(s);
    for k := 0 to |matches|
      invariant total + Total(matches[k..]) == Total(matches)
    {
      assert matches[k..][1..] == matches[k + 1..];
      total := total + DigitsValue(matches[k].digits) * UnitSeconds(matches[k].unit);
    }
    assert matches[|matches|..] == [];
  }
}
