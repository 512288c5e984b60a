/** The conversion of a loaded unit into an rc script: `_unit2openrc` and its
    twin `RCFile.from_unit`. A conversion either fills in the script or raises;
    `Result` carries what it raises. */
module Convert {
  import opened Wrappers
  import opened Text
  import opened Consts
  import opened ServiceConfig
  import opened Commands
  import opened RcFile
  import opened Requirements
  import opened Hooks
  import opened UnitFile
  import Shlex

  // ---------------------------------------------------------------------------
  // Environment: `KEY=value` words.

  const ENVIRONMENT: string := "environment"

  /** `v.split("=", 1)` for a word that has an `=`: the name before the first
      one and everything after it; `None` for a word without one. */
  function SplitAssign(t: string): (r: Option<(string, string)>)
    ensures r.Some? <==> '=' in t
    ensures r.Some? ==> r.value.0 + "=" + r.value.1 == t && '=' !in r.value.0
    decreases |t|
  {
    if |t| == 0 then None
    else if t[0] == '=' then
      assert t == "" + "=" + t[1..];
      Some(("", t[1..]))
    else
      match SplitAssign(t[1..])
      case None => None
      case Some(kv) =>
        assert t == [t[0]] + t[1..];
        Some(([t[0]] + kv.0, kv.1))
  }

  /** A name without `=` and any value read back from `name=value`. */
  lemma {:induction false} SplitAssignJoin(k: string, v: string)
    requires '=' !in k
    ensures SplitAssign(k + "=" + v) == Some((k, v))
    decreases |k|
  {
    var t := k + "=" + v;
    if |k| == 0 {
      assert t[1..] == v;
    } else {
      assert t[0] == k[0] && t[1..] == k[1..] + "=" + v;
      SplitAssignJoin(k[1..], v);
      assert [k[0]] + k[1..] == k;
    }
  }

  /** The assignment loop: each word with `=` sets its name, later words
      overriding earlier ones; a word without `=` is skipped. */
  function Assign(env: map<string, string>, tokens: seq<string>): map<string, string>
    decreases |tokens|
  {
    if |tokens| == 0 then env
    else
      var next := match SplitAssign(tokens[0])
        case Some(kv) => env[kv.0 := kv.1]
        case None => env;
      Assign(next, tokens[1..])
  }

  /** Running the loop over two lists is running it over each in turn. */
  lemma {:induction false} AssignAppend(env: map<string, string>, a: seq<string>, b: seq<string>)
    ensures Assign(env, a + b) == Assign(Assign(env, a), b)
    decreases |a|
  {
    if |a| > 0 {
      assert (a + b)[0] == a[0] && (a + b)[1..] == a[1..] + b;
      var next := match SplitAssign(a[0])
        case Some(kv) => env[kv.0 := kv.1]
        case None => env;
      AssignAppend(next, a[1..], b);
      assert Assign(env, a) == Assign(next, a[1..]);
    } else {
      assert a + b == b;
    }
  }

  /** The last word decides: a word with `=` sets its name and nothing else;
      one without changes nothing. */
  lemma AssignLast(env: map<string, string>, tokens: seq<string>, t: string)
    ensures '=' !in t ==> Assign(env, tokens + [t]) == Assign(env, tokens)
    ensures '=' in t ==> var kv := SplitAssign(t).value;
      Assign(env, tokens + [t]) == Assign(env, tokens)[kv.0 := kv.1]
  {
    AssignAppend(env, tokens, [t]);
    assert [t][1..] == [];
  }

  /** The names a word list assigns. */
  function AssignedNames(tokens: seq<string>): (r: set<string>)
    ensures forall i :: 0 <= i < |tokens| && '=' in tokens[i] ==> SplitAssign(tokens[i]).value.0 in r
  {
    set i | 0 <= i < |tokens| && SplitAssign(tokens[i]).Some? :: SplitAssign(tokens[i]).value.0
  }

  /** The loop sets exactly the names the words assign, on top of those
      already there. */
  lemma {:induction false} AssignKeys(env: map<string, string>, tokens: seq<string>)
    ensures Assign(env, tokens).Keys == env.Keys + AssignedNames(tokens)
    decreases |tokens|
  {
    if |tokens| > 0 {
      var next := match SplitAssign(tokens[0])
        case Some(kv) => env[kv.0 := kv.1]
        case None => env;
      AssignKeys(next, tokens[1..]);
      var first := if SplitAssign(tokens[0]).Some? then {SplitAssign(tokens[0]).value.0} else {};
      assert next.Keys == env.Keys + first;
      assert AssignedNames(tokens) == first + AssignedNames(tokens[1..]) by {
        forall x | x in AssignedNames(tokens) ensures x in first + AssignedNames(tokens[1..]) {
          var i :| 0 <= i < |tokens| && SplitAssign(tokens[i]).Some? && SplitAssign(tokens[i]).value.0 == x;
          if i > 0 {
            assert tokens[1..][i - 1] == tokens[i];
          }
        }
        forall x | x in AssignedNames(tokens[1..]) ensures x in AssignedNames(tokens) {
          var i :| 0 <= i < |tokens[1..]| && SplitAssign(tokens[1..][i]).Some? && SplitAssign(tokens[1..][i]).value.0 == x;
          assert tokens[i + 1] == tokens[1..][i];
        }
      }
    }
  }

  /** The words of the environment strings in turn. shlex cannot read a list,
      and the first string it rejects stops the conversion. */
  function EnvTokens(items: seq<Value>): (r: Result<seq<string>, ConvertError>)
    ensures r.Success? <==> forall i :: 0 <= i < |items| ==> items[i].Str? && Shlex.Split(items[i].s).Success?
    ensures r.Failure? ==> r.error.NotText? || r.error.Unsplittable?
    ensures r.Failure? ==> r.error.field == ENVIRONMENT
    decreases |items|
  {
    if |items| == 0 then Success([])
    else
      assert forall i :: 0 < i < |items| ==> items[i] == items[1..][i - 1];
      if items[0].List? then Failure(NotText(ENVIRONMENT))
      else
        match Shlex.Split(items[0].s)
        case Failure(e) => Failure(Unsplittable(ENVIRONMENT, e))
        case Success(ws) =>
          var rest :- EnvTokens(items[1..]);
          Success(ws + rest)
  }

  /** A string of plain words yields exactly those words. */
  lemma EnvTokensWords(ws: seq<string>)
    requires forall k :: 0 <= k < |ws| ==> Shlex.SimpleWord(ws[k])
    ensures EnvTokens([Str(Join(ws, " "))]) == Success(ws)
  {
    Shlex.SplitJoin(ws);
    var items := [Str(Join(ws, " "))];
    assert items[1..] == [];
    assert ws + [] == ws;
  }

  /** The environment part of the conversion, with bad words skipped: the
      variables already set, updated by every `name=value` word in order. */
  function Env(env: map<string, string>, items: seq<Value>): (r: Result<map<string, string>, ConvertError>)
    ensures r.Success? <==> EnvTokens(items).Success?
    ensures r.Success? ==> r.value.Keys == env.Keys + AssignedNames(EnvTokens(items).value)
  {
    var tokens :- EnvTokens(items);
    AssignKeys(env, tokens);
    Success(Assign(env, tokens))
  }

  /** The environment part as written: the warning for a word without `=`
      goes to `sys.stderr`, and `sys` is never imported, so the first such
      word raises a NameError. The strings are handled one by one, so it
      succeeds exactly when every string splits and every word is an
      assignment; when every string splits, the only failure is the NameError. */
  function EnvAsWritten(env: map<string, string>, items: seq<Value>): (r: Result<map<string, string>, ConvertError>)
    ensures r.Success? <==> EnvTokens(items).Success? && AllAssignments(EnvTokens(items).value)
    ensures r.Failure? && EnvTokens(items).Success? ==> r.error == UndefinedName("sys")
    decreases |items|
  {
    if |items| == 0 then Success(env)
    else if items[0].List? then Failure(NotText(ENVIRONMENT))
    else
      match Shlex.Split(items[0].s)
      case Failure(e) => Failure(Unsplittable(ENVIRONMENT, e))
      case Success(ws) =>
        var rest := EnvTokens(items[1..]);
        assert rest.Success? ==> EnvTokens(items) == Success(ws + rest.value);
        assert rest.Success? ==>
          (AllAssignments(ws + rest.value) <==> AllAssignments(ws) && AllAssignments(rest.value)) by {
          if rest.Success? {
            AssignmentsAppend(ws, rest.value);
          }
        }
        if exists k :: 0 <= k < |ws| && '=' !in ws[k] then Failure(UndefinedName("sys"))
        else EnvAsWritten(Assign(env, ws), items[1..])
  }

  /** Every word is a `name=value` assignment. */
  predicate AllAssignments(ws: seq<string>) {
    forall k :: 0 <= k < |ws| ==> '=' in ws[k]
  }

  lemma AssignmentsAppend(a: seq<string>, b: seq<string>)
    ensures AllAssignments(a + b) <==> AllAssignments(a) && AllAssignments(b)
  {
    if AllAssignments(a) && AllAssignments(b) {
      forall k | 0 <= k < |a + b| ensures '=' in (a + b)[k] {
        if k >= |a| {
          assert (a + b)[k] == b[k - |a|];
        }
      }
    }
    if AllAssignments(a + b) {
      forall k | 0 <= k < |a| ensures '=' in a[k] {
        assert (a + b)[k] == a[k];
      }
      forall k | 0 <= k < |b| ensures '=' in b[k] {
        assert (a + b)[|a| + k] == b[k];
      }
    }
  }

  /** A single word without `=` (`FOO`) is a NameError as written, and is
      skipped with a warning as intended. */
  lemma EnvBadWord(env: map<string, string>, w: string)
    requires Shlex.SimpleWord(w) && '=' !in w
    ensures EnvAsWritten(env, [Str(w)]) == Failure(UndefinedName("sys"))
    ensures Env(env, [Str(w)]) == Success(env)
  {
    assert Join([w], " ") == w;
    EnvTokensWords([w]);
    Shlex.SplitJoin([w]);
    assert [w][0] == w;
    assert Assign(env, [w]) == Assign(env, []);
  }

  /** Whenever the code as written gets through, it computes what the
      corrected code does. */
  lemma {:induction false} EnvAsWrittenAgrees(env: map<string, string>, items: seq<Value>)
    requires EnvAsWritten(env, items).Success?
    ensures Env(env, items) == EnvAsWritten(env, items)
    decreases |items|
  {
    if |items| > 0 {
      var ws := Shlex.Split(items[0].s).value;
      EnvAsWrittenAgrees(Assign(env, ws), items[1..]);
      AssignAppend(env, ws, EnvTokens(items[1..]).value);
    }
  }

  // ---------------------------------------------------------------------------
  // Dependencies.

  const REQUIRES: string := "requires"
  const WANTS: string := "wants"
  const AFTER: string := "after"
  const BEFORE: string := "before"
  const PIDFILE: string := "pidfile"
  const DESCRIPTION: string := "description"
  /** The service every `dbus` service needs and wants. */
  const DBUS: string := "dbus"

  /** `_convert_requirements(unit.field)` when the unit has the option. */
  function Requirement(unit: Config, field: string): (r: Result<Option<set<string>>, ConvertError>)
    ensures !Contains(unit, field) ==> r == Success(None)
    ensures Contains(unit, field) ==> (r.Success? <==> AllSplit(Leaves(unit.values[field])))
    ensures r.Success? && Contains(unit, field) ==>
      r.value.Some? && forall x :: x in r.value.value <==> x != "" && Mentions(Leaves(unit.values[field]), x)
    ensures r.Failure? ==> r.error.Unsplittable? && r.error.field == field
  {
    if !Contains(unit, field) then Success(None)
    else
      match ConvertRequirements(unit.values[field])
      case Failure(e) => Failure(Unsplittable(field, e))
      case Success(names) => Success(Some(names))
  }

  /** A dependency list replaced by a converted set, when there is one. */
  function Replaced(before: multiset<string>, names: Option<set<string>>): (r: multiset<string>)
    ensures names.None? ==> r == before
    ensures names.Some? ==> forall x :: r[x] == (if x in names.value then 1 else 0)
  {
    if names.Some? then multiset(names.value) else before
  }

  // ---------------------------------------------------------------------------
  // The first half: everything before the type check.

  /** The service type of a unit that loaded. */
  function TypeOf(unit: Config): string
    requires Valid(unit)
  {
    unit.values[TYPE].s
  }

  /** Description, pidfile, environment, dependencies, then the type, with the
      command lists emptied. `envItems` are the environment strings the loop
      walks through. The environment step is the corrected `Env`, which skips a
      word without `=` where the code as written raises NameError
      (`EnvAsWritten`). */
  function Staged(unit: Config, rc: Rc, envItems: seq<Value>): (r: Result<Rc, ConvertError>)
    requires Valid(unit)
    ensures r.Success? <==>
      (Env(rc.env, envItems).Success? &&
       Requirement(unit, REQUIRES).Success? && Requirement(unit, WANTS).Success? &&
       Requirement(unit, AFTER).Success? && Requirement(unit, BEFORE).Success?)
    ensures r.Success? ==>
      r.value.shortname == rc.shortname && r.value.description == unit.values[DESCRIPTION] &&
      r.value.pidfile == (if Contains(unit, PIDFILE) then unit.values[PIDFILE] else rc.pidfile) &&
      r.value.serviceType == TypeOf(unit) &&
      r.value.env == Env(rc.env, envItems).value &&
      r.value.start == [] && r.value.stop == [] && r.value.startPre == [] && r.value.stopPre == []
  {
    var t := TypeOf(unit);
    var env :- Env(rc.env, envItems);
    var needs :- Requirement(unit, REQUIRES);
    var wants :- Requirement(unit, WANTS);
    var after :- Requirement(unit, AFTER);
    var before :- Requirement(unit, BEFORE);
    var deps := rc.(needs := if needs.Some? then needs else rc.needs, want := Replaced(rc.want, wants),
                    after := Replaced(rc.after, after), before := Replaced(rc.before, before));
    var bus := if t == ST_DBUS then multiset{DBUS} else multiset{};
    Success(deps.(description := unit.values[DESCRIPTION],
                  pidfile := if Contains(unit, PIDFILE) then unit.values[PIDFILE] else rc.pidfile,
                  env := env, need := deps.need + bus, want := deps.want + bus,
                  serviceType := t, start := [], stop := [], startPre := [], stopPre := []))
  }

  /** Requirements go to `needs`, which nothing reads; `need` only ever gains
      `dbus`. Wanted names are the converted set, plus `dbus` once more for a
      `dbus` service, even when the set already holds it. */
  lemma StagedDeps(unit: Config, rc: Rc, envItems: seq<Value>)
    requires Valid(unit) && Staged(unit, rc, envItems).Success?
    ensures var r, bus := Staged(unit, rc, envItems).value, (if TypeOf(unit) == ST_DBUS then 1 else 0);
      r.need == rc.need + (if bus == 1 then multiset{DBUS} else multiset{}) &&
      (Contains(unit, REQUIRES) ==> r.needs == Requirement(unit, REQUIRES).value) &&
      (!Contains(unit, REQUIRES) ==> r.needs == rc.needs) &&
      (Contains(unit, WANTS) ==> forall x :: r.want[x] == (if x in Requirement(unit, WANTS).value.value then 1 else 0) + (if x == DBUS then bus else 0)) &&
      (!Contains(unit, WANTS) ==> forall x :: r.want[x] == rc.want[x] + (if x == DBUS then bus else 0))
  {
  }

  // ---------------------------------------------------------------------------
  // The second half: the type check and the command lists.

  const EXEC_START: string := "exec_start"
  const EXEC_START_POST: string := "exec_start_post"
  const EXEC_STOP: string := "exec_stop"
  const EXEC_STOP_POST: string := "exec_stop_post"
  const EXEC_START_PRE: string := "exec_start_pre"
  const EXEC_STOP_PRE: string := "exec_stop_pre"

  /** `STARTING % (rc.description, rc.shortname)`. */
  function StartMessage(rc: Rc): (m: string)
    ensures m == "Starting " + ValueText(rc.description) + " '" + rc.shortname + "'"
  {
    StartingTemplate(ValueText(rc.description), rc.shortname);
    Percent(STARTING, [ValueText(rc.description), rc.shortname]).value
  }

  /** `STOPPING % (rc.description, rc.shortname)`. */
  function StopMessage(rc: Rc): (m: string)
    ensures m == "Stopping " + ValueText(rc.description) + " '" + rc.shortname + "'"
  {
    StoppingTemplate(ValueText(rc.description), rc.shortname);
    Percent(STOPPING, [ValueText(rc.description), rc.shortname]).value
  }

  /** Only `simple` and `dbus` daemons are backgrounded by the supervisor. */
  predicate Forking(t: string) {
    t != ST_SIMPLE && t != ST_DBUS
  }

  /** Whether some generated command names the pidfile: the backgrounding
      start, or the supervisor's stop when the unit has no stop command of its
      own or is `simple`. */
  predicate PidfileUsed(t: string, hasStop: bool) {
    !Forking(t) || t == ST_SIMPLE || !hasStop
  }

  /** The D-Bus wait of a `dbus` service: wait for the bus name; if that fails,
      kill the daemon, report failure with `eend 1` and return 1. */
  function DbusWait(busName: string, pidfile: string): (r: seq<Command>)
    ensures |r| == 8 && r[0] == Make([DBUS_SERVICE_WAIT, busName]) && r[1] == Make(IF_FAILED)
    ensures r[3] == Indent(Make(["kill", "-9", "$(<", pidfile, ")"]), 1)
    ensures r[4] == Indent(Make([EEND, "1"]), 1) && r[5] == Indent(Make(RETURN_1), 1)
    ensures r[6] == Make(FI) && r[7] == Make(TRUE)
  {
    DbusBlock(busName, pidfile).value
  }

  /** `_convert_exec_post(unit.field)` when the unit has it, `eend $?` otherwise. */
  function Finale(unit: Config, field: string): (r: Result<seq<Command>, ConvertError>)
    ensures !Contains(unit, field) ==> r == Success([Make([EEND, "$?"])])
    ensures Contains(unit, field) ==> r == ExecPost(unit.values[field], field)
    ensures r.Success? ==> |r.value| > 0
    ensures r.Success? && Contains(unit, field) ==> r.value[|r.value| - 1] == Make(FI)
  {
    if Contains(unit, field) then ExecPost(unit.values[field], field) else Success([Make([EEND, "$?"])])
  }

  /** Where the pieces of `start()` land. */
  lemma StopLayout(head: Command, own: seq<Command>, kill: seq<Command>, finale: seq<Command>)
    ensures var r := [head] + own + kill + finale;
      |r| == 1 + |own| + |kill| + |finale| && r[0] == head && r[1..1 + |own|] == own &&
      (|kill| > 0 ==> r[1 + |own|] == kill[0]) && r[1 + |own| + |kill|..] == finale
  {
    var r := [head] + own + kill + finale;
    assert r[1..1 + |own|] == own;
    assert r[1 + |own| + |kill|..] == finale;
  }

  lemma StartLayout(launch: seq<Command>, wait: seq<Command>, finale: seq<Command>)
    requires |launch| == 2 && |finale| > 0
    ensures var r := launch + wait + finale;
      |r| == 2 + |wait| + |finale| && r[0] == launch[0] && r[1] == launch[1] &&
      (|wait| > 0 ==> r[2] == wait[0]) && (|wait| == 0 ==> r[2..] == finale) &&
      r[|r| - 1] == finale[|finale| - 1]
  {
    var r := launch + wait + finale;
    if |wait| == 0 {
      assert r[2..] == finale;
    }
  }

  lemma StartSlices(launch: seq<Command>, wait: seq<Command>, finale: seq<Command>)
    requires |launch| == 2
    ensures var r := launch + wait + finale;
      r[2..2 + |wait|] == wait && r[2 + |wait|..] == finale
  {
    var r := launch + wait + finale;
    assert r[2..2 + |wait|] == wait;
    assert r[2 + |wait|..] == finale;
  }

  /** The body of `start()`: the message, the supervisor, the D-Bus wait for
      a `dbus` service, then the post hooks or `eend $?`. The executable is the
      first word of `exec_start`; without one the source raises IndexError. */
  function StartCommands(unit: Config, rc: Rc): (r: Result<seq<Command>, ConvertError>)
    requires Valid(unit)
    ensures r.Success? <==>
      (SplitValue(unit.values[EXEC_START], EXEC_START).Success? &&
       |SplitValue(unit.values[EXEC_START], EXEC_START).value.args| > 0 &&
       Finale(unit, EXEC_START_POST).Success?)
    ensures (SplitValue(unit.values[EXEC_START], EXEC_START).Success? &&
             |SplitValue(unit.values[EXEC_START], EXEC_START).value.args| == 0) ==> r == Failure(EmptyCommand)
    ensures r.Success? ==>
      var daemon, pid, n := SplitValue(unit.values[EXEC_START], EXEC_START).value, ValueText(rc.pidfile), |r.value|;
      n >= 3 && r.value[0] == Make([EBEGIN, StartMessage(rc)]) &&
      r.value[1] == SsdStart(daemon, pid, Forking(TypeOf(unit))) &&
      (TypeOf(unit) == ST_DBUS ==> n >= 11 && r.value[2] == Make([DBUS_SERVICE_WAIT, ValueText(unit.values[BUS_NAME])])) &&
      (TypeOf(unit) != ST_DBUS ==> r.value[2..] == Finale(unit, EXEC_START_POST).value) &&
      r.value[n - 1] == (if Contains(unit, EXEC_START_POST) then Make(FI) else Make([EEND, "$?"]))
  {
    var t := TypeOf(unit);
    var split := SplitValue(unit.values[EXEC_START], EXEC_START);
    var post := Finale(unit, EXEC_START_POST);
    if split.Failure? then Failure(split.error)
    else if |split.value.args| == 0 then Failure(EmptyCommand)
    else if post.Failure? then Failure(post.error)
    else
      var pid := ValueText(rc.pidfile);
      var launch := [Make([EBEGIN, StartMessage(rc)]), SsdStart(split.value, pid, Forking(t))];
      var wait := if t == ST_DBUS then DbusWait(ValueText(unit.values[BUS_NAME]), pid) else [];
      StartLayout(launch, wait, post.value);
      Success(launch + wait + post.value)
  }

  /** For a `dbus` service, `start()` runs the whole D-Bus wait right after the
      supervisor, so a bus name not acquired kills the daemon, reports `eend 1`
      and returns 1; the post hooks or `eend $?` follow the wait. */
  lemma StartWaitsForDbus(unit: Config, rc: Rc)
    requires Valid(unit) && TypeOf(unit) == ST_DBUS && StartCommands(unit, rc).Success?
    ensures var r, pid := StartCommands(unit, rc).value, ValueText(rc.pidfile);
      |r| >= 11 && r[2..10] == DbusWait(ValueText(unit.values[BUS_NAME]), pid) &&
      r[10..] == Finale(unit, EXEC_START_POST).value
  {
    var split := SplitValue(unit.values[EXEC_START], EXEC_START);
    var pid := ValueText(rc.pidfile);
    var launch := [Make([EBEGIN, StartMessage(rc)]), SsdStart(split.value, pid, Forking(TypeOf(unit)))];
    var wait := DbusWait(ValueText(unit.values[BUS_NAME]), pid);
    var post := Finale(unit, EXEC_START_POST).value;
    assert StartCommands(unit, rc).value == launch + wait + post;
    StartSlices(launch, wait, post);
  }

  /** `Command.split(unit.exec_stop)` as a list of none or one command. */
  function OwnStop(unit: Config): (r: Result<seq<Command>, ConvertError>)
    ensures !Contains(unit, EXEC_STOP) ==> r == Success([])
    ensures Contains(unit, EXEC_STOP) ==> (r.Success? <==> SplitValue(unit.values[EXEC_STOP], EXEC_STOP).Success?)
    ensures Contains(unit, EXEC_STOP) && r.Success? ==> r.value == [SplitValue(unit.values[EXEC_STOP], EXEC_STOP).value]
  {
    if !Contains(unit, EXEC_STOP) then Success([])
    else
      var c :- SplitValue(unit.values[EXEC_STOP], EXEC_STOP);
      Success([c])
  }

  /** The body of `stop()`: the message, the unit's own stop command, the
      supervisor's stop when there is no own command or the service is
      `simple`, then the post hooks or `eend $?`. */
  function StopCommands(unit: Config, rc: Rc): (r: Result<seq<Command>, ConvertError>)
    requires Valid(unit)
    ensures r.Success? <==> OwnStop(unit).Success? && Finale(unit, EXEC_STOP_POST).Success?
    ensures r.Success? ==>
      var own, n := OwnStop(unit).value, |r.value|;
      var kill := TypeOf(unit) == ST_SIMPLE || !Contains(unit, EXEC_STOP);
      var k := 1 + |own| + (if kill then 1 else 0);
      n == k + |Finale(unit, EXEC_STOP_POST).value| &&
      r.value[0] == Make([EBEGIN, StopMessage(rc)]) && r.value[1..1 + |own|] == own &&
      (kill ==> r.value[1 + |own|] == SsdStop(ValueText(rc.pidfile))) &&
      r.value[k..] == Finale(unit, EXEC_STOP_POST).value
  {
    var own := OwnStop(unit);
    var post := Finale(unit, EXEC_STOP_POST);
    if own.Failure? then Failure(own.error)
    else if post.Failure? then Failure(post.error)
    else
      var kill := if TypeOf(unit) == ST_SIMPLE || !Contains(unit, EXEC_STOP) then [SsdStop(ValueText(rc.pidfile))] else [];
      StopLayout(Make([EBEGIN, StopMessage(rc)]), own.value, kill, post.value);
      Success([Make([EBEGIN, StopMessage(rc)])] + own.value + kill + post.value)
  }

  /** `_convert_exec_pre(unit.field)` when the unit has it. */
  function Pre(unit: Config, field: string): (r: Result<seq<Command>, ConvertError>)
    ensures !Contains(unit, field) ==> r == Success([])
    ensures Contains(unit, field) ==> r == ExecPre(unit.values[field], field)
  {
    if Contains(unit, field) then ExecPre(unit.values[field], field) else Success([])
  }

  /** The four command lists of a script. */
  datatype Bodies = Bodies(start: seq<Command>, stop: seq<Command>, startPre: seq<Command>, stopPre: seq<Command>)

  /** The command lists in the order the source builds them; the first error
      stops it. */
  function BuildBodies(unit: Config, rc: Rc): Result<Bodies, ConvertError>
    requires Valid(unit)
  {
    Assemble(unit, StartCommands(unit, rc), StopCommands(unit, rc))
  }

  /** The four bodies from the start and stop bodies, in the source's order:
      start, stop, then the two pre hook lists. */
  function Assemble(unit: Config, start: Result<seq<Command>, ConvertError>,
                    stop: Result<seq<Command>, ConvertError>): Result<Bodies, ConvertError>
  {
    var start :- start;
    var stop :- stop;
    var startPre :- Pre(unit, EXEC_START_PRE);
    var stopPre :- Pre(unit, EXEC_STOP_PRE);
    Success(Bodies(start, stop, startPre, stopPre))
  }

  /** The error `write` raises when it joins a command holding a list: the
      pidfile comes first, as the start command does. */
  function JoinFailure(unit: Config, pidfile: Value): (r: Option<ConvertError>)
    requires Valid(unit)
    ensures r.None? <==>
      (!(pidfile.List? && PidfileUsed(TypeOf(unit), Contains(unit, EXEC_STOP))) &&
       !(TypeOf(unit) == ST_DBUS && unit.values[BUS_NAME].List?))
    ensures r.Some? ==> r.value.ListArgument?
  {
    if pidfile.List? && PidfileUsed(TypeOf(unit), Contains(unit, EXEC_STOP)) then Some(ListArgument(PIDFILE))
    else if TypeOf(unit) == ST_DBUS && unit.values[BUS_NAME].List? then Some(ListArgument(BUS_NAME))
    else None
  }

  /** The type check, the command lists, and last the join that fails on a
      list among a command's arguments. */
  function Finish(unit: Config, rc: Rc): (r: Result<Rc, ConvertError>)
    requires Valid(unit)
    ensures TypeOf(unit) !in RC_SERVICE_TYPES ==> r == Failure(UnsupportedType(TypeOf(unit)))
    ensures r.Success? ==> TypeOf(unit) in RC_SERVICE_TYPES
    ensures r.Success? ==> r.value == rc.(start := r.value.start, stop := r.value.stop,
                                          startPre := r.value.startPre, stopPre := r.value.stopPre)
    ensures r.Success? && PidfileUsed(TypeOf(unit), Contains(unit, EXEC_STOP)) ==> rc.pidfile.Str?
    ensures r.Success? && TypeOf(unit) == ST_DBUS ==> unit.values[BUS_NAME].Str?
  {
    var t := TypeOf(unit);
    if t !in RC_SERVICE_TYPES then Failure(UnsupportedType(t))
    else
      var b :- BuildBodies(unit, rc);
      match JoinFailure(unit, rc.pidfile)
      case Some(e) => Failure(e)
      case None => Success(rc.(start := b.start, stop := b.stop, startPre := b.startPre, stopPre := b.stopPre))
  }

  /** The environment strings `_unit2openrc` walks: `ensure_list` of the option. */
  function EnvItems(unit: Config): (r: seq<Value>)
    ensures !Contains(unit, ENVIRONMENT) ==> r == []
    ensures Contains(unit, ENVIRONMENT) ==> r == EnsureList(unit.values[ENVIRONMENT])
  {
    if Contains(unit, ENVIRONMENT) then EnsureList(unit.values[ENVIRONMENT]) else []
  }

  /** `convert(unit, rc)`, that is `_unit2openrc` with its environment step
      corrected: a word without `=` is skipped (`Env`) instead of raising
      NameError (`EnvAsWritten`). The unit is one that loaded, so it passed
      validation. */
  function Convert(unit: Config, rc: Rc): (r: Result<Rc, ConvertError>)
    requires Valid(unit)
    ensures r.Success? ==> Staged(unit, rc, EnvItems(unit)).Success?
    ensures r.Success? ==> r.value.serviceType == TypeOf(unit) && r.value.serviceType in RC_SERVICE_TYPES
    ensures r.Success? ==> r.value.shortname == rc.shortname && r.value.description == unit.values[DESCRIPTION]
    ensures r.Success? ==> r.value.pidfile == (if Contains(unit, PIDFILE) then unit.values[PIDFILE] else rc.pidfile)
    ensures r.Success? && PidfileUsed(TypeOf(unit), Contains(unit, EXEC_STOP)) ==> r.value.pidfile.Str?
    ensures r.Success? && TypeOf(unit) == ST_DBUS ==> unit.values[BUS_NAME].Str?
  {
    var staged :- Staged(unit, rc, EnvItems(unit));
    Finish(unit, staged)
  }

  /** `RCFile.from_unit(unit)`: the same steps, with the same corrected
      environment step, but `shlex.split` gets the environment option itself,
      with no `ensure_list`. */
  function FromUnit(unit: Config, rc: Rc): (r: Result<Rc, ConvertError>)
    requires Valid(unit)
    ensures r.Success? ==> r.value.serviceType == TypeOf(unit) && r.value.serviceType in RC_SERVICE_TYPES
  {
    var items := if Contains(unit, ENVIRONMENT) then [unit.values[ENVIRONMENT]] else [];
    var staged :- Staged(unit, rc, items);
    Finish(unit, staged)
  }

  // ---------------------------------------------------------------------------
  // What a conversion produces.

  /** The type is checked only after the description, pidfile, environment
      and dependencies are written: an error there wins over an unsupported
      type, and a `oneshot` unit, the one systemd type OpenRC lacks, fails
      with the script's fields already overwritten. */
  lemma ConvertTypeCheckLate(unit: Config, rc: Rc)
    requires Valid(unit)
    ensures TypeOf(unit) !in RC_SERVICE_TYPES <==> TypeOf(unit) == ST_ONESHOT
    ensures Staged(unit, rc, EnvItems(unit)).Failure? ==>
      Convert(unit, rc) == Failure(Staged(unit, rc, EnvItems(unit)).error)
    ensures TypeOf(unit) == ST_ONESHOT && Staged(unit, rc, EnvItems(unit)).Success? ==>
      Convert(unit, rc) == Failure(UnsupportedType(ST_ONESHOT)) &&
      Staged(unit, rc, EnvItems(unit)).value.serviceType == ST_ONESHOT &&
      Staged(unit, rc, EnvItems(unit)).value.env == Env(rc.env, EnvItems(unit)).value
  {
    RcTypesAreSystemdMinusOneshot();
  }

  /** A conversion that succeeds is the staged script with the four lists
      filled in. */
  lemma ConvertLists(unit: Config, rc: Rc) returns (staged: Rc)
    requires Valid(unit) && Convert(unit, rc).Success?
    ensures Staged(unit, rc, EnvItems(unit)) == Success(staged)
    ensures StartCommands(unit, staged).Success? && StopCommands(unit, staged).Success?
    ensures var r := Convert(unit, rc).value;
      r.start == StartCommands(unit, staged).value && r.stop == StopCommands(unit, staged).value &&
      r.startPre == Pre(unit, EXEC_START_PRE).value && r.stopPre == Pre(unit, EXEC_STOP_PRE).value &&
      r.pidfile == staged.pidfile && r.description == staged.description && r.shortname == staged.shortname
  {
    staged := Staged(unit, rc, EnvItems(unit)).value;
    assert Convert(unit, rc) == Finish(unit, staged);
    FinishParts(unit, staged);
  }

  /** A successful finish is the script with the lists `BuildBodies` made. */
  lemma FinishParts(unit: Config, rc: Rc)
    requires Valid(unit) && Finish(unit, rc).Success?
    ensures StartCommands(unit, rc).Success? && StopCommands(unit, rc).Success?
    ensures Pre(unit, EXEC_START_PRE).Success? && Pre(unit, EXEC_STOP_PRE).Success?
    ensures Finish(unit, rc).value == rc.(start := StartCommands(unit, rc).value, stop := StopCommands(unit, rc).value,
                                         startPre := Pre(unit, EXEC_START_PRE).value, stopPre := Pre(unit, EXEC_STOP_PRE).value)
  {
    assert BuildBodies(unit, rc).Success?;
    var b := BuildBodies(unit, rc).value;
    assert b == Bodies(StartCommands(unit, rc).value, StopCommands(unit, rc).value,
                       Pre(unit, EXEC_START_PRE).value, Pre(unit, EXEC_STOP_PRE).value);
    assert JoinFailure(unit, rc.pidfile).None?;
  }

  /** `start()` announces the service, starts the executable of `exec_start`
      under the supervisor, waits for the bus name of a `dbus` service, and
      ends with the post hooks' `fi` or with `eend $?`. */
  lemma ConvertStart(unit: Config, rc: Rc)
    requires Valid(unit) && Convert(unit, rc).Success?
    ensures unit.values[EXEC_START].Str? && Shlex.Split(unit.values[EXEC_START].s).Success?
    ensures var ws := Shlex.Split(unit.values[EXEC_START].s).value; |ws| > 0
    ensures var r, ws := Convert(unit, rc).value, Shlex.Split(unit.values[EXEC_START].s).value;
      var n := |r.start|;
      n >= 3 &&
      r.start[0] == Make([EBEGIN, "Starting " + ValueText(unit.values[DESCRIPTION]) + " '" + rc.shortname + "'"]) &&
      r.start[1] == SsdStart(Make(ws), ValueText(r.pidfile), Forking(TypeOf(unit))) &&
      (TypeOf(unit) == ST_DBUS ==> r.start[2] == Make([DBUS_SERVICE_WAIT, unit.values[BUS_NAME].s])) &&
      r.start[n - 1] == (if Contains(unit, EXEC_START_POST) then Make(FI) else Make([EEND, "$?"]))
  {
    var staged := ConvertLists(unit, rc);
  }

  /** The stop body in the unit's own terms. */
  lemma StopShape(unit: Config, rc: Rc)
    requires Valid(unit) && StopCommands(unit, rc).Success?
    requires TypeOf(unit) == ST_SIMPLE || !Contains(unit, EXEC_STOP) ==> rc.pidfile.Str?
    ensures Contains(unit, EXEC_STOP) ==>
      unit.values[EXEC_STOP].Str? && Shlex.Split(unit.values[EXEC_STOP].s).Success?
    ensures var r := StopCommands(unit, rc).value;
      var own := if Contains(unit, EXEC_STOP) then [Make(Shlex.Split(unit.values[EXEC_STOP].s).value)] else [];
      var kill := TypeOf(unit) == ST_SIMPLE || !Contains(unit, EXEC_STOP);
      var k := 1 + |own| + (if kill then 1 else 0);
      |r| > k &&
      r[0] == Make([EBEGIN, "Stopping " + ValueText(rc.description) + " '" + rc.shortname + "'"]) &&
      r[1..1 + |own|] == own &&
      (kill ==> r[1 + |own|] == SsdStop(rc.pidfile.s)) &&
      r[k..] == Finale(unit, EXEC_STOP_POST).value
  {
    if Contains(unit, EXEC_STOP) {
      assert SplitValue(unit.values[EXEC_STOP], EXEC_STOP).Success?;
    }
  }

  /** `stop()` announces the service, runs the unit's own stop command, stops
      the supervised process when there is no such command or the service is
      `simple`, and ends with the post hooks or `eend $?`. */
  lemma ConvertStop(unit: Config, rc: Rc)
    requires Valid(unit) && Convert(unit, rc).Success?
    ensures Contains(unit, EXEC_STOP) ==>
      unit.values[EXEC_STOP].Str? && Shlex.Split(unit.values[EXEC_STOP].s).Success?
    ensures var r := Convert(unit, rc).value;
      var own := if Contains(unit, EXEC_STOP) then [Make(Shlex.Split(unit.values[EXEC_STOP].s).value)] else [];
      var kill := TypeOf(unit) == ST_SIMPLE || !Contains(unit, EXEC_STOP);
      var k := 1 + |own| + (if kill then 1 else 0);
      |r.stop| > k &&
      r.stop[0] == Make([EBEGIN, "Stopping " + ValueText(unit.values[DESCRIPTION]) + " '" + rc.shortname + "'"]) &&
      r.stop[1..1 + |own|] == own &&
      (kill ==> r.stop[1 + |own|] == SsdStop(r.pidfile.s)) &&
      r.stop[k..] == Finale(unit, EXEC_STOP_POST).value
  {
    var staged := ConvertLists(unit, rc);
    if TypeOf(unit) == ST_SIMPLE || !Contains(unit, EXEC_STOP) {
      assert PidfileUsed(TypeOf(unit), Contains(unit, EXEC_STOP));
    }
    StopShape(unit, staged);
  }

  /** The pre hooks are `_convert_exec_pre` of the options, or nothing. */
  lemma ConvertPre(unit: Config, rc: Rc)
    requires Valid(unit) && Convert(unit, rc).Success?
    ensures Pre(unit, EXEC_START_PRE).Success? && Pre(unit, EXEC_STOP_PRE).Success?
    ensures Convert(unit, rc).value.startPre == Pre(unit, EXEC_START_PRE).value
    ensures Convert(unit, rc).value.stopPre == Pre(unit, EXEC_STOP_PRE).value
  {
    var staged := ConvertLists(unit, rc);
  }

  /** A `dbus` service needs and wants `dbus`. */
  lemma ConvertDbus(unit: Config, rc: Rc)
    requires Valid(unit) && TypeOf(unit) == ST_DBUS && Convert(unit, rc).Success?
    ensures DBUS in Convert(unit, rc).value.need && DBUS in Convert(unit, rc).value.want
  {
    var staged := Staged(unit, rc, EnvItems(unit)).value;
    StagedDeps(unit, rc, EnvItems(unit));
    assert Convert(unit, rc) == Finish(unit, staged);
  }

  /** An `exec_start` with no words has no executable to run. */
  lemma ConvertEmptyCommand(unit: Config, rc: Rc)
    requires Valid(unit) && TypeOf(unit) in RC_SERVICE_TYPES
    requires Staged(unit, rc, EnvItems(unit)).Success?
    requires unit.values[EXEC_START].Str? && Shlex.Split(unit.values[EXEC_START].s) == Success([])
    ensures Convert(unit, rc) == Failure(EmptyCommand)
  {
    var staged := Staged(unit, rc, EnvItems(unit)).value;
    assert Convert(unit, rc) == Finish(unit, staged);
  }

  /** `from_unit` is the conversion, except that it hands the environment
      option to shlex as it is: a multi-line environment, which the
      conversion splits line by line, makes it fail. */
  lemma FromUnitAgrees(unit: Config, rc: Rc)
    requires Valid(unit)
    ensures !Contains(unit, ENVIRONMENT) || unit.values[ENVIRONMENT].Str? ==> FromUnit(unit, rc) == Convert(unit, rc)
    ensures Contains(unit, ENVIRONMENT) && unit.values[ENVIRONMENT].List? ==>
      FromUnit(unit, rc) == Failure(NotText(ENVIRONMENT))
  {
    if Contains(unit, ENVIRONMENT) && unit.values[ENVIRONMENT].List? {
      var items := [unit.values[ENVIRONMENT]];
      assert EnvTokens(items) == Failure(NotText(ENVIRONMENT));
    }
  }

  /** `w` is `unit` with a `requires` option added. */
  predicate AddsRequires(unit: Config, w: Config) {
    !Contains(unit, REQUIRES) && REQUIRES in w.values && w.values == unit.values[REQUIRES := w.values[REQUIRES]]
  }

  /** The body of `start()` never looks at `requires`. */
  lemma StartIgnoresRequires(unit: Config, w: Config, s: Rc)
    requires Valid(unit) && Valid(w) && AddsRequires(unit, w)
    ensures StartCommands(w, s) == StartCommands(unit, s)
  {
    assert TypeOf(w) == TypeOf(unit);
    assert Finale(w, EXEC_START_POST) == Finale(unit, EXEC_START_POST);
  }

  /** Nor does the body of `stop()`. */
  lemma StopIgnoresRequires(unit: Config, w: Config, s: Rc)
    requires Valid(unit) && Valid(w) && AddsRequires(unit, w)
    ensures StopCommands(w, s) == StopCommands(unit, s)
  {
    assert TypeOf(w) == TypeOf(unit);
    assert Finale(w, EXEC_STOP_POST) == Finale(unit, EXEC_STOP_POST);
    assert OwnStop(w) == OwnStop(unit);
  }

  /** Nor do the pre hooks, nor the join check. */
  lemma BodiesIgnoreRequires(unit: Config, w: Config, s: Rc)
    requires Valid(unit) && Valid(w) && AddsRequires(unit, w)
    ensures BuildBodies(w, s) == BuildBodies(unit, s)
  {
    StartIgnoresRequires(unit, w, s);
    StopIgnoresRequires(unit, w, s);
    assert Pre(w, EXEC_START_PRE) == Pre(unit, EXEC_START_PRE);
    assert Pre(w, EXEC_STOP_PRE) == Pre(unit, EXEC_STOP_PRE);
  }

  lemma JoinIgnoresRequires(unit: Config, w: Config, p: Value)
    requires Valid(unit) && Valid(w) && AddsRequires(unit, w)
    ensures JoinFailure(w, p) == JoinFailure(unit, p)
  {
    assert TypeOf(w) == TypeOf(unit);
    assert Contains(w, EXEC_STOP) == Contains(unit, EXEC_STOP);
  }

  /** The start commands read only the script's shortname, description and
      pidfile. */
  lemma StartReadsLittle(unit: Config, a: Rc, b: Rc)
    requires Valid(unit)
    requires a.shortname == b.shortname && a.description == b.description && a.pidfile == b.pidfile
    ensures StartCommands(unit, a) == StartCommands(unit, b)
  {
    assert StartMessage(a) == StartMessage(b);
  }

  /** So do the stop commands. */
  lemma StopReadsLittle(unit: Config, a: Rc, b: Rc)
    requires Valid(unit)
    requires a.shortname == b.shortname && a.description == b.description && a.pidfile == b.pidfile
    ensures StopCommands(unit, a) == StopCommands(unit, b)
  {
    assert StopMessage(a) == StopMessage(b);
  }

  /** So the rest of the conversion carries `needs` through untouched. */
  lemma FinishKeepsNeeds(unit: Config, rc: Rc, needs: Option<set<string>>)
    requires Valid(unit)
    ensures Finish(unit, rc.(needs := needs)) ==
      (match Finish(unit, rc)
       case Success(done) => Success(done.(needs := needs))
       case Failure(e) => Failure(e))
  {
    BodiesReadLittle(unit, rc, rc.(needs := needs));
    FinishFromBodies(unit, rc, needs);
  }

  /** So do all four bodies. */
  lemma BodiesReadLittle(unit: Config, a: Rc, b: Rc)
    requires Valid(unit)
    requires a.shortname == b.shortname && a.description == b.description && a.pidfile == b.pidfile
    ensures BuildBodies(unit, a) == BuildBodies(unit, b)
  {
    StartReadsLittle(unit, a, b);
    StopReadsLittle(unit, a, b);
  }

  /** `Finish` reads the rc only through the bodies it builds and the pidfile. */
  lemma FinishFromBodies(unit: Config, rc: Rc, needs: Option<set<string>>)
    requires Valid(unit)
    requires BuildBodies(unit, rc) == BuildBodies(unit, rc.(needs := needs))
    ensures Finish(unit, rc.(needs := needs)) ==
      (match Finish(unit, rc)
       case Success(done) => Success(done.(needs := needs))
       case Failure(e) => Failure(e))
  {
  }

  /** The first half treats `requires` apart from everything else. */
  lemma StagedRequires(unit: Config, rc: Rc, v: Value, items: seq<Value>)
    requires Valid(unit) && !Contains(unit, REQUIRES) && ConvertRequirements(v).Success?
    ensures Valid(Config(unit.values[REQUIRES := v]))
    ensures Staged(Config(unit.values[REQUIRES := v]), rc, items) ==
      (match Staged(unit, rc, items)
       case Success(staged) => Success(staged.(needs := Some(ConvertRequirements(v).value)))
       case Failure(e) => Failure(e))
  {
    var w := Config(unit.values[REQUIRES := v]);
    assert Requirement(w, WANTS) == Requirement(unit, WANTS);
    assert Requirement(w, AFTER) == Requirement(unit, AFTER);
    assert Requirement(w, BEFORE) == Requirement(unit, BEFORE);
    assert Requirement(w, REQUIRES) == Success(Some(ConvertRequirements(v).value));
    assert Requirement(unit, REQUIRES) == Success(None);
  }

  /** Requirements reach only `needs`, which the emitter never writes: giving
      a unit `Requires=` changes that field of the result and nothing else. */
  lemma RequiresOnlyNeeds(unit: Config, rc: Rc, v: Value)
    requires Valid(unit) && !Contains(unit, REQUIRES)
    requires ConvertRequirements(v).Success?
    ensures Valid(Config(unit.values[REQUIRES := v]))
    ensures var withRequires := Config(unit.values[REQUIRES := v]);
      (Convert(withRequires, rc).Success? <==> Convert(unit, rc).Success?) &&
      (Convert(unit, rc).Success? ==>
         Convert(withRequires, rc).value == Convert(unit, rc).value.(needs := Some(ConvertRequirements(v).value)))
  {
    var w := Config(unit.values[REQUIRES := v]);
    assert EnvItems(w) == EnvItems(unit);
    StagedRequires(unit, rc, v, EnvItems(unit));
    var su := Staged(unit, rc, EnvItems(unit));
    if su.Success? {
      FinishKeepsNeeds(unit, su.value, Some(ConvertRequirements(v).value));
      BodiesIgnoreRequires(unit, w, su.value.(needs := Some(ConvertRequirements(v).value)));
      JoinIgnoresRequires(unit, w, su.value.pidfile);
    }
  }
}
