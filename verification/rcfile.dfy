/** The OpenRC script object (`RCFile`): its fields, their defaults, and the text
    `write` produces from them. */
module RcFile {
  import opened Wrappers
  import opened Text
  import opened Consts
  import opened PyEscape
  import opened ServiceConfig
  import opened Commands

  /** `os.path.join(a, b)`: an absolute `b` replaces `a`; otherwise one slash
      separates them unless `a` is empty or already ends in one. */
  function PathJoin(a: string, b: string): (r: string)
    ensures StartsWith(b, "/") ==> r == b
    ensures !StartsWith(b, "/") ==> StartsWith(r, a) && EndsWith(r, b)
    ensures !StartsWith(b, "/") ==> |r| == |a| + |b| + (if a == "" || EndsWith(a, "/") then 0 else 1)
  {
    if StartsWith(b, "/") then b
    else if a == "" || EndsWith(a, "/") then
      ConcatEnds(a, b);
      a + b
    else
      ConcatEnds(a + "/", b);
      assert (a + "/" + b)[..|a|] == a;
      a + "/" + b
  }

  /** The default pidfile of a service lies directly in the run directory. */
  lemma RunPidFile(shortname: string)
    requires !StartsWith(shortname, "/")
    ensures PathJoin(RUN_D, shortname + ".pid") == RUN_D + "/" + shortname + ".pid"
  {
    assert !EndsWith(RUN_D, "/") by {
      assert RUN_D[|RUN_D| - 1] == 'n';
    }
    if |shortname| > 0 {
      assert (shortname + ".pid")[..1] == shortname[..1];
    } else {
      assert (shortname + ".pid")[0] == '.';
    }
  }

  /** The script being built. Every attribute of the Python object is a field.
      `needs` is the attribute the requirements of the unit are written to; the
      emitter never reads it. The dependency lists are multisets because they
      are built from sets (their order is not defined). */
  datatype Rc = Rc(
    shortname: string,
    description: Value,
    pidfile: Value,
    serviceType: string,
    env: map<string, string>,
    need: multiset<string>,
    want: multiset<string>,
    after: multiset<string>,
    before: multiset<string>,
    needs: Option<set<string>>,
    start: seq<Command>,
    stop: seq<Command>,
    startPre: seq<Command>,
    stopPre: seq<Command>)

  const DEFAULT_DESCRIPTION: string := "Description not set"

  /** `RCFile(shortname)`. */
  function New(shortname: string): (rc: Rc)
    ensures rc.shortname == shortname
    ensures rc.pidfile == Str(PathJoin(RUN_D, shortname + ".pid"))
    ensures rc.serviceType == ST_FORKING && rc.description == Str(DEFAULT_DESCRIPTION)
    ensures rc.env == map[] && rc.needs == None
    ensures rc.need == multiset{} && rc.want == multiset{} && rc.after == multiset{} && rc.before == multiset{}
    ensures rc.start == [] && rc.stop == [] && rc.startPre == [] && rc.stopPre == []
  {
    Rc(shortname, Str(DEFAULT_DESCRIPTION), Str(PathJoin(RUN_D, shortname + ".pid")), ST_FORKING,
       map[], multiset{}, multiset{}, multiset{}, multiset{}, None, [], [], [], [])
  }

  /** `ensure_list(v)`: a list as it is, anything else as a one-element list. */
  function EnsureList(v: Value): (r: seq<Value>)
    ensures v.List? ==> r == v.items
    ensures v.Str? ==> r == [v]
  {
    if v.List? then v.items else [v]
  }

  /** Applying it twice is applying it once, and it never loses the value. */
  lemma EnsureListIdempotent(v: Value)
    ensures EnsureList(List(EnsureList(v))) == EnsureList(v)
    ensures v.Str? ==> v in EnsureList(v)
    ensures v.List? ==> List(EnsureList(v)) == v
  {
  }

  // ---------------------------------------------------------------------------
  // Formatting values with `%s`.

  /** `repr(v)`: a unicode string's `u'...'` repr, or a list's `[a, b]` of its
      items' reprs. */
  function ReprValue(v: Value): (r: string)
    ensures |r| >= 2
    ensures v.Str? ==> IsUnicodeLiteralOf(r, v.s)
    decreases v
  {
    match v
    case Str(s) => UnicodeRepr(s)
    case List(items) =>
      "[" + Join(seq(|items|, i requires 0 <= i < |items| => ReprValue(items[i])), ", ") + "]"
  }

  /** `"%s" % v`: a string itself; a list `[`, its items' reprs joined by `, `,
      and `]`. */
  function ValueText(v: Value): (r: string)
    ensures v.Str? ==> r == v.s
    ensures v.List? ==> r == "[" + Join(seq(|v.items|, i requires 0 <= i < |v.items| => ReprValue(v.items[i])), ", ") + "]"
  {
    match v
    case Str(s) => s
    case List(_) => ReprValue(v)
  }

  /** A multi-line value prints as the list of its lines' unicode reprs. */
  lemma ValueTextLines(lines: seq<string>)
    ensures ValueText(List(Strs(lines))) ==
      "[" + Join(seq(|lines|, i requires 0 <= i < |lines| => UnicodeRepr(lines[i])), ", ") + "]"
  {
    var items := Strs(lines);
    assert seq(|items|, i requires 0 <= i < |items| => ReprValue(items[i]))
      == seq(|lines|, i requires 0 <= i < |lines| => UnicodeRepr(lines[i]));
  }

  /** Two plain lines print as `[u'a', u'b']`. */
  lemma ValueTextTwoLines(a: string, b: string)
    requires PlainText(a) && PlainText(b)
    ensures ValueText(List([Str(a), Str(b)])) == "[u'" + a + "', u'" + b + "']"
  {
    var lines := [a, b];
    ValueTextLines(lines);
    assert Strs(lines) == [Str(a), Str(b)];
    TwoReprs(a, b);
  }

  lemma TwoReprs(a: string, b: string)
    requires PlainText(a) && PlainText(b)
    ensures "[" + Join(seq(|[a, b]|, i requires 0 <= i < |[a, b]| => UnicodeRepr([a, b][i])), ", ") + "]"
      == "[u'" + a + "', u'" + b + "']"
  {
    var ra, rb := UnicodeRepr(a), UnicodeRepr(b);
    assert seq(|[a, b]|, i requires 0 <= i < |[a, b]| => UnicodeRepr([a, b][i])) == [ra, rb];
    BracketPair(a, b, ra, rb);
  }

  lemma BracketPair(a: string, b: string, ra: string, rb: string)
    requires ra == "u'" + a + "'" && rb == "u'" + b + "'"
    ensures "[" + Join([ra, rb], ", ") + "]" == "[u'" + a + "', u'" + b + "']"
  {
    JoinPair(ra, rb, ", ");
    assert "[" + ra + ", " + rb + "]" == "[" + "u'" + a + ("'" + ", " + "u'") + b + ("'" + "]");
    assert "[" + "u'" == "[u'" && "'" + ", " + "u'" == "', u'" && "'" + "]" == "']";
  }

  // ---------------------------------------------------------------------------
  // output_function.

  /** One command line of a function body: a tab, the command, a newline. */
  function BodyLine(c: Command): string {
    "\t" + ToString(c) + "\n"
  }

  function Body(cs: seq<Command>): string
    decreases |cs|
  {
    if |cs| == 0 then "" else BodyLine(cs[0]) + Body(cs[1..])
  }

  /** `output_function(o, name, commands)`: the text it writes. */
  function OutputFunction(name: string, cs: seq<Command>): (r: string)
    ensures StartsWith(r, name + "() {\n") && EndsWith(r, "}\n\n")
  {
    var r := name + "() {\n" + Body(cs) + "}\n\n";
    ConcatEnds(name + "() {\n", Body(cs) + "}\n\n");
    ConcatEnds(name + "() {\n" + Body(cs), "}\n\n");
    assert r == name + "() {\n" + (Body(cs) + "}\n\n");
    r
  }

  /** The rendered commands, each after a tab. */
  function TabLines(cs: seq<Command>): (r: seq<string>)
    ensures |r| == |cs|
    ensures forall i :: 0 <= i < |cs| ==> r[i] == "\t" + ToString(cs[i])
  {
    seq(|cs|, i requires 0 <= i < |cs| => "\t" + ToString(cs[i]))
  }

  predicate OneLine(s: string) {
    '\n' !in s
  }

  /** Each string followed by a newline. */
  function Terminated(ls: seq<string>): string
    decreases |ls|
  {
    if |ls| == 0 then "" else ls[0] + "\n" + Terminated(ls[1..])
  }

  lemma {:induction false} TerminatedJoin(ls: seq<string>, tail: seq<string>)
    requires |tail| > 0
    ensures Join(ls + tail, "\n") == Terminated(ls) + Join(tail, "\n")
    decreases |ls|
  {
    if |ls| == 0 {
      assert ls + tail == tail;
    } else {
      var rest := ls[1..] + tail;
      assert ls + tail == [ls[0]] + rest;
      TerminatedJoin(ls[1..], tail);
      JoinCons(ls[0], rest, "\n");
    }
  }

  lemma {:induction false} BodyTerminated(cs: seq<Command>)
    ensures Body(cs) == Terminated(TabLines(cs))
    decreases |cs|
  {
    if |cs| > 0 {
      BodyTerminated(cs[1..]);
      assert TabLines(cs)[1..] == TabLines(cs[1..]);
    }
  }

  lemma BodyJoin(cs: seq<Command>, tail: seq<string>)
    requires |tail| > 0
    ensures Join(TabLines(cs) + tail, "\n") == Body(cs) + Join(tail, "\n")
  {
    TerminatedJoin(TabLines(cs), tail);
    BodyTerminated(cs);
  }

  lemma FramedJoin(head: string, ls: seq<string>)
    ensures Join([head] + ls + ["}", "", ""], "\n") == head + "\n" + Terminated(ls) + "}\n\n"
  {
    var tail := ["}", "", ""];
    JoinTriple("}", "", "", "\n");
    TerminatedJoin(ls, tail);
    assert [head] + ls + tail == [head] + (ls + tail);
    JoinCons(head, ls + tail, "\n");
  }

  /** A header line, newline-terminated lines and a closing brace with a blank
      line, read line by line. */
  lemma FramedLines(head: string, ls: seq<string>)
    requires OneLine(head)
    requires forall i :: 0 <= i < |ls| ==> OneLine(ls[i])
    ensures SplitOn(head + "\n" + Terminated(ls) + "}\n\n", '\n') == [head] + ls + ["}", "", ""]
  {
    var parts := [head] + ls + ["}", "", ""];
    FramedJoin(head, ls);
    forall i | 0 <= i < |parts| ensures '\n' !in parts[i] {
      if i == 0 {
        assert parts[i] == head;
      } else if i <= |ls| {
        assert parts[i] == ls[i - 1];
      }
    }
    assert "\n" == ['\n'];
    SplitOnJoin(parts, '\n');
  }

  /** Read line by line, a function is its header, one tabbed line per command
      in order, and the closing brace followed by a blank line, provided neither
      the name nor any rendered command holds a newline. */
  lemma OutputFunctionLines(name: string, cs: seq<Command>)
    requires OneLine(name)
    requires forall i :: 0 <= i < |cs| ==> OneLine(ToString(cs[i]))
    ensures SplitOn(OutputFunction(name, cs), '\n') == [name + "() {"] + TabLines(cs) + ["}", "", ""]
  {
    var head, ls := name + "() {", TabLines(cs);
    BodyTerminated(cs);
    assert OutputFunction(name, cs) == head + "\n" + Terminated(ls) + "}\n\n";
    assert OneLine(head) by {
      forall i | 0 <= i < |head| ensures head[i] != '\n' {
        if i < |name| {
          assert head[i] == name[i];
        }
      }
    }
    forall i | 0 <= i < |ls| ensures OneLine(ls[i]) {
      var t := ToString(cs[i]);
      assert ls[i] == "\t" + t;
      forall j | 0 < j < |ls[i]| ensures ls[i][j] != '\n' {
        assert ls[i][j] == t[j - 1];
      }
    }
    FramedLines(head, ls);
  }

  // ---------------------------------------------------------------------------
  // write.

  /** The order in which `write` meets the entries of the environment dict and
      the items of the four dependency lists; Python does not define it, so it
      is a parameter. */
  datatype Listing = Listing(env: seq<string>, need: seq<string>, want: seq<string>,
                             after: seq<string>, before: seq<string>)

  /** `l` enumerates the environment keys once each and the dependency lists
      with their multiplicities. */
  predicate Lists(l: Listing, rc: Rc) {
    (forall i :: 0 <= i < |l.env| ==> l.env[i] in rc.env) &&
    (forall k :: k in rc.env ==> k in l.env) &&
    (forall i, j :: 0 <= i < j < |l.env| ==> l.env[i] != l.env[j]) &&
    multiset(l.need) == rc.need && multiset(l.want) == rc.want &&
    multiset(l.after) == rc.after && multiset(l.before) == rc.before
  }

  /** An environment value as written: in double quotes, `unicode_escape`d and
      with double quotes escaped, when it holds a space; as it is otherwise. */
  function EnvValue(v: string): (r: string)
    ensures ' ' !in v ==> r == v
  {
    if ' ' in v then "\"" + EnvEscape(v) + "\"" else v
  }

  /** A shell reads an environment line back as the value, for printable ASCII
      values without expansions. */
  lemma EnvValueReadsBack(v: string)
    requires ShellLiteralText(v)
    ensures ' ' in v ==> exists e :: EnvValue(v) == "\"" + e + "\"" && DqRead(e) == v
    ensures ' ' !in v ==> EnvValue(v) == v
  {
    if ' ' in v {
      assert EnvValue(v) == "\"" + EnvEscape(v) + "\"";
    }
  }

  /** The line `write` emits for one environment entry, without its newline. */
  function EnvLine(k: string, v: string): string {
    k + "=" + EnvValue(v)
  }

  /** The environment block: one `KEY=value` line per key, in listing order,
      each ended by a newline. */
  function EnvLines(env: map<string, string>, keys: seq<string>): (r: string)
    requires forall i :: 0 <= i < |keys| ==> keys[i] in env
    ensures r == Terminated(seq(|keys|, i requires 0 <= i < |keys| => EnvLine(keys[i], env[keys[i]])))
    decreases |keys|
  {
    if |keys| == 0 then ""
    else
      var ls := seq(|keys|, i requires 0 <= i < |keys| => EnvLine(keys[i], env[keys[i]]));
      assert ls[1..] == seq(|keys[1..]|, i requires 0 <= i < |keys[1..]| => EnvLine(keys[1..][i], env[keys[1..][i]]));
      keys[0] + "=" + EnvValue(env[keys[0]]) + "\n" + EnvLines(env, keys[1..])
  }

  /** A function of the script: its name and its commands. */
  datatype Function = Function(name: string, body: seq<Command>)

  /** The `depend` commands: one per non-empty dependency list, in the order
      need, want, after, before. */
  function DependCommands(l: Listing): seq<Command> {
    (if |l.need| > 0 then [Make(["need"] + l.need)] else []) +
    (if |l.want| > 0 then [Make(["want"] + l.want)] else []) +
    (if |l.after| > 0 then [Make(["after"] + l.after)] else []) +
    (if |l.before| > 0 then [Make(["before"] + l.before)] else [])
  }

  /** The functions `write` emits, in order: `depend` exactly when a listed
      dependency list is non-empty, `start_pre`/`stop_pre` exactly when they have
      commands, and always `start` and `stop` last, with the rc's own commands. */
  function Functions(rc: Rc, l: Listing): (fs: seq<Function>)
    ensures |fs| >= 2 && fs[|fs| - 2] == Function("start", rc.start) && fs[|fs| - 1] == Function("stop", rc.stop)
    ensures Emits(fs, "depend") <==> |l.need| + |l.want| + |l.after| + |l.before| > 0
    ensures Emits(fs, "start_pre") <==> |rc.startPre| > 0
    ensures Emits(fs, "stop_pre") <==> |rc.stopPre| > 0
  {
    var d := DependCommands(l);
    DependCount(l);
    FunctionsShape(d, rc.startPre, rc.stopPre, rc.start, rc.stop);
    (if |d| > 0 then [Function("depend", d)] else []) +
    (if |rc.startPre| > 0 then [Function("start_pre", rc.startPre)] else []) +
    (if |rc.stopPre| > 0 then [Function("stop_pre", rc.stopPre)] else []) +
    [Function("start", rc.start), Function("stop", rc.stop)]
  }

  function FunctionsText(fs: seq<Function>): string
    decreases |fs|
  {
    if |fs| == 0 then "" else OutputFunction(fs[0].name, fs[0].body) + FunctionsText(fs[1..])
  }

  /** `write(out, source_file_name)`: the script text (before UTF-8 encoding). */
  function Write(rc: Rc, source: string, l: Listing): (r: string)
    requires Lists(l, rc)
    ensures StartsWith(r, RcHeader(source) + EnvLines(rc.env, l.env) + "pidfile=" + ValueText(rc.pidfile) + "\n\n")
  {
    var pre := RcHeader(source) + EnvLines(rc.env, l.env) + "pidfile=" + ValueText(rc.pidfile) + "\n\n";
    ConcatEnds(pre, FunctionsText(Functions(rc, l)));
    pre + FunctionsText(Functions(rc, l))
  }

  /** Some function has this name. */
  predicate Emits(fs: seq<Function>, name: string) {
    exists i :: 0 <= i < |fs| && fs[i].name == name
  }

  lemma {:induction false} DependCount(l: Listing)
    ensures |DependCommands(l)| > 0 <==> |l.need| + |l.want| + |l.after| + |l.before| > 0
  {
  }

  /** `depend` is emitted exactly when one of the rc's dependency multisets is
      non-empty, whatever order the listing gives them. */
  lemma WriteFunctions(rc: Rc, l: Listing)
    requires Lists(l, rc)
    ensures Emits(Functions(rc, l), "depend") <==> |rc.need| + |rc.want| + |rc.after| + |rc.before| > 0
  {
    assert |multiset(l.need)| == |l.need| && |multiset(l.want)| == |l.want|;
    assert |multiset(l.after)| == |l.after| && |multiset(l.before)| == |l.before|;
  }

  /** The list `Functions` builds, for any commands. */
  lemma FunctionsShape(d: seq<Command>, startPre: seq<Command>, stopPre: seq<Command>,
                       start: seq<Command>, stop: seq<Command>)
    ensures var fs := (if |d| > 0 then [Function("depend", d)] else []) +
        (if |startPre| > 0 then [Function("start_pre", startPre)] else []) +
        (if |stopPre| > 0 then [Function("stop_pre", stopPre)] else []) +
        [Function("start", start), Function("stop", stop)];
      |fs| >= 2 && fs[|fs| - 2] == Function("start", start) && fs[|fs| - 1] == Function("stop", stop) &&
      (Emits(fs, "depend") <==> |d| > 0) &&
      (Emits(fs, "start_pre") <==> |startPre| > 0) &&
      (Emits(fs, "stop_pre") <==> |stopPre| > 0)
  {
    var fs := (if |d| > 0 then [Function("depend", d)] else []) +
        (if |startPre| > 0 then [Function("start_pre", startPre)] else []) +
        (if |stopPre| > 0 then [Function("stop_pre", stopPre)] else []) +
        [Function("start", start), Function("stop", stop)];
    NamesDiffer();
    if |d| > 0 {
      assert fs[0].name == "depend";
    }
    if |startPre| > 0 {
      assert fs[if |d| > 0 then 1 else 0].name == "start_pre";
    }
    if |stopPre| > 0 {
      assert fs[|fs| - 3].name == "stop_pre";
    }
  }

  lemma NamesDiffer()
    ensures "depend" != "start_pre" && "depend" != "stop_pre" && "depend" != "start" && "depend" != "stop"
    ensures "start_pre" != "stop_pre" && "start_pre" != "start" && "start_pre" != "stop"
    ensures "stop_pre" != "start" && "stop_pre" != "stop"
  {
    assert "depend"[0] != "start_pre"[0] && "depend"[0] != "stop_pre"[0];
    assert "start_pre"[2] != "stop_pre"[2];
    assert |"start_pre"| != |"start"| && |"start_pre"| != |"stop"|;
    assert |"stop_pre"| != |"start"| && |"stop_pre"| != |"stop"|;
  }

  /** The attribute that receives the unit's requirements does not affect the
      script. */
  lemma WriteIgnoresNeeds(rc: Rc, source: string, l: Listing, needs: Option<set<string>>)
    requires Lists(l, rc)
    ensures Lists(l, rc.(needs := needs))
    ensures Write(rc.(needs := needs), source, l) == Write(rc, source, l)
  {
  }

  lemma FunctionsTextPair(f: Function, g: Function)
    ensures FunctionsText([f, g]) == OutputFunction(f.name, f.body) + OutputFunction(g.name, g.body)
  {
    assert [f, g][1..] == [g];
    assert [g][1..] == [];
    assert FunctionsText([g]) == OutputFunction(g.name, g.body) + FunctionsText([]);
    assert OutputFunction(g.name, g.body) + "" == OutputFunction(g.name, g.body);
  }

  /** A function without commands is its header and the closing brace. */
  lemma EmptyFunction(name: string)
    ensures OutputFunction(name, []) == name + "() {\n}\n\n"
  {
    assert Body([]) == "";
  }

  lemma NewFunctions(shortname: string)
    ensures Functions(New(shortname), Listing([], [], [], [], [])) == [Function("start", []), Function("stop", [])]
  {
    assert DependCommands(Listing([], [], [], [], [])) == [];
  }

  lemma EmptyStartStop()
    ensures FunctionsText([Function("start", []), Function("stop", [])]) == "start() {\n}\n\n" + "stop() {\n}\n\n"
  {
    FunctionsTextPair(Function("start", []), Function("stop", []));
    EmptyFunction("start");
    EmptyFunction("stop");
  }

  /** The script of a fresh object: the header, the default pidfile and empty
      `start` and `stop` functions. */
  lemma WriteNew(shortname: string, source: string)
    ensures Lists(Listing([], [], [], [], []), New(shortname))
    ensures Write(New(shortname), source, Listing([], [], [], [], []))
         == RcHeader(source) + "pidfile=" + PathJoin(RUN_D, shortname + ".pid") + "\n\n"
            + "start() {\n}\n\n" + "stop() {\n}\n\n"
  {
    var rc, l := New(shortname), Listing([], [], [], [], []);
    NewFunctions(shortname);
    EmptyStartStop();
    assert EnvLines(rc.env, l.env) == "";
  }
}
