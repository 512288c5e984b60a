/** Command blocks the converter generates: the pre-start/pre-stop hook lists,
    the post-start/post-stop if-block, and the D-Bus name wait. Also the errors
    conversion can raise. */
module Hooks {
  import opened Wrappers
  import opened Text
  import opened Consts
  import opened ServiceConfig
  import opened Commands
  import opened RcFile
  import Shlex

  /** What conversion can raise, with the field concerned. */
  datatype ConvertError =
    | NotText(field: string)                                  // a list where shlex or `startswith` needs a string
    | Unsplittable(field: string, error: Shlex.ShlexError)    // shlex rejects the string
    | UnsupportedType(serviceType: string)                    // a type OpenRC cannot express
    | EmptyCommand                                            // `exec_start` has no words to take the executable from
    | ListArgument(field: string)                             // a list among a command's arguments: `write` cannot join it
    | UndefinedName(name: string)                             // a name the module never defines

  /** Words of the fixed shell lines. Each line is its words joined by single
      spaces: `Phrase(IF_SUCCEEDED)` is `if [ $? -eq 0 ] ; then`. */
  const GUARD: seq<string> := ["||", "return", "1"]
  const RETURN_0: seq<string> := ["return", "0"]
  const RETURN_1: seq<string> := ["return", "1"]
  const IF_SUCCEEDED: seq<string> := ["if", "[", "$?", "-eq", "0", "]", ";", "then"]
  const IF_FAILED: seq<string> := ["if", "[", "$?", "-ne", "0", "]", ";", "then"]
  const ELSE: seq<string> := ["else"]
  const FI: seq<string> := ["fi"]
  const TRUE: seq<string> := ["true"]
  const KILL_COMMENT: seq<string> :=
    ["#", "ensure", "service", "is", "killed", "if", "it", "fails", "to", "acquire", "dbus", "name"]

  function Phrase(words: seq<string>): string {
    Join(words, " ")
  }

  predicate Simple(ws: seq<string>) {
    forall k :: 0 <= k < |ws| ==> Shlex.SimpleWord(ws[k])
  }

  lemma IfWordsSimple()
    ensures Simple(IF_SUCCEEDED) && Simple(IF_FAILED)
  {
  }

  lemma ShortWordsSimple()
    ensures Simple(ELSE) && Simple(FI) && Simple(TRUE) && Simple(RETURN_1)
  {
  }

  lemma CommentWordsSimple()
    ensures Simple(KILL_COMMENT)
  {
  }

  lemma IfSucceededText()
    ensures Phrase(IF_SUCCEEDED) == "if [ $? -eq 0 ] ; then"
  {
    var w := IF_SUCCEEDED;
    JoinPair(w[6], w[7], " ");
    assert w[6..] == [w[6], w[7]];
    JoinCons(w[5], w[6..], " ");
    assert w[5..] == [w[5]] + w[6..];
    JoinCons(w[4], w[5..], " ");
    assert w[4..] == [w[4]] + w[5..];
    JoinCons(w[3], w[4..], " ");
    assert w[3..] == [w[3]] + w[4..];
    JoinCons(w[2], w[3..], " ");
    assert w[2..] == [w[2]] + w[3..];
    JoinCons(w[1], w[2..], " ");
    assert w[1..] == [w[1]] + w[2..];
    JoinCons(w[0], w[1..], " ");
    assert w == [w[0]] + w[1..];
  }

  /** A fixed line splits back to its words. */
  lemma PhraseSplits(ws: seq<string>)
    requires Simple(ws)
    ensures PartCommands(Part.Line(Phrase(ws))) == Success([Make(ws)])
  {
    SplitCommandWords(ws);
  }

  /** `Command.split(s)` in the conversion of `field`. */
  function SplitAs(s: string, field: string): (r: Result<Command, ConvertError>)
    ensures r.Success? <==> Shlex.Split(s).Success?
    ensures r.Success? ==> r.value == Make(Shlex.Split(s).value)
    ensures r.Failure? ==> r.error == Unsplittable(field, Shlex.Split(s).error)
  {
    match SplitCommand(s)
    case Success(c) => Success(c)
    case Failure(e) => Failure(Unsplittable(field, e))
  }

  /** `Command.split(v)` for an option value: shlex cannot read a list. */
  function SplitValue(v: Value, field: string): (r: Result<Command, ConvertError>)
    ensures v.List? ==> r == Failure(NotText(field))
    ensures v.Str? ==> r == SplitAs(v.s, field)
  {
    if v.List? then Failure(NotText(field)) else SplitAs(v.s, field)
  }

  // ---------------------------------------------------------------------------
  // _convert_exec_pre.

  /** One pre hook: a leading `-` (failure ignored) drops the dash and adds
      nothing; any other hook gets `|| return 1` so that its failure aborts. */
  function PreHook(o: Value, field: string): (r: Result<Command, ConvertError>)
    ensures o.List? ==> r == Failure(NotText(field))
    ensures o.Str? && StartsWith(o.s, "-") ==> r == SplitAs(o.s[1..], field)
    ensures o.Str? && !StartsWith(o.s, "-") ==> (r.Success? <==> Shlex.Split(o.s).Success?)
    ensures o.Str? && !StartsWith(o.s, "-") && r.Success? ==>
              r.value.args == Shlex.Split(o.s).value + GUARD && r.value.prefix == ""
  {
    if o.List? then Failure(NotText(field))
    else if StartsWith(o.s, "-") then SplitAs(o.s[1..], field)
    else
      var c :- SplitAs(o.s, field);
      Success(Extend(c, GUARD))
  }

  /** The hooks in order; the first failure stops it. */
  function PreHooks(opts: seq<Value>, field: string): (r: Result<seq<Command>, ConvertError>)
    ensures r.Success? <==> forall i :: 0 <= i < |opts| ==> PreHook(opts[i], field).Success?
    ensures r.Success? ==> |r.value| == |opts|
    ensures r.Success? ==> forall i :: 0 <= i < |opts| ==> r.value[i] == PreHook(opts[i], field).value
    decreases |opts|
  {
    if |opts| == 0 then Success([])
    else
      var c :- PreHook(opts[0], field);
      var rest :- PreHooks(opts[1..], field);
      assert forall i :: 0 < i < |opts| ==> opts[i] == opts[1..][i - 1];
      Success([c] + rest)
  }

  /** `_convert_exec_pre(options)`: the hooks, then `return 0` when there is at
      least one. */
  function ExecPre(v: Value, field: string): (r: Result<seq<Command>, ConvertError>)
    ensures |EnsureList(v)| == 0 ==> r == Success([])
    ensures r.Success? <==> PreHooks(EnsureList(v), field).Success?
    ensures r.Success? && |EnsureList(v)| > 0 ==>
              |r.value| == |EnsureList(v)| + 1 &&
              r.value[..|EnsureList(v)|] == PreHooks(EnsureList(v), field).value &&
              r.value[|EnsureList(v)|] == Make(RETURN_0)
  {
    var hooks :- PreHooks(EnsureList(v), field);
    if |hooks| > 0 then
      assert (hooks + [Make(RETURN_0)])[..|hooks|] == hooks;
      Success(hooks + [Make(RETURN_0)])
    else Success([])
  }

  /** Every hook but a dashed one ends with the guard; a dashed one is exactly
      the rest of its text split. */
  lemma ExecPreGuards(v: Value, field: string, i: nat)
    requires ExecPre(v, field).Success? && i < |EnsureList(v)|
    ensures EnsureList(v)[i].Str?
    ensures var o, c := EnsureList(v)[i].s, ExecPre(v, field).value[i];
      (StartsWith(o, "-") ==> Shlex.Split(o[1..]).Success? && c == Make(Shlex.Split(o[1..]).value)) &&
      (!StartsWith(o, "-") ==> |c.args| >= 3 && c.args[|c.args| - 3..] == GUARD)
  {
    var opts := EnsureList(v);
    var hooks := PreHooks(opts, field).value;
    assert ExecPre(v, field).value[i] == hooks[i];
    var c := hooks[i];
    if !StartsWith(opts[i].s, "-") {
      assert c.args == Shlex.Split(opts[i].s).value + GUARD;
    }
  }

  // ---------------------------------------------------------------------------
  // _convert_exec_post.

  /** One post hook, always guarded. */
  function PostHook(o: Value, field: string): (r: Result<Command, ConvertError>)
    ensures o.List? ==> r == Failure(NotText(field))
    ensures o.Str? ==> (r.Success? <==> Shlex.Split(o.s).Success?)
    ensures o.Str? && r.Success? ==> r.value == Make(Shlex.Split(o.s).value + GUARD)
  {
    var c :- SplitValue(o, field);
    Success(Extend(c, GUARD))
  }

  function PostHooks(opts: seq<Value>, field: string): (r: Result<seq<Command>, ConvertError>)
    ensures r.Success? <==> forall i :: 0 <= i < |opts| ==> PostHook(opts[i], field).Success?
    ensures r.Success? ==> |r.value| == |opts|
    ensures r.Success? ==> forall i :: 0 <= i < |opts| ==> r.value[i] == PostHook(opts[i], field).value
    decreases |opts|
  {
    if |opts| == 0 then Success([])
    else
      var c :- PostHook(opts[0], field);
      var rest :- PostHooks(opts[1..], field);
      assert forall i :: 0 < i < |opts| ==> opts[i] == opts[1..][i - 1];
      Success([c] + rest)
  }

  /** The if-block around already built hooks, as `multiple` and `indented`
      assemble it. */
  function PostBlock(hooks: seq<Command>): (r: Result<seq<Command>, Shlex.ShlexError>)
    ensures r.Success?
    ensures var n := |hooks|;
      |r.value| == n + 5 && r.value[0] == Make(IF_SUCCEEDED) &&
      (forall i :: 0 <= i < n ==> r.value[i + 1] == Indent(hooks[i], 1)) &&
      r.value[n + 1] == Indent(Make([EEND, "0"]), 1) && r.value[n + 2] == Make(ELSE) &&
      r.value[n + 3] == Indent(Make([EEND, "1"]), 1) && r.value[n + 4] == Make(FI)
  {
    IfWordsSimple();
    ShortWordsSimple();
    IndentedCommands(hooks, Make([EEND, "0"]));
    var inner := Indented([Cmds(hooks), Cmd(Make([EEND, "0"]))]).value;
    PostOuterWith(IF_SUCCEEDED, ELSE, FI, inner, Indent(Make([EEND, "1"]), 1));
    PostFrame(hooks, Indent(Make([EEND, "0"]), 1), Make(IF_SUCCEEDED), [Make(ELSE), Indent(Make([EEND, "1"]), 1), Make(FI)]);
    Multiple([Part.Line(Phrase(IF_SUCCEEDED)), Cmds(inner), Part.Line(Phrase(ELSE)),
              Cmd(Indent(Make([EEND, "1"]), 1)), Part.Line(Phrase(FI))])
  }

  lemma MultipleCons(p: Part, ps: seq<Part>)
    ensures Multiple([p] + ps) == Chain(PartCommands(p), Multiple(ps))
  {
    assert ([p] + ps)[0] == p && ([p] + ps)[1..] == ps;
  }

  /** `multiple` of parts that each contribute a known list. */
  lemma MultipleFour(p0: Part, p1: Part, p2: Part, p3: Part,
                     o0: seq<Command>, o1: seq<Command>, o2: seq<Command>, o3: seq<Command>)
    requires PartCommands(p0) == Success(o0) && PartCommands(p1) == Success(o1)
    requires PartCommands(p2) == Success(o2) && PartCommands(p3) == Success(o3)
    ensures Multiple([p0, p1, p2, p3]) == Success(o0 + o1 + o2 + o3)
  {
    MultipleOne(p3);
    MultipleCons(p2, [p3]);
    assert [p2] + [p3] == [p2, p3];
    MultipleCons(p1, [p2, p3]);
    assert [p1] + [p2, p3] == [p1, p2, p3];
    MultipleCons(p0, [p1, p2, p3]);
    assert [p0] + [p1, p2, p3] == [p0, p1, p2, p3];
    assert o0 + (o1 + (o2 + o3)) == o0 + o1 + o2 + o3;
  }

  lemma ConcatFive(o0: seq<Command>, o1: seq<Command>, o2: seq<Command>, o3: seq<Command>, o4: seq<Command>)
    ensures o0 + (o1 + o2 + o3 + o4) == o0 + o1 + o2 + o3 + o4
  {
  }

  lemma MultipleFive(p0: Part, p1: Part, p2: Part, p3: Part, p4: Part,
                     o0: seq<Command>, o1: seq<Command>, o2: seq<Command>, o3: seq<Command>, o4: seq<Command>)
    requires PartCommands(p0) == Success(o0) && PartCommands(p1) == Success(o1)
    requires PartCommands(p2) == Success(o2) && PartCommands(p3) == Success(o3)
    requires PartCommands(p4) == Success(o4)
    ensures Multiple([p0, p1, p2, p3, p4]) == Success(o0 + o1 + o2 + o3 + o4)
  {
    var ps := [p1, p2, p3, p4];
    MultipleFour(p1, p2, p3, p4, o1, o2, o3, o4);
    MultipleCons(p0, ps);
    assert [p0] + ps == [p0, p1, p2, p3, p4];
    assert Multiple([p0, p1, p2, p3, p4]) == Success(o0 + (o1 + o2 + o3 + o4));
    ConcatFive(o0, o1, o2, o3, o4);
  }

  lemma IndentOnce(c: Command)
    ensures Indent(c, 1) == Command(c.args, c.prefix + "\t")
  {
    assert Repeat('\t', 1) == "\t";
  }

  /** Indenting commands that are given as they are. */
  lemma IndentedCommands(hooks: seq<Command>, last: Command)
    ensures Indented([Cmds(hooks), Cmd(last)]).Success?
    ensures Indented([Cmds(hooks), Cmd(last)]).value
         == seq(|hooks|, i requires 0 <= i < |hooks| => Indent(hooks[i], 1)) + [Indent(last, 1)]
  {
    MultipleCons(Cmds(hooks), [Cmd(last)]);
    MultipleOne(Cmd(last));
    var r := Indented([Cmds(hooks), Cmd(last)]).value;
    var m := hooks + [last];
    assert Multiple([Cmds(hooks), Cmd(last)]) == Success(m);
    forall i | 0 <= i < |r| ensures r[i] == Indent(m[i], 1) {
      IndentOnce(m[i]);
    }
  }

  /** Where the hooks land once framed by the opening test and the closing lines. */
  lemma PostFrame(hooks: seq<Command>, last: Command, head: Command, tail: seq<Command>)
    ensures var r := [head] + (seq(|hooks|, i requires 0 <= i < |hooks| => Indent(hooks[i], 1)) + [last]) + tail;
      var n := |hooks|;
      |r| == n + 2 + |tail| && r[0] == head && r[n + 1] == last &&
      (forall i :: 0 <= i < n ==> r[i + 1] == Indent(hooks[i], 1)) &&
      (forall i :: 0 <= i < |tail| ==> r[n + 2 + i] == tail[i])
  {
  }

  lemma PostOuterWith(ifw: seq<string>, elsew: seq<string>, fiw: seq<string>, inner: seq<Command>, e1: Command)
    requires Simple(ifw) && Simple(elsew) && Simple(fiw)
    ensures Multiple([Part.Line(Phrase(ifw)), Cmds(inner), Part.Line(Phrase(elsew)), Cmd(e1), Part.Line(Phrase(fiw))])
         == Success([Make(ifw)] + inner + [Make(elsew), e1, Make(fiw)])
  {
    PhraseSplits(ifw);
    PhraseSplits(elsew);
    PhraseSplits(fiw);
    MultipleFive(Part.Line(Phrase(ifw)), Cmds(inner), Part.Line(Phrase(elsew)), Cmd(e1), Part.Line(Phrase(fiw)),
                 [Make(ifw)], inner, [Make(elsew)], [e1], [Make(fiw)]);
    assert [Make(ifw)] + inner + [Make(elsew)] + [e1] + [Make(fiw)] == [Make(ifw)] + inner + [Make(elsew), e1, Make(fiw)];
  }

  /** `_convert_exec_post(options)`: n hooks give n + 5 commands: the test of
      the supervisor's status, each hook guarded and indented, `eend 0`
      indented, `else`, `eend 1` indented, `fi`. */
  function ExecPost(v: Value, field: string): (r: Result<seq<Command>, ConvertError>)
    ensures r.Success? <==> PostHooks(EnsureList(v), field).Success?
    ensures r.Success? ==> var hooks, n := PostHooks(EnsureList(v), field).value, |EnsureList(v)|;
      |r.value| == n + 5 && r.value[0] == Make(IF_SUCCEEDED) &&
      (forall i :: 0 <= i < n ==> r.value[i + 1] == Indent(hooks[i], 1)) &&
      r.value[n + 1] == Indent(Make([EEND, "0"]), 1) && r.value[n + 2] == Make(ELSE) &&
      r.value[n + 3] == Indent(Make([EEND, "1"]), 1) && r.value[n + 4] == Make(FI)
  {
    var hooks :- PostHooks(EnsureList(v), field);
    Success(PostBlock(hooks).value)
  }

  // ---------------------------------------------------------------------------
  // The D-Bus wait.

  /** The block a `dbus` service runs after the supervisor: wait for the bus
      name, and on failure kill the daemon, report and abort. */
  function DbusBlock(busName: string, pidfile: string): (r: Result<seq<Command>, Shlex.ShlexError>)
    ensures r.Success?
    ensures |r.value| == 8 && r.value[0] == Make([DBUS_SERVICE_WAIT, busName]) && r.value[1] == Make(IF_FAILED) &&
      r.value[2] == Indent(Make(KILL_COMMENT), 1) &&
      r.value[3] == Indent(Make(["kill", "-9", "$(<", pidfile, ")"]), 1) &&
      r.value[4] == Indent(Make([EEND, "1"]), 1) && r.value[5] == Indent(Make(RETURN_1), 1) &&
      r.value[6] == Make(FI) && r.value[7] == Make(TRUE)
  {
    IfWordsSimple();
    ShortWordsSimple();
    CommentWordsSimple();
    DbusBlockWith(Make([DBUS_SERVICE_WAIT, busName]), Make(["kill", "-9", "$(<", pidfile, ")"]), Make([EEND, "1"]),
                  KILL_COMMENT, RETURN_1, IF_FAILED, FI, TRUE);
    var inner := Indented([Part.Line(Phrase(KILL_COMMENT)), Cmd(Make(["kill", "-9", "$(<", pidfile, ")"])),
                           Cmd(Make([EEND, "1"])), Part.Line(Phrase(RETURN_1))]).value;
    Multiple([Cmd(Make([DBUS_SERVICE_WAIT, busName])), Part.Line(Phrase(IF_FAILED)), Cmds(inner),
              Part.Line(Phrase(FI)), Part.Line(Phrase(TRUE))])
  }

  lemma DbusInnerWith(comment: seq<string>, ret: seq<string>, k: Command, e: Command)
    requires Simple(comment) && Simple(ret)
    ensures Multiple([Part.Line(Phrase(comment)), Cmd(k), Cmd(e), Part.Line(Phrase(ret))])
         == Success([Make(comment), k, e, Make(ret)])
  {
    PhraseSplits(comment);
    PhraseSplits(ret);
    MultipleFour(Part.Line(Phrase(comment)), Cmd(k), Cmd(e), Part.Line(Phrase(ret)),
                 [Make(comment)], [k], [e], [Make(ret)]);
    assert [Make(comment)] + [k] + [e] + [Make(ret)] == [Make(comment), k, e, Make(ret)];
  }

  lemma DbusOuterWith(w: Command, ifw: seq<string>, fi: seq<string>, tr: seq<string>, inner: seq<Command>)
    requires Simple(ifw) && Simple(fi) && Simple(tr)
    ensures Multiple([Cmd(w), Part.Line(Phrase(ifw)), Cmds(inner), Part.Line(Phrase(fi)), Part.Line(Phrase(tr))])
         == Success([w, Make(ifw)] + inner + [Make(fi), Make(tr)])
  {
    PhraseSplits(ifw);
    PhraseSplits(fi);
    PhraseSplits(tr);
    MultipleFive(Cmd(w), Part.Line(Phrase(ifw)), Cmds(inner), Part.Line(Phrase(fi)), Part.Line(Phrase(tr)),
                 [w], [Make(ifw)], inner, [Make(fi)], [Make(tr)]);
    assert [w] + [Make(ifw)] + inner + [Make(fi)] + [Make(tr)] == [w, Make(ifw)] + inner + [Make(fi), Make(tr)];
  }

  lemma DbusBlockWith(w: Command, k: Command, e: Command, comment: seq<string>, ret: seq<string>,
                      ifw: seq<string>, fi: seq<string>, tr: seq<string>)
    requires Simple(comment) && Simple(ret) && Simple(ifw) && Simple(fi) && Simple(tr)
    ensures var inner := Indented([Part.Line(Phrase(comment)), Cmd(k), Cmd(e), Part.Line(Phrase(ret))]);
      inner.Success? && |inner.value| == 4 && inner.value[1] == Indent(k, 1) &&
      Multiple([Cmd(w), Part.Line(Phrase(ifw)), Cmds(inner.value), Part.Line(Phrase(fi)), Part.Line(Phrase(tr))])
        == Success([w, Make(ifw)] + inner.value + [Make(fi), Make(tr)])
    ensures var inner := Indented([Part.Line(Phrase(comment)), Cmd(k), Cmd(e), Part.Line(Phrase(ret))]).value;
      var r := [w, Make(ifw)] + inner + [Make(fi), Make(tr)];
      |r| == 8 && r[0] == w && r[1] == Make(ifw) && r[2] == Indent(Make(comment), 1) && r[3] == Indent(k, 1) &&
      r[4] == Indent(e, 1) && r[5] == Indent(Make(ret), 1) && r[6] == Make(fi) && r[7] == Make(tr)
  {
    DbusInnerWith(comment, ret, k, e);
    IndentOnce(Make(comment));
    IndentOnce(k);
    IndentOnce(e);
    IndentOnce(Make(ret));
    var inner := Indented([Part.Line(Phrase(comment)), Cmd(k), Cmd(e), Part.Line(Phrase(ret))]).value;
    DbusOuterWith(w, ifw, fi, tr, inner);
    var r := [w, Make(ifw)] + inner + [Make(fi), Make(tr)];
    assert r[2] == inner[0] && r[3] == inner[1] && r[4] == inner[2] && r[5] == inner[3];
  }

  }
