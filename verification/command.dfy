/** `Command` (an argument list and the indentation written before it), its
    rendering as a line of shell, the helpers that build lists of commands, and
    `StartStopDaemon`'s argument layouts. */
module Commands {
  import opened Wrappers
  import opened Text
  import opened Consts
  import opened PyEscape
  import Shlex

  /** A command: its arguments and the indentation written before it. */
  datatype Command = Command(args: seq<string>, prefix: string)

  /** `Command(*args)`. */
  function Make(args: seq<string>): (c: Command)
    ensures c.args == args && c.prefix == ""
  {
    Command(args, "")
  }

  predicate AllTabs(s: string) {
    forall i :: 0 <= i < |s| ==> s[i] == '\t'
  }

  /** `indent(amount)`: `amount` more tabs after the prefix (none for a
      negative amount, as `"\t" * amount` gives); the arguments stay. */
  function Indent(c: Command, amount: int): (r: Command)
    ensures r.args == c.args
    ensures StartsWith(r.prefix, c.prefix)
    ensures |r.prefix| == |c.prefix| + (if amount <= 0 then 0 else amount)
    ensures AllTabs(r.prefix[|c.prefix|..])
  {
    var r := Command(c.args, c.prefix + Repeat('\t', amount));
    assert r.prefix[..|c.prefix|] == c.prefix;
    assert r.prefix[|c.prefix|..] == Repeat('\t', amount);
    r
  }

  /** `extend(*a)`: the arguments `a` after the existing ones; the prefix stays. */
  function Extend(c: Command, a: seq<string>): (r: Command)
    ensures r.prefix == c.prefix
    ensures |r.args| == |c.args| + |a|
    ensures r.args[..|c.args|] == c.args && r.args[|c.args|..] == a
  {
    var r := Command(c.args + a, c.prefix);
    assert r.args[..|c.args|] == c.args;
    r
  }

  /** Two indentations add up. */
  lemma IndentTwice(c: Command, a: nat, b: nat)
    ensures Indent(Indent(c, a), b) == Indent(c, a + b)
  {
    var x, y := Indent(Indent(c, a), b), Indent(c, a + b);
    assert |x.prefix| == |y.prefix|;
    forall i | 0 <= i < |x.prefix| ensures x.prefix[i] == y.prefix[i] {
      if i < |c.prefix| {
        assert x.prefix[..|c.prefix|] == c.prefix;
        assert y.prefix[..|c.prefix|] == c.prefix;
      } else {
        assert x.prefix[i] == '\t' by {
          if i < |c.prefix| + a {
            assert x.prefix[..|c.prefix| + a] == Indent(c, a).prefix;
            assert Indent(c, a).prefix[|c.prefix|..][i - |c.prefix|] == '\t';
          } else {
            assert x.prefix[|c.prefix| + a..][i - |c.prefix| - a] == '\t';
          }
        }
        assert y.prefix[|c.prefix|..][i - |c.prefix|] == '\t';
      }
    }
  }

  /** Two extensions add up. */
  lemma ExtendTwice(c: Command, a: seq<string>, b: seq<string>)
    ensures Extend(Extend(c, a), b) == Extend(c, a + b)
  {
    assert c.args + a + b == c.args + (a + b);
  }

  /** Indenting and extending do not interfere. */
  lemma IndentExtend(c: Command, a: seq<string>, n: int)
    ensures Indent(Extend(c, a), n) == Extend(Indent(c, n), a)
  {
  }

  // ---------------------------------------------------------------------------
  // to_string.

  /** The escaping step: a token holding a double quote goes through
      `string_escape` with the double quotes escaped; any other token is kept. */
  function EscapeArg(x: string): (r: string)
    ensures '"' !in x ==> r == x
    ensures QuotesGuarded(r)
  {
    if '"' in x then TokenEscape(x)
    else
      x
  }

  /** The quoting step: a token with a space that is not all whitespace is put
      in double quotes. */
  function QuoteArg(x: string): (r: string)
    ensures ' ' in x && !IsBlank(x) ==> r == "\"" + x + "\""
    ensures !(' ' in x && !IsBlank(x)) ==> r == x
  {
    if ' ' in x && !IsBlank(x) then "\"" + x + "\"" else x
  }

  function ArgText(x: string): string {
    QuoteArg(EscapeArg(x))
  }

  function ArgTexts(args: seq<string>): (r: seq<string>)
    ensures |r| == |args|
    ensures forall i :: 0 <= i < |args| ==> r[i] == ArgText(args[i])
  {
    seq(|args|, i requires 0 <= i < |args| => ArgText(args[i]))
  }

  /** `to_string()`: the prefix, then the rendered tokens separated by single
      spaces; tokens shlex would pass through unchanged are printed as they
      are. */
  function ToString(c: Command): (r: string)
    ensures StartsWith(r, c.prefix)
    ensures (forall i :: 0 <= i < |c.args| ==> Shlex.SimpleWord(c.args[i])) ==> r == c.prefix + Join(c.args, " ")
  {
    var r := c.prefix + Join(ArgTexts(c.args), " ");
    assert r[..|c.prefix|] == c.prefix;
    if forall i :: 0 <= i < |c.args| ==> Shlex.SimpleWord(c.args[i]) then
      SimpleArgTexts(c.args);
      r
    else
      r
  }

  /** A token shlex would pass through unchanged is rendered unchanged. */
  lemma SimpleArgText(x: string)
    requires Shlex.SimpleWord(x)
    ensures ArgText(x) == x
  {
    assert '"' !in x && ' ' !in x;
  }

  /** Tokens shlex would pass through unchanged all render unchanged. */
  lemma SimpleArgTexts(args: seq<string>)
    requires forall i :: 0 <= i < |args| ==> Shlex.SimpleWord(args[i])
    ensures ArgTexts(args) == args
  {
    forall i | 0 <= i < |args| ensures ArgTexts(args)[i] == args[i] {
      SimpleArgText(args[i]);
    }
  }

  /** A plain word followed by a token with a space in it (as in
      `echo "hello world"`): the second token is put in double quotes. */
  lemma ToStringQuotesSpaced(a: string, b: string)
    requires '"' !in a && ' ' !in a
    requires '"' !in b && ' ' in b && !IsBlank(b)
    ensures ToString(Make([a, b])) == a + " \"" + b + "\""
  {
    var q := "\"" + b + "\"";
    assert ArgTexts([a, b]) == [a, q];
    JoinPair(a, q, " ");
    assert a + " " + q == a + " \"" + b + "\"";
  }

  /** A token with a space and something else in it is put in double quotes
      around text that a shell reads back as the token, provided it is printable
      ASCII without expansions and holds no backslash unless it also holds a
      double quote. */
  lemma QuotedArgReadsBack(x: string)
    requires ShellLiteralText(x) && ' ' in x && !IsBlank(x)
    requires '\\' in x ==> '"' in x
    ensures exists e :: ArgText(x) == "\"" + e + "\"" && DqRead(e) == x
  {
    var e := EscapeArg(x);
    if '"' !in x {
      DqReadPlain(x);
    }
    assert ' ' in e && !IsBlank(e) by {
      var i :| 0 <= i < |x| && x[i] == ' ';
      var j :| 0 <= j < |x| && !IsSpace(x[j]);
      if '"' in x {
        DqReadHas(e, ' ');
        DqReadBlank(e);
      } else {
        assert e[i] == ' ' && !IsSpace(e[j]);
      }
    }
    assert ArgText(x) == "\"" + e + "\"";
  }

  /** Reading drops only backslashes: a space in the reading was in the text. */
  lemma {:induction false} DqReadHas(s: string, c: char)
    requires c != '\\' && c in DqRead(s)
    ensures c in s
    decreases |s|
  {
    if |s| > 0 {
      if s[0] == '\\' && |s| >= 2 && IsDqSpecial(s[1]) {
        if s[1] != c {
          assert DqRead(s) == [s[1]] + DqRead(s[2..]);
          DqReadHas(s[2..], c);
          assert s[2..] == s[|s| - (|s| - 2)..];
        }
      } else {
        if s[0] != c {
          assert DqRead(s) == [s[0]] + DqRead(s[1..]);
          DqReadHas(s[1..], c);
        }
      }
    }
  }

  /** All-whitespace text reads as all-whitespace text. */
  lemma {:induction false} DqReadBlank(s: string)
    ensures IsBlank(s) ==> IsBlank(DqRead(s))
    decreases |s|
  {
    if |s| > 0 && IsBlank(s) {
      assert IsSpace(s[0]) && s[0] != '\\';
      assert IsBlank(s[1..]) by {
        forall i | 0 <= i < |s[1..]| ensures IsSpace(s[1..][i]) {
          assert s[1..][i] == s[i + 1];
        }
      }
      DqReadBlank(s[1..]);
      var r := DqRead(s);
      assert r == [s[0]] + DqRead(s[1..]);
      forall i | 0 <= i < |r| ensures IsSpace(r[i]) {
        if i > 0 {
          assert r[i] == DqRead(s[1..])[i - 1];
        }
      }
    }
  }

  /** Leading whitespace adds no word. */
  lemma {:induction false} WordsAfterSpace(t: string, s: string)
    requires forall i :: 0 <= i < |t| ==> Shlex.IsShlexSpace(t[i])
    ensures Shlex.Words(t + s) == Shlex.Words(s)
    decreases |t|
  {
    if |t| == 0 {
      assert t + s == s;
    } else {
      assert (t + s)[0] == t[0];
      assert (t + s)[1..] == t[1..] + s;
      WordsAfterSpace(t[1..], s);
    }
  }

  /** Rendering and splitting are inverse on commands of simple tokens: the
      shell (and shlex) reads the line back as the arguments. */
  lemma ToStringSplits(c: Command)
    requires AllTabs(c.prefix)
    requires forall i :: 0 <= i < |c.args| ==> Shlex.SimpleWord(c.args[i])
    ensures Shlex.Split(ToString(c)) == Success(c.args)
  {
    var j := Join(c.args, " ");
    Shlex.WordsJoin(c.args);
    WordsAfterSpace(c.prefix, j);
    var s := c.prefix + j;
    forall i | 0 <= i < |s| ensures Shlex.PlainChar(s[i]) {
      if i >= |c.prefix| {
        assert s[i] == j[i - |c.prefix|];
      }
    }
  }

  // ---------------------------------------------------------------------------
  // Building lists of commands.

  /** `Command.split(s)`: a command of the shlex words of `s`, or shlex's error. */
  function SplitCommand(s: string): (r: Result<Command, Shlex.ShlexError>)
    ensures r.Success? <==> Shlex.Split(s).Success?
    ensures r.Success? ==> r.value == Make(Shlex.Split(s).value)
    ensures r.Failure? ==> r.error == Shlex.Split(s).error
  {
    match Shlex.Split(s)
    case Success(ws) => Success(Make(ws))
    case Failure(e) => Failure(e)
  }

  /** Words of plain characters separated by spaces split back to a command of
      those words. */
  lemma SplitCommandWords(ws: seq<string>)
    requires forall k :: 0 <= k < |ws| ==> Shlex.SimpleWord(ws[k])
    ensures SplitCommand(Join(ws, " ")) == Success(Make(ws))
  {
    Shlex.SplitJoin(ws);
  }

  /** An argument of `multiple`: a list of commands spliced in, a command kept
      as it is, or a string to split. */
  datatype Part = Cmds(cs: seq<Command>) | Cmd(c: Command) | Line(s: string)

  /** What one argument of `multiple` contributes. */
  function PartCommands(p: Part): (r: Result<seq<Command>, Shlex.ShlexError>)
    ensures p.Cmds? ==> r == Success(p.cs)
    ensures p.Cmd? ==> r == Success([p.c])
    ensures p.Line? ==> (r.Success? <==> Shlex.Split(p.s).Success?)
    ensures p.Line? && r.Success? ==> r.value == [Make(Shlex.Split(p.s).value)]
  {
    match p
    case Cmds(cs) => Success(cs)
    case Cmd(c) => Success([c])
    case Line(s) =>
      match SplitCommand(s)
      case Success(c) => Success([c])
      case Failure(e) => Failure(e)
  }

  /** Commands from one argument followed by commands from the rest; the
      first failure wins. */
  function Chain(h: Result<seq<Command>, Shlex.ShlexError>, t: Result<seq<Command>, Shlex.ShlexError>)
    : Result<seq<Command>, Shlex.ShlexError>
  {
    if h.Failure? then h else if t.Failure? then t else Success(h.value + t.value)
  }

  lemma ChainAssoc(x: Result<seq<Command>, Shlex.ShlexError>, y: Result<seq<Command>, Shlex.ShlexError>,
                   z: Result<seq<Command>, Shlex.ShlexError>)
    ensures Chain(x, Chain(y, z)) == Chain(Chain(x, y), z)
  {
    if x.Success? && y.Success? && z.Success? {
      assert x.value + (y.value + z.value) == (x.value + y.value) + z.value;
    }
  }

  /** `Command.multiple(*parts)`: the contributions in argument order; the
      first string shlex rejects stops it. */
  function Multiple(parts: seq<Part>): (r: Result<seq<Command>, Shlex.ShlexError>)
    ensures r.Success? <==> forall i :: 0 <= i < |parts| ==> PartCommands(parts[i]).Success?
    decreases |parts|
  {
    if |parts| == 0 then Success([]) else Chain(PartCommands(parts[0]), Multiple(parts[1..]))
  }

  /** Splitting the arguments splits the result: order is kept and the first
      failure wins. */
  lemma {:induction false} MultipleAppend(a: seq<Part>, b: seq<Part>)
    ensures Multiple(a + b) == Chain(Multiple(a), Multiple(b))
    ensures Multiple(a).Failure? ==> Multiple(a + b) == Multiple(a)
    ensures Multiple(a).Success? && Multiple(b).Success? ==>
              Multiple(a + b) == Success(Multiple(a).value + Multiple(b).value)
    decreases |a|
  {
    if |a| == 0 {
      assert a + b == b;
      if Multiple(b).Success? {
        assert [] + Multiple(b).value == Multiple(b).value;
      }
    } else {
      assert (a + b)[0] == a[0] && (a + b)[1..] == a[1..] + b;
      MultipleAppend(a[1..], b);
      ChainAssoc(PartCommands(a[0]), Multiple(a[1..]), Multiple(b));
    }
  }

  /** `multiple` of a single argument. */
  lemma MultipleOne(p: Part)
    ensures Multiple([p]) == PartCommands(p)
  {
    assert [p][1..] == [];
    if PartCommands(p).Success? {
      assert PartCommands(p).value + [] == PartCommands(p).value;
    }
  }

  /** `Command.indented(*parts)`: as `multiple`, each command one tab deeper. */
  function Indented(parts: seq<Part>): (r: Result<seq<Command>, Shlex.ShlexError>)
    ensures r.Success? <==> Multiple(parts).Success?
    ensures r.Failure? ==> r == Multiple(parts)
    ensures r.Success? ==> |r.value| == |Multiple(parts).value|
    ensures r.Success? ==> forall i :: 0 <= i < |r.value| ==>
              r.value[i].args == Multiple(parts).value[i].args &&
              r.value[i].prefix == Multiple(parts).value[i].prefix + "\t"
  {
    match Multiple(parts)
    case Failure(e) => Failure(e)
    case Success(cs) =>
      Success(seq(|cs|, i requires 0 <= i < |cs| => Indent(cs[i], 1)))
  }

  // ---------------------------------------------------------------------------
  // StartStopDaemon.

  /** `StartStopDaemon.stop(pidfile)`: kill the process recorded in the pidfile. */
  function SsdStop(pidfile: string): (c: Command)
    ensures c.prefix == ""
    ensures c.args == [START_STOP_DAEMON, "-K", "-p", pidfile]
  {
    Make([START_STOP_DAEMON, "-K", "-p", pidfile])
  }

  /** The supervisor options before the daemon: a forking daemon manages its
      own pidfile; any other is backgrounded with a pidfile written for it. */
  function SsdHead(pidfile: string, forking: bool): seq<string> {
    if forking then [START_STOP_DAEMON, "-S"]
    else [START_STOP_DAEMON, "-S", "-b", "-m", "-p", pidfile, "-x"]
  }

  /** `StartStopDaemon.start(daemon, pidfile, forking)`. The daemon's first
      argument is its executable, so the command must have one. */
  function SsdStart(daemon: Command, pidfile: string, forking: bool): (c: Command)
    requires |daemon.args| > 0
    ensures c.prefix == ""
    ensures |c.args| == |SsdHead(pidfile, forking)| + |daemon.args| + 1
  {
    var a := daemon.args;
    Make(SsdHead(pidfile, forking) + [a[0], "--"] + a[1..])
  }

  /** The executable comes right after the supervisor options, then `--`, then
      the daemon's own arguments unchanged. */
  lemma SsdStartLayout(daemon: Command, pidfile: string, forking: bool)
    requires |daemon.args| > 0
    ensures var h, c := SsdHead(pidfile, forking), SsdStart(daemon, pidfile, forking);
      c.args[..|h|] == h && c.args[|h|] == daemon.args[0] && c.args[|h| + 1] == "--" &&
      c.args[|h| + 2..] == daemon.args[1..]
  {
    var h, a := SsdHead(pidfile, forking), daemon.args;
    var args := h + [a[0], "--"] + a[1..];
    assert args[..|h|] == h;
    assert args[|h| + 2..] == a[1..];
  }

  /** The two start layouts differ only in the supervisor options: the forking
      one is `-S` and the daemon; the other inserts `-b -m -p pidfile -x`. */
  lemma SsdStartForms(daemon: Command, pidfile: string)
    requires |daemon.args| > 0
    ensures SsdStart(daemon, pidfile, true).args[..2] == [START_STOP_DAEMON, "-S"]
    ensures SsdStart(daemon, pidfile, false).args
         == [START_STOP_DAEMON, "-S", "-b", "-m", "-p", pidfile, "-x"] + SsdStart(daemon, pidfile, true).args[2..]
  {
    var a := daemon.args;
    var tail := [a[0], "--"] + a[1..];
    assert SsdStart(daemon, pidfile, true).args == [START_STOP_DAEMON, "-S"] + tail;
    assert SsdStart(daemon, pidfile, true).args[2..] == tail;
    assert SsdStart(daemon, pidfile, true).args[..2] == [START_STOP_DAEMON, "-S"];
  }
}
