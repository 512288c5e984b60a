/** Dependency names: a systemd unit name becomes an OpenRC service name, and a
    requirement option (a string of names, or a list of such, possibly nested)
    becomes the set of service names it mentions. */
module Requirements {
  import opened Wrappers
  import opened Text
  import opened Consts
  import opened ServiceConfig
  import Shlex

  const DEVICE: string := ".device"
  const SOCKET: string := ".socket"
  const TARGET: string := ".target"
  const SERVICE: string := ".service"

  /** Units OpenRC has no counterpart for: devices and sockets. */
  predicate Dropped(r: string) {
    EndsWith(r, DEVICE) || EndsWith(r, SOCKET)
  }

  /** Units whose service is named by their name without the type suffix. */
  predicate Stripped(r: string) {
    EndsWith(r, TARGET) || EndsWith(r, SERVICE)
  }

  /** `".".join(r.split(".")[0:-1])`: everything before the last dot. */
  function DropLastSegment(r: string): string {
    var parts := SplitOn(r, '.');
    Join(parts[..|parts| - 1], ".")
  }

  lemma {:induction false} SplitOnSnoc(a: string, c: char, w: string)
    requires c !in w
    ensures SplitOn(a + [c] + w, c) == SplitOn(a, c) + [w]
    decreases |a|
  {
    var s := a + [c] + w;
    if |a| == 0 {
      assert s == [c] + w && s[1..] == w;
      SplitOnFree(w, c);
    } else {
      assert s[1..] == a[1..] + [c] + w;
      SplitOnSnoc(a[1..], c, w);
      var pa := SplitOn(a[1..], c);
      assert SplitOn(s[1..], c) == pa + [w];
      if a[0] != c {
        assert (pa + [w])[1..] == pa[1..] + [w];
      }
    }
  }

  /** With the last segment free of dots, dropping it gives back the rest. */
  lemma DropSegment(a: string, w: string)
    requires '.' !in w
    ensures DropLastSegment(a + "." + w) == a
  {
    SplitOnSnoc(a, '.', w);
    var p := SplitOn(a, '.') + [w];
    assert p[..|p| - 1] == SplitOn(a, '.');
    JoinSplitOn(a, '.');
  }

  /** A name ending in `suffix` (a dot and a dot-free word) loses exactly it. */
  lemma DropSuffix(r: string, suffix: string)
    requires |suffix| > 0 && suffix[0] == '.' && '.' !in suffix[1..]
    requires EndsWith(r, suffix)
    ensures DropLastSegment(r) + suffix == r
  {
    var a := r[..|r| - |suffix|];
    assert r == a + "." + suffix[1..];
    DropSegment(a, suffix[1..]);
  }

  lemma SuffixShapes()
    ensures TARGET[0] == '.' && '.' !in TARGET[1..]
    ensures SERVICE[0] == '.' && '.' !in SERVICE[1..]
  {
  }

  /** `_convert_requirement(r)`: the synonym table first, then devices and
      sockets dropped (empty name), then targets and services stripped of
      their suffix; any other name is kept. */
  function ConvertRequirement(r: string): (x: string)
    ensures r in UNIT_NAMES_DICT ==> x == UNIT_NAMES_DICT[r]
    ensures r !in UNIT_NAMES_DICT && Dropped(r) ==> x == ""
    ensures r !in UNIT_NAMES_DICT && !Dropped(r) && EndsWith(r, TARGET) ==> x + TARGET == r
    ensures r !in UNIT_NAMES_DICT && !Dropped(r) && EndsWith(r, SERVICE) ==> x + SERVICE == r
    ensures r !in UNIT_NAMES_DICT && !Dropped(r) && !Stripped(r) ==> x == r
  {
    if r in UNIT_NAMES_DICT then UNIT_NAMES_DICT[r]
    else if Dropped(r) then ""
    else if Stripped(r) then
      SuffixShapes();
      if EndsWith(r, TARGET) then DropSuffix(r, TARGET); DropLastSegment(r)
      else DropSuffix(r, SERVICE); DropLastSegment(r)
    else r
  }

  /** The table wins over the suffix rules: `dbus.socket` is a socket unit yet
      becomes `dbus`. */
  lemma TableBeforeSuffix(r: string)
    requires r == "dbus.socket"
    ensures Dropped(r)
    ensures ConvertRequirement(r) == "dbus"
  {
    assert r[|r| - |SOCKET|..] == SOCKET;
  }

  /** A service unit is neither in the table nor dropped. */
  lemma ServiceUnit(r: string)
    requires EndsWith(r, SERVICE)
    ensures r !in UNIT_NAMES_DICT && !Dropped(r)
  {
    var n := |r|;
    assert r[n - 8..] == SERVICE;
    assert r[n - 1] == 'e' by {
      assert r[n - 8..][7] == SERVICE[7];
    }
    assert !EndsWith(r, SOCKET) by {
      assert SOCKET[6] == 't';
    }
    assert !EndsWith(r, DEVICE) by {
      assert DEVICE[2] == 'e';
      assert r[n - 8..][3] == 'r';
    }
    TableNamesEndInT();
  }

  lemma TableNamesEndInT()
    ensures forall k :: k in UNIT_NAMES_DICT ==> |k| > 0 && k[|k| - 1] == 't'
  {
  }

  /** Only the last dot segment goes: `a.b.service` becomes `a.b`. */
  lemma InnerDotsKept(a: string, b: string)
    requires '.' !in a && '.' !in b
    ensures ConvertRequirement(a + "." + b + SERVICE) == a + "." + b
  {
    var r := a + "." + b + SERVICE;
    assert r[|r| - |SERVICE|..] == SERVICE;
    ServiceUnit(r);
  }

  // ---------------------------------------------------------------------------
  // _convert_requirements.

  /** Concatenation of a sequence of sequences. */
  function Flatten<T>(ss: seq<seq<T>>): (r: seq<T>)
    decreases |ss|
  {
    if |ss| == 0 then [] else ss[0] + Flatten(ss[1..])
  }

  lemma {:induction false} FlattenAppend<T>(a: seq<seq<T>>, b: seq<seq<T>>)
    ensures Flatten(a + b) == Flatten(a) + Flatten(b)
    decreases |a|
  {
    if |a| == 0 {
      assert a + b == b;
    } else {
      assert (a + b)[1..] == a[1..] + b;
      FlattenAppend(a[1..], b);
    }
  }

  /** The strings of a value in the order `add` visits them: a string itself,
      a list its items' strings in turn. */
  function Leaves(v: Value): seq<string>
    decreases v
  {
    match v
    case Str(s) => [s]
    case List(items) => Flatten(seq(|items|, i requires 0 <= i < |items| => Leaves(items[i])))
  }

  /** The names one word list contributes: converted, empty ones dropped. */
  function Converted(ws: seq<string>): (r: set<string>)
    ensures "" !in r
    ensures forall x :: x in r <==> exists j :: 0 <= j < |ws| && ConvertRequirement(ws[j]) == x && x != ""
  {
    set j | 0 <= j < |ws| && ConvertRequirement(ws[j]) != "" :: ConvertRequirement(ws[j])
  }

  /** `x` is the conversion of some word of some string. */
  ghost predicate Mentions(leaves: seq<string>, x: string) {
    exists i, j :: 0 <= i < |leaves| && Shlex.Split(leaves[i]).Success? &&
      0 <= j < |Shlex.Split(leaves[i]).value| && ConvertRequirement(Shlex.Split(leaves[i]).value[j]) == x
  }

  /** Every string splits. */
  predicate AllSplit(leaves: seq<string>) {
    forall i :: 0 <= i < |leaves| ==> Shlex.Split(leaves[i]).Success?
  }

  /** The strings in turn; the first shlex failure stops it. */
  function RequirementsOf(leaves: seq<string>): (r: Result<set<string>, Shlex.ShlexError>)
    ensures r.Success? <==> AllSplit(leaves)
    ensures r.Success? ==> "" !in r.value
    ensures r.Success? ==> forall x :: x in r.value <==> x != "" && Mentions(leaves, x)
    decreases |leaves|
  {
    if |leaves| == 0 then Success({})
    else
      assert AllSplit(leaves) <==> Shlex.Split(leaves[0]).Success? && AllSplit(leaves[1..]) by {
        if Shlex.Split(leaves[0]).Success? && AllSplit(leaves[1..]) {
          forall i | 0 < i < |leaves| ensures Shlex.Split(leaves[i]).Success? {
            assert leaves[i] == leaves[1..][i - 1];
          }
        }
      }
      match Shlex.Split(leaves[0])
      case Failure(e) => Failure(e)
      case Success(ws) =>
        match RequirementsOf(leaves[1..])
        case Failure(e) => Failure(e)
        case Success(rest) =>
          var r := Converted(ws) + rest;
          assert forall x :: x in r <==> x != "" && Mentions(leaves, x) by {
            forall x ensures x in r <==> x != "" && Mentions(leaves, x) {
              MentionsCons(leaves, x);
            }
          }
          Success(r)
  }

  lemma MentionsCons(leaves: seq<string>, x: string)
    requires |leaves| > 0 && Shlex.Split(leaves[0]).Success?
    ensures Mentions(leaves, x) <==>
      (exists j :: 0 <= j < |Shlex.Split(leaves[0]).value| && ConvertRequirement(Shlex.Split(leaves[0]).value[j]) == x)
      || Mentions(leaves[1..], x)
  {
    var ws := Shlex.Split(leaves[0]).value;
    if Mentions(leaves, x) {
      var i, j :| 0 <= i < |leaves| && Shlex.Split(leaves[i]).Success? &&
        0 <= j < |Shlex.Split(leaves[i]).value| && ConvertRequirement(Shlex.Split(leaves[i]).value[j]) == x;
      if i > 0 {
        assert leaves[1..][i - 1] == leaves[i];
      }
    }
    if Mentions(leaves[1..], x) {
      var i, j :| 0 <= i < |leaves[1..]| && Shlex.Split(leaves[1..][i]).Success? &&
        0 <= j < |Shlex.Split(leaves[1..][i]).value| && ConvertRequirement(Shlex.Split(leaves[1..][i]).value[j]) == x;
      assert leaves[i + 1] == leaves[1..][i];
    }
  }

  /** `_convert_requirements(rs)`: the set of converted, non-empty names of
      every word of every string in `rs`. */
  function ConvertRequirements(rs: Value): (r: Result<set<string>, Shlex.ShlexError>)
    ensures r.Success? <==> AllSplit(Leaves(rs))
    ensures r.Success? ==> "" !in r.value
    ensures r.Success? ==> forall x :: x in r.value <==> x != "" && Mentions(Leaves(rs), x)
  {
    var l := Leaves(rs);
    RequirementsOf(l)
  }

  /** Strings taken together contribute the union of what each contributes. */
  lemma {:induction false} RequirementsOfAppend(a: seq<string>, b: seq<string>)
    ensures RequirementsOf(a + b).Success? <==> RequirementsOf(a).Success? && RequirementsOf(b).Success?
    ensures RequirementsOf(a + b).Success? ==>
      RequirementsOf(a + b).value == RequirementsOf(a).value + RequirementsOf(b).value
    decreases |a|
  {
    if |a| == 0 {
      assert a + b == b;
    } else {
      assert (a + b)[0] == a[0] && (a + b)[1..] == a[1..] + b;
      RequirementsOfAppend(a[1..], b);
    }
  }

  /** Nesting does not matter: a list's names are the union of its items'
      names, and a one-item list has the names of its item. */
  lemma ListUnion(a: seq<Value>, b: seq<Value>)
    ensures ConvertRequirements(List(a + b)).Success? <==>
      ConvertRequirements(List(a)).Success? && ConvertRequirements(List(b)).Success?
    ensures ConvertRequirements(List(a + b)).Success? ==>
      ConvertRequirements(List(a + b)).value == ConvertRequirements(List(a)).value + ConvertRequirements(List(b)).value
  {
    var la := seq(|a|, i requires 0 <= i < |a| => Leaves(a[i]));
    var lb := seq(|b|, i requires 0 <= i < |b| => Leaves(b[i]));
    var ab := a + b;
    assert seq(|ab|, i requires 0 <= i < |ab| => Leaves(ab[i])) == la + lb;
    FlattenAppend(la, lb);
    RequirementsOfAppend(Flatten(la), Flatten(lb));
  }

  lemma SingleList(v: Value)
    ensures Leaves(List([v])) == Leaves(v)
    ensures ConvertRequirements(List([v])) == ConvertRequirements(v)
  {
    var ls := seq(1, i requires 0 <= i < 1 => Leaves([v][i]));
    assert ls == [Leaves(v)];
    assert Flatten(ls) == Leaves(v) + Flatten(ls[1..]);
    assert ls[1..] == [];
    assert Leaves(v) + [] == Leaves(v);
  }

  /** A string of simple names gives the set of their converted, non-empty
      forms. */
  lemma WordsRequirements(ws: seq<string>)
    requires forall k :: 0 <= k < |ws| ==> Shlex.SimpleWord(ws[k])
    ensures ConvertRequirements(Str(Join(ws, " "))) == Success(Converted(ws))
  {
    var line := Join(ws, " ");
    Shlex.SplitJoin(ws);
    assert Leaves(Str(line)) == [line];
    RequirementsOfSingle(line, ws);
  }

  /** One string contributes the converted forms of its words. */
  lemma RequirementsOfSingle(line: string, ws: seq<string>)
    requires Shlex.Split(line) == Success(ws)
    ensures RequirementsOf([line]) == Success(Converted(ws))
  {
    var l := [line];
    assert l[0] == line && l[1..] == [];
    assert RequirementsOf(l[1..]) == Success({});
    assert Converted(ws) + {} == Converted(ws);
  }
}
