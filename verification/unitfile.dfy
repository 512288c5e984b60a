/** `UnitFile.__init__`: copying the parsed sections into the unit's values,
    the `type` default and the validation of required fields and the type. */
module UnitFile {
  import opened Wrappers
  import opened Text
  import opened Consts
  import opened ServiceConfig
  import opened UnitFileParser

  /** Sections whose options never reach the unit. */
  const IGNORED_SECTIONS: set<string> := {"Install"}

  /** Fields a unit cannot do without, checked in this order. */
  const REQUIRED_FIELDS: seq<string> := ["description", "exec_start"]

  const TYPE: string := "type"
  const BUS_NAME: string := "bus_name"

  /** Why loading stops. The option name of a failed lookup is not kept: only
      the section it happened in. */
  datatype LoadError =
    | NoOption(section: string)
    | MissingField(field: string)
    | InvalidType(t: Value)
    | DbusWithoutBusName

  // ---------------------------------------------------------------------------
  // Copying.

  /** `cp.options(s)`: the section's names and the DEFAULT names. */
  function OptionNames(p: Parsed, s: string): (r: set<string>)
    requires s in p.sections
    ensures forall k :: k in r <==> k in p.sections[s] || k in p.defaults
  {
    p.sections[s].Keys + p.defaults.Keys
  }

  /** `cp.get(s, o)`: the name is normalised again, then looked up in the
      section and in DEFAULT; the collected lines come back joined by newlines.
      `None` is the NoOptionError. */
  function Lookup(p: Parsed, s: string, o: string): (r: Option<string>)
    requires s in p.sections
    ensures r.Some? <==> Normalize(o) in OptionNames(p, s)
    ensures Normalize(o) in p.sections[s] ==> r == Some(Join(p.sections[s][Normalize(o)], "\n"))
    ensures Normalize(o) !in p.sections[s] && Normalize(o) in p.defaults ==>
      r == Some(Join(p.defaults[Normalize(o)], "\n"))
  {
    var k := Normalize(o);
    if k in p.sections[s] then Some(Join(p.sections[s][k], "\n"))
    else if k in p.defaults then Some(Join(p.defaults[k], "\n"))
    else None
  }

  /** Line 30: a value holding a newline is kept as the list of its lines (at
      least two, none holding a newline, that join back to the value); any other
      value is kept as it is. */
  function Stored(v: string): (r: Value)
    ensures r.Str? <==> '\n' !in v
    ensures r.Str? ==> r.s == v
    ensures r.List? ==> r.items == Strs(SplitOn(v, '\n')) && |r.items| >= 2
    ensures r.List? ==> NoNewlines(SplitOn(v, '\n')) && Join(SplitOn(v, '\n'), "\n") == v
  {
    if '\n' in v then
      SplitOnSeparated(v, '\n');
      SplitOnPiecesFree(v, '\n');
      JoinSplitOn(v, '\n');
      List(Strs(SplitOn(v, '\n')))
    else
      Str(v)
  }

  /** A value as it reaches the unit, in terms of the lines it was read from:
      one line stays a string, several become a list. */
  function FromLines(lines: seq<string>): Value
    requires |lines| > 0
  {
    if |lines| == 1 then Str(lines[0]) else List(Strs(lines))
  }

  lemma {:induction false} JoinHasNewline(lines: seq<string>)
    requires |lines| > 0 && NoNewlines(lines)
    ensures '\n' in Join(lines, "\n") <==> |lines| > 1
  {
    if |lines| > 1 {
      var j := Join(lines, "\n");
      assert j == lines[0] + "\n" + Join(lines[1..], "\n");
      assert j[|lines[0]|] == '\n';
    }
  }

  /** Joining lines and splitting the result at newlines gives them back: a
      value read from several lines reaches the unit as exactly those lines. */
  lemma StoredLines(lines: seq<string>)
    requires |lines| > 0 && NoNewlines(lines)
    ensures Stored(Join(lines, "\n")) == FromLines(lines)
  {
    JoinHasNewline(lines);
    if |lines| > 1 {
      SplitOnJoin(lines, '\n');
    }
  }

  /** The result of `cp.get(s, o)` for every option name of a section. */
  function Looked(p: Parsed, s: string): (m: map<string, Option<string>>)
    requires s in p.sections
    ensures m.Keys == OptionNames(p, s)
    ensures forall o :: o in m ==> m[o] == Lookup(p, s, o)
  {
    map o | o in OptionNames(p, s) :: Lookup(p, s, o)
  }

  /** Writing looked-up values into the unit's values, or the first lookup's
      failure. */
  function Write(vals: map<string, Value>, s: string, m: map<string, Option<string>>): (r: Result<map<string, Value>, LoadError>)
    ensures r.Success? <==> forall o :: o in m ==> m[o].Some?
    ensures r.Failure? ==> r.error == NoOption(s)
    ensures r.Success? ==> r.value.Keys == vals.Keys + m.Keys
    ensures r.Success? ==> forall o :: o in m ==> r.value[o] == Stored(m[o].value)
    ensures r.Success? ==> forall k :: k in vals && k !in m ==> r.value[k] == vals[k]
  {
    if forall o :: o in m ==> m[o].Some? then
      Success(map k | k in vals.Keys + m.Keys :: if k in m then Stored(m[k].value) else vals[k])
    else
      Failure(NoOption(s))
  }

  /** The body of the copy loop for one section: every option name of the
      section (DEFAULT's included) is looked up and written into the values,
      replacing what an earlier section wrote. */
  function CopySection(vals: map<string, Value>, p: Parsed, s: string): (r: Result<map<string, Value>, LoadError>)
    requires s in p.sections
    ensures r.Success? <==> forall o :: o in OptionNames(p, s) ==> Lookup(p, s, o).Some?
    ensures r.Failure? ==> r.error == NoOption(s)
    ensures r.Success? ==> r.value.Keys == vals.Keys + OptionNames(p, s)
    ensures r.Success? ==> forall o :: o in OptionNames(p, s) ==> r.value[o] == Stored(Lookup(p, s, o).value)
    ensures r.Success? ==> forall k :: k in vals && k !in OptionNames(p, s) ==> r.value[k] == vals[k]
  {
    Write(vals, s, Looked(p, s))
  }

  predicate Listed(p: Parsed, order: seq<string>) {
    forall i :: 0 <= i < |order| ==> order[i] in p.sections
  }

  /** The copy loop over the sections in order, skipping the ignored ones: it
      keeps every entry it started with, and fails only on a lookup in a
      section it copies. */
  function CopyAll(vals: map<string, Value>, p: Parsed, order: seq<string>): (r: Result<map<string, Value>, LoadError>)
    requires Listed(p, order)
    ensures r.Success? ==> vals.Keys <= r.value.Keys
    ensures r.Failure? ==> r.error.NoOption? && r.error.section in order && r.error.section !in IGNORED_SECTIONS
    decreases |order|
  {
    if |order| == 0 then Success(vals)
    else if order[0] in IGNORED_SECTIONS then CopyAll(vals, p, order[1..])
    else
      match CopySection(vals, p, order[0])
      case Success(v) => CopyAll(v, p, order[1..])
      case Failure(e) => Failure(e)
  }

  // ---------------------------------------------------------------------------
  // Defaults and validation.

  /** Lines 34-35: a unit without a type is a simple service. */
  function WithDefaultType(c: Config): (r: Config)
    ensures Contains(r, TYPE)
    ensures Contains(c, TYPE) ==> r == c
    ensures !Contains(c, TYPE) ==> r.values[TYPE] == Str(ST_SIMPLE)
    ensures forall k :: k != TYPE ==> (Contains(r, k) <==> Contains(c, k))
    ensures forall k :: k != TYPE && Contains(c, k) ==> Contains(r, k) && r.values[k] == c.values[k]
  {
    if Contains(c, TYPE) then c else Set(c, TYPE, Str(ST_SIMPLE))
  }

  /** `fields[i]` is absent and every field before it is present. */
  predicate FirstMissingAt(c: Config, fields: seq<string>, i: int) {
    0 <= i < |fields| && !Contains(c, fields[i]) &&
    forall j :: 0 <= j < i ==> Contains(c, fields[j])
  }

  /** The first required field that is absent, in the order they are checked. */
  function FirstMissing(c: Config, fields: seq<string>): (r: Option<string>)
    ensures r.None? <==> forall i :: 0 <= i < |fields| ==> Contains(c, fields[i])
    ensures r.Some? ==> !Contains(c, r.value)
    ensures r.Some? ==> exists i :: FirstMissingAt(c, fields, i) && fields[i] == r.value
    decreases |fields|
  {
    if |fields| == 0 then None
    else if !Contains(c, fields[0]) then Some(fields[0])
    else
      var r := FirstMissing(c, fields[1..]);
      if r.Some? then
        var i :| FirstMissingAt(c, fields[1..], i) && fields[1..][i] == r.value;
        assert FirstMissingAt(c, fields, i + 1);
        r
      else r
  }

  /** What a unit that loads is guaranteed to have. */
  predicate Valid(c: Config) {
    Contains(c, "description") && Contains(c, "exec_start") && Contains(c, TYPE) &&
    c.values[TYPE].Str? && c.values[TYPE].s in SYSTEMD_SERVICE_TYPES &&
    (c.values[TYPE].s == ST_DBUS ==> Contains(c, BUS_NAME))
  }

  /** Lines 38-45, with the checks in their order. A type that is a list of
      lines is never one of the service types. */
  function Validate(c: Config): (r: Result<Config, LoadError>)
    requires Contains(c, TYPE)
    ensures r.Success? <==> Valid(c)
    ensures r.Success? ==> r.value == c
  {
    match FirstMissing(c, REQUIRED_FIELDS)
    case Some(f) => Failure(MissingField(f))
    case None =>
      var t := c.values[TYPE];
      if !(t.Str? && t.s in SYSTEMD_SERVICE_TYPES) then Failure(InvalidType(t))
      else if t.s == ST_DBUS && !Contains(c, BUS_NAME) then Failure(DbusWithoutBusName)
      else Success(c)
  }

  /** The error reported is that of the first check that fails. */
  lemma ValidateOrder(c: Config)
    requires Contains(c, TYPE)
    ensures !Contains(c, "description") ==> Validate(c) == Failure(MissingField("description"))
    ensures Contains(c, "description") && !Contains(c, "exec_start") ==>
      Validate(c) == Failure(MissingField("exec_start"))
    ensures (Contains(c, "description") && Contains(c, "exec_start") &&
             !(c.values[TYPE].Str? && c.values[TYPE].s in SYSTEMD_SERVICE_TYPES)) ==>
            Validate(c) == Failure(InvalidType(c.values[TYPE]))
    ensures (Contains(c, "description") && Contains(c, "exec_start") && c.values[TYPE] == Str(ST_DBUS) &&
             !Contains(c, BUS_NAME)) ==>
            Validate(c) == Failure(DbusWithoutBusName)
  {
  }

  /** Lines 22-31: read the file, then copy every section that is not ignored. */
  function Copied(es: seq<Entry>): Result<map<string, Value>, LoadError> {
    var p := Read(es);
    CopyAll(map[], p, p.order)
  }

  /** `UnitFile(fileobj)` on the option lines of the file. */
  function Load(es: seq<Entry>): (r: Result<Config, LoadError>)
    ensures r.Success? ==> Valid(r.value)
    ensures r.Success? ==> Copied(es).Success?
  {
    match Copied(es)
    case Failure(e) => Failure(e)
    case Success(vals) => Validate(WithDefaultType(Config(vals)))
  }

  // ---------------------------------------------------------------------------
  // Ignored sections.

  /** The sections in order, without the ignored ones. */
  function Kept(order: seq<string>): (r: seq<string>)
    ensures forall i :: 0 <= i < |r| ==> r[i] !in IGNORED_SECTIONS && r[i] in order
    decreases |order|
  {
    if |order| == 0 then []
    else (if order[0] in IGNORED_SECTIONS then [] else [order[0]]) + Kept(order[1..])
  }

  lemma {:induction false} KeptSnoc(order: seq<string>, s: string)
    ensures Kept(order + [s]) == Kept(order) + (if s in IGNORED_SECTIONS then [] else [s])
    decreases |order|
  {
    if |order| == 0 {
      assert [s][1..] == [];
    } else {
      assert (order + [s])[1..] == order[1..] + [s];
      KeptSnoc(order[1..], s);
    }
  }

  /** The copy loop does the same over the kept sections alone. */
  lemma {:induction false} CopyAllKept(vals: map<string, Value>, p: Parsed, order: seq<string>)
    requires Listed(p, order)
    ensures Listed(p, Kept(order))
    ensures CopyAll(vals, p, order) == CopyAll(vals, p, Kept(order))
    decreases |order|
  {
    if |order| > 0 {
      var k := Kept(order);
      if order[0] in IGNORED_SECTIONS {
        CopyAllKept(vals, p, order[1..]);
        assert k == Kept(order[1..]);
      } else {
        assert k[0] == order[0] && k[1..] == Kept(order[1..]);
        CopyAllKept(vals, p, order[1..]);
        match CopySection(vals, p, order[0])
        case Success(v) =>
          CopyAllKept(v, p, order[1..]);
          assert CopyAll(vals, p, order) == CopyAll(v, p, order[1..]);
          assert CopyAll(vals, p, k) == CopyAll(v, p, k[1..]);
        case Failure(_) =>
      }
    }
  }

  lemma LookupAgree(p: Parsed, q: Parsed, s: string)
    requires s in p.sections && s in q.sections
    requires p.sections[s] == q.sections[s] && p.defaults == q.defaults
    ensures OptionNames(p, s) == OptionNames(q, s)
    ensures forall o :: Lookup(p, s, o) == Lookup(q, s, o)
  {
  }

  /** One section copied from two parsers that agree on it and on DEFAULT. */
  lemma CopySectionAgree(vals: map<string, Value>, p: Parsed, q: Parsed, s: string)
    requires s in p.sections && s in q.sections
    requires p.sections[s] == q.sections[s] && p.defaults == q.defaults
    ensures CopySection(vals, p, s) == CopySection(vals, q, s)
  {
    LookupAgree(p, q, s);
    assert Looked(p, s) == Looked(q, s);
  }

  lemma {:induction false} CopyAllAgree(vals: map<string, Value>, p: Parsed, q: Parsed, order: seq<string>)
    requires Listed(p, order) && Listed(q, order) && p.defaults == q.defaults
    requires forall i :: 0 <= i < |order| ==> p.sections[order[i]] == q.sections[order[i]]
    ensures CopyAll(vals, p, order) == CopyAll(vals, q, order)
    decreases |order|
  {
    if |order| > 0 && order[0] !in IGNORED_SECTIONS {
      CopySectionAgree(vals, p, q, order[0]);
      match CopySection(vals, p, order[0])
      case Success(v) =>
        CopyAllAgree(v, p, q, order[1..]);
      case Failure(_) =>
    } else if |order| > 0 {
      CopyAllAgree(vals, p, q, order[1..]);
    }
  }

  /** Two parser states agree on every section that is not ignored. */
  ghost predicate SameSections(p: Parsed, q: Parsed) {
    forall s :: s !in IGNORED_SECTIONS ==>
      (s in p.sections <==> s in q.sections) && (s in p.sections ==> p.sections[s] == q.sections[s])
  }

  /** Two parser states that differ at most in their ignored sections. */
  ghost predicate SameKept(p: Parsed, q: Parsed) {
    p.defaults == q.defaults && Kept(p.order) == Kept(q.order) && SameSections(p, q)
  }

  /** Such states copy to the same values. */
  lemma SameKeptCopies(vals: map<string, Value>, p: Parsed, q: Parsed)
    requires Consistent(p) && Consistent(q) && SameKept(p, q)
    ensures Listed(p, p.order) && Listed(q, q.order)
    ensures CopyAll(vals, p, p.order) == CopyAll(vals, q, q.order)
  {
    CopyAllKept(vals, p, p.order);
    CopyAllKept(vals, q, q.order);
    var k := Kept(p.order);
    assert Listed(q, k) by {
      assert k == Kept(q.order);
    }
    CopyAllAgree(vals, p, q, k);
  }

  /** Reading the same option line keeps two such states alike. */
  lemma AddSameKept(p: Parsed, q: Parsed, e: Entry)
    requires Consistent(p) && Consistent(q) && SameKept(p, q)
    ensures SameKept(Add(p, e), Add(q, e))
  {
    var p', q' := Add(p, e), Add(q, e);
    AddEffect(p, e);
    AddEffect(q, e);
    KeptSnoc(p.order, e.section);
    KeptSnoc(q.order, e.section);
    assert p'.defaults == q'.defaults;
    assert Kept(p'.order) == Kept(q'.order);
    forall s | s !in IGNORED_SECTIONS
      ensures (s in p'.sections <==> s in q'.sections) && (s in p'.sections ==> p'.sections[s] == q'.sections[s])
    {
      if s == e.section && s != DEFAULT_SECTION {
        assert HeaderDict(p, s) == HeaderDict(q, s);
      }
    }
  }

  /** Reading an option line of an ignored section changes nothing that is
      copied. */
  lemma AddIgnored(p: Parsed, e: Entry)
    requires Consistent(p) && e.section in IGNORED_SECTIONS
    ensures SameKept(Add(p, e), p)
  {
    AddEffect(p, e);
    KeptSnoc(p.order, e.section);
  }

  lemma {:induction false} ReadWithout(es1: seq<Entry>, e: Entry, es2: seq<Entry>)
    requires e.section in IGNORED_SECTIONS
    ensures SameKept(Read(es1 + [e] + es2), Read(es1 + es2))
    decreases |es2|
  {
    if |es2| == 0 {
      assert es1 + [e] + es2 == es1 + [e] && es1 + es2 == es1;
      ReadSnoc(es1, e);
      AddIgnored(Read(es1), e);
    } else {
      var init, last := es2[..|es2| - 1], es2[|es2| - 1];
      ReadWithout(es1, e, init);
      assert es1 + [e] + es2 == (es1 + [e] + init) + [last];
      assert es1 + es2 == (es1 + init) + [last];
      ReadSnoc(es1 + [e] + init, last);
      ReadSnoc(es1 + init, last);
      AddSameKept(Read(es1 + [e] + init), Read(es1 + init), last);
    }
  }

  /** Lines 17 and 26-27: an option line in the `Install` section, wherever it
      stands, makes no difference to the loaded unit or to the error. */
  lemma InstallIgnored(es1: seq<Entry>, e: Entry, es2: seq<Entry>)
    requires e.section == "Install"
    ensures Load(es1 + [e] + es2) == Load(es1 + es2)
  {
    ReadWithout(es1, e, es2);
    SameKeptCopies(map[], Read(es1 + [e] + es2), Read(es1 + es2));
  }

  // ---------------------------------------------------------------------------
  // What reaches the values.

  /** Every name the copy loop writes is an option name of a kept section. */
  lemma {:induction false} CopyAllNames(vals: map<string, Value>, p: Parsed, order: seq<string>, k: string)
    requires Listed(p, order)
    requires CopyAll(vals, p, order).Success? && k in CopyAll(vals, p, order).value
    ensures k in vals || exists i :: 0 <= i < |order| && order[i] !in IGNORED_SECTIONS && k in OptionNames(p, order[i])
    decreases |order|
  {
    if |order| > 0 {
      assert Listed(p, order[1..]) by {
        forall i | 0 <= i < |order[1..]| ensures order[1..][i] in p.sections {
          assert order[1..][i] == order[i + 1];
        }
      }
      var next := if order[0] in IGNORED_SECTIONS then vals else CopySection(vals, p, order[0]).value;
      assert CopyAll(vals, p, order) == CopyAll(next, p, order[1..]);
      CopyAllNames(next, p, order[1..], k);
      if k in next && k !in vals {
        assert order[0] !in IGNORED_SECTIONS && k in OptionNames(p, order[0]);
      } else if k !in next {
        var i :| 0 <= i < |order[1..]| && order[1..][i] !in IGNORED_SECTIONS && k in OptionNames(p, order[1..][i]);
        assert order[i + 1] == order[1..][i];
      }
    }
  }

  /** Some option line outside the ignored sections carries the name. */
  ghost predicate NamedOutside(es: seq<Entry>, k: string) {
    exists i :: 0 <= i < |es| && es[i].section !in IGNORED_SECTIONS && Normalize(es[i].name) == k
  }

  /** A name collected under a header that is not ignored comes from an option
      line outside the ignored sections. */
  lemma CollectedOutside(es: seq<Entry>, h: string, k: string)
    requires h !in IGNORED_SECTIONS && |Collected(es, h, k)| > 0
    ensures NamedOutside(es, k)
  {
    CollectedSome(es, h, k);
    var i :| 0 <= i < |es| && es[i].section == h && Normalize(es[i].name) == k;
    assert es[i].section !in IGNORED_SECTIONS;
  }

  /** A name in a kept section's option names comes from an option line that is
      not in an ignored section. */
  lemma NameFromLine(es: seq<Entry>, s: string, k: string)
    requires s in Read(es).sections && s !in IGNORED_SECTIONS && k in OptionNames(Read(es), s)
    ensures NamedOutside(es, k)
  {
    var p := Read(es);
    var h := if k in p.sections[s] then s else DEFAULT_SECTION;
    assert k in HeaderDict(p, h);
    ReadCollects(es, h, k);
    CollectedOutside(es, h, k);
  }

  /** Every name in the values comes from an option line outside the ignored
      sections: the `Install` options never reach the unit. */
  lemma LoadedNames(es: seq<Entry>, k: string)
    requires Copied(es).Success? && k in Copied(es).value
    ensures NamedOutside(es, k)
  {
    var p := Read(es);
    CopyAllNames(map[], p, p.order, k);
    var i :| 0 <= i < |p.order| && p.order[i] !in IGNORED_SECTIONS && k in OptionNames(p, p.order[i]);
    NameFromLine(es, p.order[i], k);
  }

  /** Lines 34-35: when no option line names the type, a loaded unit is a
      simple service. */
  lemma TypeDefault(es: seq<Entry>)
    requires forall i :: 0 <= i < |es| ==> Normalize(es[i].name) != TYPE
    ensures Load(es).Success? ==> Load(es).value.values[TYPE] == Str(ST_SIMPLE)
  {
    if Load(es).Success? {
      if TYPE in Copied(es).value {
        LoadedNames(es, TYPE);
      }
    }
  }

  /** Option lines all under one header, with names of letters and digits and
      no newline in any line. */
  predicate PlainFile(es: seq<Entry>, s: string) {
    |es| > 0 && s !in IGNORED_SECTIONS && s != DEFAULT_SECTION &&
    forall i :: 0 <= i < |es| ==> es[i].section == s && AlnumKey(es[i].name) && NoNewlines(Lines(es[i]))
  }

  /** In such a file each option name looks up to the lines of all the option
      lines carrying it. */
  lemma PlainLookup(es: seq<Entry>, s: string, k: string)
    requires PlainFile(es, s)
    requires k in OptionNames(Read(es), s)
    ensures |Collected(es, s, k)| > 0
    ensures Lookup(Read(es), s, k) == Some(Join(Collected(es, s, k), "\n"))
  {
    var p := Read(es);
    ReadOneSection(es, s);
    assert k in HeaderDict(p, s);
    ReadCollects(es, s, k);
    CollectedSome(es, s, k);
    var i :| 0 <= i < |es| && es[i].section == s && Normalize(es[i].name) == k;
    NormalizeIdempotent(es[i].name);
  }

  /** Such a file copies as its one section. */
  lemma PlainCopied(es: seq<Entry>, s: string)
    requires PlainFile(es, s)
    ensures s in Read(es).sections
    ensures Copied(es) == CopySection(map[], Read(es), s)
    ensures Copied(es).Success?
  {
    var p := Read(es);
    ReadOneSection(es, s);
    CopyAllOne(map[], p, s);
    forall k | k in OptionNames(p, s) ensures Lookup(p, s, k).Some? {
      PlainLookup(es, s, k);
    }
  }

  lemma CopyAllOne(vals: map<string, Value>, p: Parsed, s: string)
    requires s in p.sections && s !in IGNORED_SECTIONS
    ensures CopyAll(vals, p, [s]) == CopySection(vals, p, s)
  {
    assert [s][1..] == [];
  }

  /** One value of such a file. */
  lemma PlainValue(es: seq<Entry>, s: string, k: string)
    requires PlainFile(es, s)
    requires Copied(es).Success? && k in Copied(es).value
    ensures |Collected(es, s, k)| > 0 && Copied(es).value[k] == FromLines(Collected(es, s, k))
  {
    PlainCopied(es, s);
    ReadOneSection(es, s);
    PlainLookup(es, s, k);
    CollectedNoNewlines(es, s, k);
    StoredLines(Collected(es, s, k));
  }

  /** One name of such a file. */
  lemma PlainName(es: seq<Entry>, s: string, k: string)
    requires PlainFile(es, s)
    ensures Copied(es).Success?
    ensures k in Copied(es).value <==> exists i :: 0 <= i < |es| && Normalize(es[i].name) == k
  {
    PlainCopied(es, s);
    ReadOneSection(es, s);
    CollectedSome(es, s, k);
    ReadCollects(es, s, k);
    if exists i :: 0 <= i < |es| && Normalize(es[i].name) == k {
      var i :| 0 <= i < |es| && Normalize(es[i].name) == k;
      assert es[i].section == s;
    }
  }

  /** Lines 26-31 on a file whose option lines all sit under one header that is
      not ignored, with names of letters and digits (as systemd directives
      are): the values hold exactly the names of the option lines, each with
      the lines of every option line carrying it in file order, one line as a
      string and several as a list. */
  lemma PlainUnit(es: seq<Entry>, s: string)
    requires PlainFile(es, s)
    ensures Copied(es).Success?
    ensures forall k :: k in Copied(es).value <==> exists i :: 0 <= i < |es| && Normalize(es[i].name) == k
    ensures forall k :: k in Copied(es).value ==>
              |Collected(es, s, k)| > 0 && Copied(es).value[k] == FromLines(Collected(es, s, k))
  {
    PlainCopied(es, s);
    forall k ensures k in Copied(es).value <==> exists i :: 0 <= i < |es| && Normalize(es[i].name) == k {
      PlainName(es, s, k);
    }
    forall k | k in Copied(es).value
      ensures |Collected(es, s, k)| > 0 && Copied(es).value[k] == FromLines(Collected(es, s, k))
    {
      PlainValue(es, s, k);
    }
  }
}
