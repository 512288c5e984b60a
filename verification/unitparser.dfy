/** `UnitFileParser`, the INI parser a unit is read with: option-name
    normalisation (`optionxform`), the multi-value dict options are stored in,
    and what the parser holds after reading a unit's option lines. */
module UnitFileParser {
  import opened Wrappers
  import opened Text
  import opened ServiceConfig

  // ---------------------------------------------------------------------------
  // optionxform: CamelCase option names to lower_case_with_underscores.

  predicate NotLower(c: char) {
    !IsLower(c)
  }

  predicate IsLowerAlnum(c: char) {
    IsLower(c) || IsDigit(c)
  }

  /** Length of the first group of `^([^a-z]*[a-z0-9]*_?)(.*)`: a greedy run of
      characters other than lowercase letters, then a greedy run of lowercase
      letters and digits, then one optional underscore. Never 0 on non-empty
      text, so every round of the loop consumes something. */
  function WordLength(n: string): (k: nat)
    ensures k <= |n|
    ensures |n| > 0 ==> k > 0
  {
    var a := Run(n, NotLower);
    var b := Run(n[a..], IsLowerAlnum);
    assert |n| > 0 && a == 0 ==> b > 0 by {
      if |n| > 0 && a == 0 {
        assert n[a..][0] == n[0];
      }
    }
    if a + b < |n| && n[a + b] == '_' then a + b + 1 else a + b
  }

  /** `word[0:-1]` when the word ends with an underscore. */
  function StripUnderscore(w: string): (r: string)
    ensures EndsWith(w, "_") ==> r + "_" == w
    ensures !EndsWith(w, "_") ==> r == w
  {
    if |w| > 0 && w[|w| - 1] == '_' then w[..|w| - 1] else w
  }

  /** The words the loop collects: the regex word, one trailing underscore
      dropped, lowercased; the loop continues on the second group, which (`.*`)
      stops at the first newline. */
  function OptionWords(n: string): seq<string>
    decreases |n|
  {
    if |n| == 0 then []
    else
      var k := WordLength(n);
      [Lower(StripUnderscore(n[..k]))] + OptionWords(TakeLine(n[k..]))
  }

  /** `UnitFileParser.optionxform`. Every word is lowercased, so no normalised
      name holds an ASCII uppercase letter. */
  function Normalize(n: string): (r: string)
    ensures forall i :: 0 <= i < |r| ==> NotUpper(r[i])
  {
    JoinedWordsHaveNoUpper(n);
    Join(OptionWords(n), "_")
  }

  lemma JoinedWordsHaveNoUpper(n: string)
    ensures forall i :: 0 <= i < |Join(OptionWords(n), "_")| ==> NotUpper(Join(OptionWords(n), "_")[i])
  {
    var ws := OptionWords(n);
    forall k, i | 0 <= k < |ws| && 0 <= i < |ws[k]| ensures NotUpper(ws[k][i]) {
      WordsHaveNoUpper(n, k);
    }
    JoinChars(ws, "_", NotUpper);
  }

  predicate NotUpper(c: char) {
    !IsUpper(c)
  }

  lemma {:induction false} WordsHaveNoUpper(n: string, k: nat)
    requires k < |OptionWords(n)|
    ensures forall i :: 0 <= i < |OptionWords(n)[k]| ==> NotUpper(OptionWords(n)[k][i])
    decreases |n|
  {
    var j := WordLength(n);
    if k > 0 {
      WordsHaveNoUpper(TakeLine(n[j..]), k - 1);
    } else {
      LowerNoUpper(StripUnderscore(n[..j]));
    }
  }

  /** A capitalised hump whose first `a` characters are an uppercase letter and
      possibly more characters that are neither lowercase nor `_` (an acronym
      such as `PIDF`), followed by a lowercase letter and more lowercase letters
      or digits. */
  predicate HumpAt(h: string, a: nat) {
    0 < a < |h| && IsUpper(h[0]) && IsLower(h[a]) &&
    (forall i :: 0 <= i < a ==> NotLower(h[i]) && h[i] != '_' && h[i] != '\n') &&
    (forall i :: a <= i < |h| ==> IsLowerAlnum(h[i]))
  }

  predicate Hump(h: string) {
    HumpAt(h, Run(h, NotLower))
  }

  function LowerAll(hs: seq<string>): (r: seq<string>)
    ensures |r| == |hs|
    ensures forall i :: 0 <= i < |hs| ==> r[i] == Lower(hs[i])
  {
    seq(|hs|, i requires 0 <= i < |hs| => Lower(hs[i]))
  }

  lemma HumpNoNewline(h: string)
    requires Hump(h)
    ensures '\n' !in h && IsUpper(h[0])
  {
    var a := Run(h, NotLower);
    assert HumpAt(h, a);
    forall i | 0 <= i < |h| ensures h[i] != '\n' {
      if i >= a {
        assert IsLowerAlnum(h[i]);
      }
    }
  }

  lemma LowerAllCons(hs: seq<string>)
    requires |hs| > 0
    ensures LowerAll(hs) == [Lower(hs[0])] + LowerAll(hs[1..])
  {
    var l, r := LowerAll(hs), [Lower(hs[0])] + LowerAll(hs[1..]);
    forall i | 0 <= i < |l| ensures l[i] == r[i] {
      if i > 0 {
        assert hs[1..][i - 1] == hs[i];
      }
    }
  }

  /** The regex word of a hump followed by the next hump is the hump. */
  lemma HumpWordLength(h: string, rest: string)
    requires Hump(h)
    requires |rest| == 0 || IsUpper(rest[0])
    ensures WordLength(h + rest) == |h|
  {
    var s := h + rest;
    var a := Run(h, NotLower);
    assert HumpAt(h, a);
    forall i | 0 <= i < a ensures NotLower(s[i]) {
      assert s[i] == h[i];
    }
    assert s[a] == h[a];
    RunOf(s, a, NotLower);
    var t := s[a..];
    forall i | 0 <= i < |h| - a ensures IsLowerAlnum(t[i]) {
      assert t[i] == h[a + i];
    }
    if |rest| > 0 {
      assert t[|h| - a] == rest[0];
    }
    RunOf(t, |h| - a, IsLowerAlnum);
  }

  /** One hump followed by the next hump (or nothing) is one regex word. */
  lemma HumpStep(h: string, rest: string)
    requires Hump(h)
    requires |rest| == 0 || IsUpper(rest[0])
    requires '\n' !in rest
    ensures OptionWords(h + rest) == [Lower(h)] + OptionWords(rest)
  {
    var s := h + rest;
    HumpWordLength(h, rest);
    assert HumpAt(h, Run(h, NotLower));
    assert s[..|h|] == h;
    assert s[|h|..] == rest;
    TakeLineWhole(rest);
    assert StripUnderscore(h) == h;
  }

  /** CamelCase to snake_case: a name made of capitalised humps normalises to the
      lowercased humps joined by underscores. */
  lemma {:induction false} CamelCaseKey(hs: seq<string>)
    requires forall i :: 0 <= i < |hs| ==> Hump(hs[i])
    ensures Normalize(Concat(hs)) == Join(LowerAll(hs), "_")
  {
    HumpWords(hs);
  }

  lemma {:induction false} HumpWords(hs: seq<string>)
    requires forall i :: 0 <= i < |hs| ==> Hump(hs[i])
    ensures OptionWords(Concat(hs)) == LowerAll(hs)
    ensures '\n' !in Concat(hs)
    ensures |hs| > 0 ==> IsUpper(Concat(hs)[0])
    decreases |hs|
  {
    if |hs| > 0 {
      var h := hs[0];
      var rest := Concat(hs[1..]);
      HumpWords(hs[1..]);
      HumpNoNewline(h);
      HumpStep(h, rest);
      assert Concat(hs) == h + rest;
      LowerAllCons(hs);
    }
  }

  lemma OneHumpWords(a: string)
    requires Hump(a)
    ensures OptionWords(a) == [Lower(a)]
  {
    HumpStep(a, "");
    assert a + "" == a;
    assert OptionWords("") == [];
  }

  lemma OneHump(a: string)
    requires Hump(a)
    ensures Normalize(a) == Lower(a)
  {
    OneHumpWords(a);
  }

  lemma TwoHumps(a: string, b: string)
    requires Hump(a) && Hump(b)
    ensures Normalize(a + b) == Lower(a) + "_" + Lower(b)
  {
    HumpNoNewline(b);
    OneHumpWords(b);
    HumpStep(a, b);
    var la, lb := Lower(a), Lower(b);
    assert OptionWords(a + b) == [la, lb];
    assert Normalize(a + b) == Join([la, lb], "_");
    JoinPair(la, lb, "_");
  }

  /** A capitalised word of one uppercase letter and lowercase letters. */
  lemma Capitalised(h: string)
    requires |h| >= 2 && IsUpper(h[0])
    requires forall i :: 1 <= i < |h| ==> IsLower(h[i])
    ensures Hump(h)
  {
    RunOf(h, 1, NotLower);
  }

  lemma BusNameHumps(a: string, b: string)
    requires a == "Bus" && b == "Name"
    ensures Hump(a) && Hump(b) && Lower(a) == "bus" && Lower(b) == "name"
  {
    Capitalised(a);
    Capitalised(b);
    assert LowerChar('B') == 'b';
    assert LowerChar('N') == 'n';
    assert Lower("Bus") == "bus";
    assert Lower("Name") == "name";
  }

  /** `BusName` becomes `bus_name`. */
  lemma BusNameName(a: string, b: string)
    requires a == "Bus" && b == "Name"
    ensures Normalize(a + b) == "bus_name"
  {
    BusNameHumps(a, b);
    TwoHumps(a, b);
    SnakePair(Lower(a), Lower(b));
  }

  lemma SnakePair(x: string, y: string)
    requires x == "bus" && y == "name"
    ensures x + "_" + y == "bus_name"
  {
  }

  lemma PidFileHump(a: string)
    requires a == "PIDFile"
    ensures Hump(a)
  {
    RunOf(a, 4, NotLower);
  }

  lemma PidFileLower(a: string)
    requires a == "PIDFile"
    ensures Lower(a) == "pidfile"
  {
    assert LowerChar('P') == 'p';
    assert LowerChar('I') == 'i';
    assert LowerChar('D') == 'd';
    assert LowerChar('F') == 'f';
    assert Lower("PIDFile") == "pidfile";
  }

  /** `PIDFile` becomes `pidfile`: the acronym and the next hump form one word. */
  lemma PidFileName(a: string)
    requires a == "PIDFile"
    ensures Normalize(a) == "pidfile"
  {
    PidFileHump(a);
    PidFileLower(a);
    OneHump(a);
  }

  // ---------------------------------------------------------------------------
  // Re-normalising. The parser normalises names when it stores them and again
  // when they are looked up, so what matters is when a second pass changes
  // nothing.

  predicate SnakeChar(c: char) {
    IsLowerAlnum(c) || c == '_'
  }

  /** A name already in normal form: lowercase letters, digits and underscores,
      not ending in an underscore. */
  predicate SnakeKey(s: string) {
    (forall i :: 0 <= i < |s| ==> SnakeChar(s[i])) &&
    (|s| == 0 || s[|s| - 1] != '_')
  }

  lemma {:induction false} LowerIdentity(s: string)
    requires forall i :: 0 <= i < |s| ==> !IsUpper(s[i])
    ensures Lower(s) == s
  {
    forall i | 0 <= i < |s| ensures Lower(s)[i] == s[i] {
      LowerAt(s, i);
    }
  }

  /** One round of the loop. */
  lemma OptionWordsStep(n: string)
    requires |n| > 0
    ensures OptionWords(n)
      == [Lower(StripUnderscore(n[..WordLength(n)]))] + OptionWords(TakeLine(n[WordLength(n)..]))
  {
  }

  /** In a name in normal form the regex word is the whole name, or ends at an
      underscore. */
  lemma SnakeWordLength(s: string)
    requires SnakeKey(s) && |s| > 0
    ensures WordLength(s) == |s| || (WordLength(s) < |s| && s[WordLength(s) - 1] == '_')
  {
    var a := Run(s, NotLower);
    var b := Run(s[a..], IsLowerAlnum);
    RunSpec(s[a..], IsLowerAlnum);
    if a < |s| {
      assert s[a..][0] == s[a];
    }
    if a + b < |s| {
      assert s[a..][b] == s[a + b];
      assert SnakeChar(s[a + b]);
    }
  }

  lemma SnakeSuffix(s: string, k: nat)
    requires SnakeKey(s) && k < |s|
    ensures SnakeKey(s[k..]) && '\n' !in s[k..]
  {
    var t := s[k..];
    forall i | 0 <= i < |t| ensures SnakeChar(t[i]) && t[i] != '\n' {
      assert t[i] == s[k + i];
    }
    assert t[|t| - 1] == s[|s| - 1];
  }

  lemma SnakeHasNoUpper(s: string)
    requires forall i :: 0 <= i < |s| ==> SnakeChar(s[i])
    ensures Lower(s) == s
  {
    forall i | 0 <= i < |s| ensures !IsUpper(s[i]) {
      assert SnakeChar(s[i]);
    }
    LowerIdentity(s);
  }

  /** A name in normal form that is one regex word is its own single word. */
  lemma SnakeWhole(s: string)
    requires SnakeKey(s) && |s| > 0 && WordLength(s) == |s|
    ensures OptionWords(s) == [s]
  {
    OptionWordsStep(s);
    assert s[..|s|] == s;
    SnakeHasNoUpper(s);
    assert s[|s|..] == "";
  }

  /** Otherwise its first word is the text before the first underscore cut, and
      the loop goes on with the rest, itself in normal form. */
  /** The pieces of a normal-form name cut after its first regex word. */
  lemma SnakeCutParts(s: string)
    requires SnakeKey(s) && |s| > 0 && WordLength(s) < |s|
    ensures var k := WordLength(s);
      0 < k && s[k - 1] == '_' && SnakeKey(s[k..]) &&
      Lower(StripUnderscore(s[..k])) == s[..k - 1] && TakeLine(s[k..]) == s[k..]
  {
    var k := WordLength(s);
    SnakeWordLength(s);
    var w := s[..k];
    var v := s[..k - 1];
    assert w[|w| - 1] == '_';
    assert StripUnderscore(w) == v;
    forall i | 0 <= i < |v| ensures SnakeChar(v[i]) {
      assert v[i] == s[i];
    }
    SnakeHasNoUpper(v);
    SnakeSuffix(s, k);
    TakeLineWhole(s[k..]);
  }

  lemma SnakeCut(s: string)
    requires SnakeKey(s) && |s| > 0 && WordLength(s) < |s|
    ensures var k := WordLength(s);
      0 < k && s[k - 1] == '_' && SnakeKey(s[k..]) &&
      OptionWords(s) == [s[..k - 1]] + OptionWords(s[k..])
  {
    SnakeCutParts(s);
    OptionWordsStep(s);
  }

  /** A word, an underscore and words joining to the rest join back to the name. */
  lemma SnakeJoin(s: string, k: nat, ws: seq<string>)
    requires 0 < k <= |s| && s[k - 1] == '_'
    requires |ws| > 0 && Join(ws, "_") == s[k..]
    ensures Join([s[..k - 1]] + ws, "_") == s
  {
    JoinCons(s[..k - 1], ws, "_");
    assert s == s[..k - 1] + [s[k - 1]] + s[k..];
  }

  /** Normalising a name in normal form gives it back. */
  lemma {:induction false} NormalizeSnake(s: string)
    requires SnakeKey(s)
    ensures Normalize(s) == s
    ensures |s| > 0 ==> |OptionWords(s)| > 0
    decreases |s|
  {
    if |s| > 0 {
      var k := WordLength(s);
      if k == |s| {
        SnakeWhole(s);
      } else {
        SnakeCut(s);
        NormalizeSnake(s[k..]);
        SnakeJoin(s, k, OptionWords(s[k..]));
      }
    }
  }

  predicate IsAlnum(c: char) {
    IsLower(c) || IsUpper(c) || IsDigit(c)
  }

  /** A name of ASCII letters and digits: every systemd directive. */
  predicate AlnumKey(n: string) {
    forall i :: 0 <= i < |n| ==> IsAlnum(n[i])
  }

  lemma AlnumSuffix(n: string, k: nat)
    requires AlnumKey(n) && k <= |n|
    ensures AlnumKey(n[k..]) && '\n' !in n[k..]
  {
    var t := n[k..];
    forall i | 0 <= i < |t| ensures IsAlnum(t[i]) && t[i] != '\n' {
      assert t[i] == n[k + i];
    }
  }

  /** A non-empty word of lowercase letters and digits. */
  predicate SnakeWord(w: string) {
    |w| > 0 && forall i :: 0 <= i < |w| ==> IsLowerAlnum(w[i])
  }

  /** A word cut from an alphanumeric name lowercases to a non-empty run of
      lowercase letters and digits. */
  lemma AlnumWord(n: string)
    requires AlnumKey(n) && |n| > 0
    ensures SnakeWord(Lower(StripUnderscore(n[..WordLength(n)])))
  {
    var k := WordLength(n);
    var w := n[..k];
    assert w[|w| - 1] == n[k - 1];
    assert StripUnderscore(w) == w;
    var lw := Lower(w);
    forall i | 0 <= i < |lw| ensures IsLowerAlnum(lw[i]) {
      assert w[i] == n[i];
      assert IsAlnum(w[i]);
      LowerAt(w, i);
    }
  }

  lemma {:induction false} AlnumWords(n: string)
    requires AlnumKey(n)
    ensures forall k :: 0 <= k < |OptionWords(n)| ==> SnakeWord(OptionWords(n)[k])
    decreases |n|
  {
    if |n| > 0 {
      var k := WordLength(n);
      var rest := n[k..];
      OptionWordsStep(n);
      AlnumSuffix(n, k);
      TakeLineWhole(rest);
      AlnumWords(rest);
      AlnumWord(n);
    }
  }

  /** Names made of ASCII letters and digits normalise to a name in normal form. */
  lemma {:induction false} NormalizeAlnum(n: string)
    requires AlnumKey(n)
    ensures SnakeKey(Normalize(n))
  {
    var ws := OptionWords(n);
    AlnumWords(n);
    forall k, i | 0 <= k < |ws| && 0 <= i < |ws[k]| ensures SnakeChar(ws[k][i]) {
      assert SnakeWord(ws[k]);
      assert IsLowerAlnum(ws[k][i]);
    }
    JoinChars(ws, "_", SnakeChar);
    if |ws| > 0 {
      JoinLast(ws, "_");
      var last := ws[|ws| - 1];
      assert SnakeWord(last);
      var j := Join(ws, "_");
      assert j[|j| - |last|..] == last;
      assert j[|j| - 1] == last[|last| - 1];
      assert IsLowerAlnum(last[|last| - 1]);
    }
  }

  /** For such names a second normalisation changes nothing. */
  lemma NormalizeIdempotent(n: string)
    requires AlnumKey(n)
    ensures Normalize(Normalize(n)) == Normalize(n)
  {
    NormalizeAlnum(n);
    NormalizeSnake(Normalize(n));
  }

  /** Not every name is stable: `__` normalises to `_`, which normalises to the
      empty name. */
  lemma NormalizeNotIdempotent()
    ensures Normalize("__") == "_"
    ensures Normalize("_") == ""
  {
    RunOf("__", 2, NotLower);
    RunOf("", 0, IsLowerAlnum);
    assert "__"[2..] == "";
    assert WordLength("__") == 2;
    assert "__"[..2] == "__";
    assert StripUnderscore("__") == "_";
    assert Lower("_") == "_";
    assert OptionWords("__") == ["_"];
    RunOf("_", 1, NotLower);
    assert "_"[1..] == "";
    assert WordLength("_") == 1;
    assert "_"[..1] == "_";
    assert StripUnderscore("_") == "";
    assert Lower("") == "";
    assert OptionWords("_") == [""];
  }

  // ---------------------------------------------------------------------------
  // MultiValueDict, the dict type of the parser's sections.

  /** Extending a stored string fails: a `str` has no `extend`. */
  datatype DictError = NotAList(key: string)

  /** `MultiValueDict.__setitem__`: a list assigned to a name that already holds
      a list extends it; any other assignment replaces the entry. */
  function SetItem(d: map<string, Value>, k: string, v: Value): (r: Result<map<string, Value>, DictError>)
    ensures r.Failure? <==> v.List? && k in d && d[k].Str?
    ensures r.Success? ==> r.value.Keys == d.Keys + {k}
    ensures r.Success? ==> forall j :: j in d && j != k ==> r.value[j] == d[j]
    ensures r.Success? && v.List? && k in d ==> r.value[k] == List(d[k].items + v.items)
    ensures r.Success? && !(v.List? && k in d) ==> r.value[k] == v
  {
    if v.List? && k in d then
      if d[k].List? then Success(d[k := List(d[k].items + v.items)]) else Failure(NotAList(k))
    else
      Success(d[k := v])
  }

  /** Assigning two lists to a new name leaves their concatenation. */
  lemma SetItemTwice(d: map<string, Value>, k: string, a: seq<Value>, b: seq<Value>)
    requires k !in d
    ensures SetItem(d, k, List(a)).Success?
    ensures SetItem(SetItem(d, k, List(a)).value, k, List(b)) == Success(d[k := List(a + b)])
  {
    var d1 := SetItem(d, k, List(a)).value;
    assert d1 == d[k := List(a)];
    assert d1[k := List(a + b)] == d[k := List(a + b)];
  }

  /** A string assigned over anything replaces it. */
  lemma SetItemString(d: map<string, Value>, k: string, v: string)
    ensures SetItem(d, k, Str(v)) == Success(d[k := Str(v)])
  {
  }

  /** A section dict of line lists, as the values `MultiValueDict` sees. */
  function Lift(d: map<string, seq<string>>): (r: map<string, Value>)
    ensures r.Keys == d.Keys
    ensures forall j :: j in d ==> r[j] == List(Strs(d[j]))
  {
    map j | j in d :: List(Strs(d[j]))
  }

  // ---------------------------------------------------------------------------
  // Reading. The INI lexer itself is not modelled: its output is the sequence
  // of option lines, each with the section header it sits under.

  /** Lines as read from a file never hold a newline. */
  predicate NoNewlines(lines: seq<string>) {
    forall i :: 0 <= i < |lines| ==> '\n' !in lines[i]
  }

  lemma NoNewlinesAppend(a: seq<string>, b: seq<string>)
    requires NoNewlines(a) && NoNewlines(b)
    ensures NoNewlines(a + b)
  {
    forall j | 0 <= j < |a + b| ensures '\n' !in (a + b)[j] {
      if j >= |a| {
        assert (a + b)[j] == b[j - |a|];
      }
    }
  }

  /** One option line: the section it belongs to, the option name as written,
      the value on the line and the continuation lines after it, stripped. */
  datatype Entry = Entry(section: string, name: string, first: string, more: seq<string>)

  /** `[optval]` extended by the continuation lines. */
  function Lines(e: Entry): (r: seq<string>)
    ensures |r| > 0 && r[0] == e.first
  {
    [e.first] + e.more
  }

  /** The section whose options every other section falls back to. */
  const DEFAULT_SECTION: string := "DEFAULT"

  /** What the parser holds after reading: the sections in order of first
      appearance, the options of each with their collected lines (the lines are
      joined by newlines when reading ends, which here happens on lookup), and
      the DEFAULT options. */
  datatype Parsed = Parsed(
    order: seq<string>,
    sections: map<string, map<string, seq<string>>>,
    defaults: map<string, seq<string>>)

  /** The sections are listed once each, in order, and DEFAULT is not one of them. */
  predicate Consistent(p: Parsed) {
    (forall i :: 0 <= i < |p.order| ==> p.order[i] in p.sections && p.order[i] != DEFAULT_SECTION) &&
    (forall s :: s in p.sections ==> s in p.order) &&
    (forall i, j :: 0 <= i < j < |p.order| ==> p.order[i] != p.order[j])
  }

  /** The options under a header: DEFAULT's, a section's, or none yet. */
  function HeaderDict(p: Parsed, s: string): map<string, seq<string>> {
    if s == DEFAULT_SECTION then p.defaults
    else if s in p.sections then p.sections[s]
    else map[]
  }

  /** `cursect[optname] = [optval]` and the continuation appends, for a section
      dict holding lists: through `MultiValueDict` a repeated name extends. */
  function Store(d: map<string, seq<string>>, k: string, lines: seq<string>): (r: map<string, seq<string>>)
    ensures r.Keys == d.Keys + {k}
    ensures forall j :: j in d && j != k ==> r[j] == d[j]
  {
    if k in d then d[k := d[k] + lines] else d[k := lines]
  }

  /** Storing lines is `MultiValueDict.__setitem__` with the one-element list
      and the continuation lines. */
  lemma StoreIsSetItem(d: map<string, seq<string>>, k: string, lines: seq<string>)
    ensures SetItem(Lift(d), k, List(Strs(lines))) == Success(Lift(Store(d, k, lines)))
  {
    if k in d {
      assert Strs(d[k] + lines) == Strs(d[k]) + Strs(lines);
    }
    assert Lift(Store(d, k, lines)) == SetItem(Lift(d), k, List(Strs(lines))).value;
  }

  /** One option line read: DEFAULT options go to the defaults, a header seen
      before re-enters its section, a new header opens a new one. */
  function Add(p: Parsed, e: Entry): (r: Parsed)
    ensures Consistent(p) ==> Consistent(r)
  {
    var k := Normalize(e.name);
    if e.section == DEFAULT_SECTION then
      p.(defaults := Store(p.defaults, k, Lines(e)))
    else if e.section in p.sections then
      p.(sections := p.sections[e.section := Store(p.sections[e.section], k, Lines(e))])
    else
      p.(order := p.order + [e.section], sections := p.sections[e.section := Store(map[], k, Lines(e))])
  }

  /** What reading one option line changes: only the entry of its own header,
      and the section order only when the header is new. */
  lemma AddEffect(p: Parsed, e: Entry)
    ensures forall s :: s != e.section ==>
      (s in Add(p, e).sections <==> s in p.sections) &&
      (s in p.sections ==> Add(p, e).sections[s] == p.sections[s])
    ensures e.section == DEFAULT_SECTION ==> Add(p, e).sections == p.sections && Add(p, e).order == p.order
    ensures e.section != DEFAULT_SECTION ==> Add(p, e).defaults == p.defaults && e.section in Add(p, e).sections
    ensures e.section != DEFAULT_SECTION && e.section in p.sections ==> Add(p, e).order == p.order
    ensures e.section != DEFAULT_SECTION && e.section !in p.sections ==> Add(p, e).order == p.order + [e.section]
    ensures e.section != DEFAULT_SECTION ==>
      Add(p, e).sections[e.section] == Store(HeaderDict(p, e.section), Normalize(e.name), Lines(e))
  {
  }

  /** `readfp`, from the option lines of a file. */
  function Read(es: seq<Entry>): (p: Parsed)
    ensures Consistent(p)
    decreases |es|
  {
    if |es| == 0 then Parsed([], map[], map[])
    else Add(Read(es[..|es| - 1]), es[|es| - 1])
  }

  lemma ReadSnoc(es: seq<Entry>, e: Entry)
    ensures Read(es + [e]) == Add(Read(es), e)
  {
    assert (es + [e])[..|es|] == es;
  }

  /** The lines `f` picks from each option line, in file order. */
  function Gathered(es: seq<Entry>, f: Entry -> seq<string>): seq<string>
    decreases |es|
  {
    if |es| == 0 then [] else f(es[0]) + Gathered(es[1..], f)
  }

  lemma {:induction false} GatheredSnoc(es: seq<Entry>, e: Entry, f: Entry -> seq<string>)
    ensures Gathered(es + [e], f) == Gathered(es, f) + f(e)
    decreases |es|
  {
    if |es| == 0 {
      assert [] + [e] == [e];
      assert [e][1..] == [];
    } else {
      assert (es + [e])[0] == es[0];
      assert (es + [e])[1..] == es[1..] + [e];
      GatheredSnoc(es[1..], e, f);
    }
  }

  /** Reference: the lines of every option line under header `s` whose name
      normalises to `k`, in file order. */
  function Collected(es: seq<Entry>, s: string, k: string): seq<string>
  {
    Gathered(es, e => Contribution(e, s, k))
  }

  /** The lines one option line adds to the value of `k` under header `s`. */
  function Contribution(e: Entry, s: string, k: string): seq<string> {
    if e.section == s && Normalize(e.name) == k then Lines(e) else []
  }

  lemma CollectedCons(es: seq<Entry>, s: string, k: string)
    requires |es| > 0
    ensures Collected(es, s, k) == Contribution(es[0], s, k) + Collected(es[1..], s, k)
  {
  }

  lemma CollectedSnoc(es: seq<Entry>, e: Entry, s: string, k: string)
    ensures Collected(es + [e], s, k) == Collected(es, s, k) + Contribution(e, s, k)
  {
    GatheredSnoc(es, e, e => Contribution(e, s, k));
  }

  /** Reading one option line touches only the dict of its own header. */
  lemma AddHeader(p: Parsed, e: Entry, s: string)
    ensures HeaderDict(Add(p, e), s) ==
      if e.section == s then Store(HeaderDict(p, s), Normalize(e.name), Lines(e)) else HeaderDict(p, s)
  {
  }

  /** One step of collecting: the lines stored under `k` grow by what the step
      adds, and a key is present exactly when it holds some line. */
  lemma StoreGrows(d: map<string, seq<string>>, d2: map<string, seq<string>>, k: string,
                   before: seq<string>, add: seq<string>)
    requires (k in d <==> |before| > 0) && (k in d ==> d[k] == before)
    requires |add| > 0 ==> d2 == Store(d, k, add)
    requires |add| == 0 ==> (k in d2 <==> k in d) && (k in d ==> d2[k] == d[k])
    ensures (k in d2 <==> |before + add| > 0) && (k in d2 ==> d2[k] == before + add)
  {
    if |add| == 0 {
      assert before + add == before;
    }
  }

  /** Repeated names merge: after reading, a name is present under a header
      exactly when some option line there carries it, and it holds the lines of
      all those option lines in file order. */
  lemma {:induction false} ReadCollects(es: seq<Entry>, s: string, k: string)
    ensures k in HeaderDict(Read(es), s) <==> |Collected(es, s, k)| > 0
    ensures k in HeaderDict(Read(es), s) ==> HeaderDict(Read(es), s)[k] == Collected(es, s, k)
    decreases |es|
  {
    if |es| > 0 {
      var init, e := es[..|es| - 1], es[|es| - 1];
      assert es == init + [e];
      ReadCollects(init, s, k);
      ReadSnoc(init, e);
      CollectedSnoc(init, e, s, k);
      AddContributes(Read(init), e, s, k);
      StoreGrows(HeaderDict(Read(init), s), HeaderDict(Read(es), s), k, Collected(init, s, k), Contribution(e, s, k));
    }
  }

  /** One more entry stores its lines under `k` when it contributes to `k`,
      and leaves `k` alone otherwise. */
  lemma AddContributes(p: Parsed, e: Entry, s: string, k: string)
    ensures var d, d2, add := HeaderDict(p, s), HeaderDict(Add(p, e), s), Contribution(e, s, k);
      (|add| > 0 ==> d2 == Store(d, k, add)) &&
      (|add| == 0 ==> (k in d2 <==> k in d) && (k in d ==> d2[k] == d[k]))
  {
    AddHeader(p, e, s);
  }

  /** A section exists after reading exactly when some option line sits under
      its header. */
  lemma {:induction false} ReadSections(es: seq<Entry>, s: string)
    requires s != DEFAULT_SECTION
    ensures s in Read(es).sections <==> exists i :: 0 <= i < |es| && es[i].section == s
    decreases |es|
  {
    if |es| > 0 {
      var init, e := es[..|es| - 1], es[|es| - 1];
      assert es == init + [e];
      ReadSections(init, s);
      ReadSnoc(init, e);
      if s in Read(init).sections {
        var i :| 0 <= i < |init| && init[i].section == s;
        assert es[i] == init[i];
      }
      forall i | 0 <= i < |es| - 1 ensures es[i] == init[i] { }
    }
  }

  /** Some option line contributes to the collected lines exactly when one sits
      under the header and carries the name. */
  lemma {:induction false} CollectedSome(es: seq<Entry>, s: string, k: string)
    ensures |Collected(es, s, k)| > 0 <==>
            exists i :: 0 <= i < |es| && es[i].section == s && Normalize(es[i].name) == k
    decreases |es|
  {
    if |es| > 0 {
      CollectedCons(es, s, k);
      CollectedSome(es[1..], s, k);
      forall i | 0 < i < |es| ensures es[i] == es[1..][i - 1] { }
      if |Collected(es[1..], s, k)| > 0 {
        var i :| 0 <= i < |es[1..]| && es[1..][i].section == s && Normalize(es[1..][i].name) == k;
        assert es[i + 1] == es[1..][i];
      }
    }
  }

  /** Collected lines are lines of the file: none holds a newline if none of
      the option lines does. */
  lemma {:induction false} CollectedNoNewlines(es: seq<Entry>, s: string, k: string)
    requires forall i :: 0 <= i < |es| ==> NoNewlines(Lines(es[i]))
    ensures NoNewlines(Collected(es, s, k))
    decreases |es|
  {
    if |es| > 0 {
      forall i | 0 <= i < |es[1..]| ensures NoNewlines(Lines(es[1..][i])) {
        assert es[1..][i] == es[i + 1];
      }
      CollectedNoNewlines(es[1..], s, k);
      CollectedCons(es, s, k);
      NoNewlinesAppend(Contribution(es[0], s, k), Collected(es[1..], s, k));
    }
  }

  /** Option lines that all sit under one header give one section and no
      DEFAULT options. */
  lemma {:induction false} ReadOneSection(es: seq<Entry>, s: string)
    requires |es| > 0 && s != DEFAULT_SECTION
    requires forall i :: 0 <= i < |es| ==> es[i].section == s
    ensures Read(es).order == [s] && Read(es).defaults == map[] && s in Read(es).sections
    decreases |es|
  {
    var init, e := es[..|es| - 1], es[|es| - 1];
    assert es == init + [e];
    ReadSnoc(init, e);
    AddEffect(Read(init), e);
    if |init| > 0 {
      ReadOneSection(init, s);
    }
  }
}
