/** String helpers with Python 2 meaning: `str.split(sep)`, `sep.join(xs)`,
    `str.replace`, `str.lower` on ASCII letters. */
module Text {

  predicate StartsWith(s: string, p: string) {
    |p| <= |s| && s[..|p|] == p
  }

  predicate EndsWith(s: string, p: string) {
    |p| <= |s| && s[|s| - |p|..] == p
  }

  lemma ConcatEnds(a: string, b: string)
    ensures StartsWith(a + b, a) && EndsWith(a + b, b)
  {
    assert (a + b)[..|a|] == a;
    assert (a + b)[|a + b| - |b|..] == b;
  }

  /** `sep.join(parts)`. */
  function Join(parts: seq<string>, sep: string): string
    decreases |parts|
  {
    if |parts| == 0 then ""
    else if |parts| == 1 then parts[0]
    else parts[0] + sep + Join(parts[1..], sep)
  }

  lemma JoinPair(x: string, y: string, sep: string)
    ensures Join([x, y], sep) == x + sep + y
  {
    assert [x, y][1..] == [y];
  }

  lemma JoinTriple(x: string, y: string, z: string, sep: string)
    ensures Join([x, y, z], sep) == x + sep + y + sep + z
  {
    assert [x, y, z][1..] == [y, z];
    JoinPair(y, z, sep);
  }

  lemma JoinCons(x: string, ws: seq<string>, sep: string)
    requires |ws| > 0
    ensures Join([x] + ws, sep) == x + sep + Join(ws, sep)
  {
    assert ([x] + ws)[1..] == ws;
  }

  /** Concatenation of a sequence of strings (`"".join(parts)`). */
  function Concat(parts: seq<string>): string
    decreases |parts|
  {
    if |parts| == 0 then "" else parts[0] + Concat(parts[1..])
  }

  lemma {:induction false} ConcatAppend(a: seq<string>, b: seq<string>)
    ensures Concat(a + b) == Concat(a) + Concat(b)
    decreases |a|
  {
    if |a| == 0 {
      assert a + b == b;
    } else {
      assert (a + b)[1..] == a[1..] + b;
      ConcatAppend(a[1..], b);
    }
  }

  /** `s.split(c)` for a one-character separator: never empty, and a separator
      at either end or two in a row yield empty pieces. */
  function SplitOn(s: string, c: char): (parts: seq<string>)
    ensures |parts| >= 1
    decreases |s|
  {
    if |s| == 0 then [""]
    else
      var rest := SplitOn(s[1..], c);
      if s[0] == c then [""] + rest
      else [[s[0]] + rest[0]] + rest[1..]
  }

  /** Joining the pieces of a split gives the original text back. */
  lemma {:induction false} JoinSplitOn(s: string, c: char)
    ensures Join(SplitOn(s, c), [c]) == s
    decreases |s|
  {
    if |s| > 0 {
      var rest := SplitOn(s[1..], c);
      JoinSplitOn(s[1..], c);
      assert s == [s[0]] + s[1..];
      if s[0] == c {
        assert SplitOn(s, c) == [""] + rest;
        assert Join([""] + rest, [c]) == "" + [c] + Join(rest, [c]);
      } else {
        var parts := SplitOn(s, c);
        assert parts == [[s[0]] + rest[0]] + rest[1..];
        if |rest| == 1 {
          assert Join(rest, [c]) == rest[0];
        } else {
          assert Join(rest, [c]) == rest[0] + [c] + Join(rest[1..], [c]);
          assert parts[1..] == rest[1..];
        }
      }
    }
  }

  /** A text holding the separator splits into at least two pieces. */
  lemma {:induction false} SplitOnSeparated(s: string, c: char)
    requires c in s
    ensures |SplitOn(s, c)| >= 2
    decreases |s|
  {
    if s[0] != c {
      assert c in s[1..];
      SplitOnSeparated(s[1..], c);
    }
  }

  /** Every piece of a split is free of the separator. */
  lemma {:induction false} SplitOnPiecesFree(s: string, c: char)
    ensures forall i :: 0 <= i < |SplitOn(s, c)| ==> c !in SplitOn(s, c)[i]
    decreases |s|
  {
    if |s| > 0 {
      SplitOnPiecesFree(s[1..], c);
    }
  }

  /** A piece free of the separator splits to itself. */
  lemma {:induction false} SplitOnFree(w: string, c: char)
    requires c !in w
    ensures SplitOn(w, c) == [w]
    decreases |w|
  {
    if |w| > 0 {
      SplitOnFree(w[1..], c);
      assert [w[0]] + w[1..] == w;
    }
  }

  /** Splitting `w + c + t` peels off `w` as the first piece. */
  lemma {:induction false} SplitOnCons(w: string, c: char, t: string)
    requires c !in w
    ensures SplitOn(w + [c] + t, c) == [w] + SplitOn(t, c)
    decreases |w|
  {
    if |w| == 0 {
      assert w + [c] + t == [c] + t;
      assert ([c] + t)[1..] == t;
    } else {
      var s := w + [c] + t;
      assert s[1..] == w[1..] + [c] + t;
      SplitOnCons(w[1..], c, t);
      assert [w[0]] + w[1..] == w;
    }
  }

  /** Splitting a join of separator-free pieces gives the pieces back. */
  lemma {:induction false} SplitOnJoin(parts: seq<string>, c: char)
    requires |parts| >= 1
    requires forall i :: 0 <= i < |parts| ==> c !in parts[i]
    ensures SplitOn(Join(parts, [c]), c) == parts
    decreases |parts|
  {
    if |parts| == 1 {
      SplitOnFree(parts[0], c);
    } else {
      SplitOnJoin(parts[1..], c);
      SplitOnCons(parts[0], c, Join(parts[1..], [c]));
      assert parts == [parts[0]] + parts[1..];
    }
  }

  /** Joining with one more piece at the end. */
  lemma {:induction false} JoinSnoc(parts: seq<string>, last: string, sep: string)
    requires |parts| >= 1
    ensures Join(parts + [last], sep) == Join(parts, sep) + sep + last
    decreases |parts|
  {
    if |parts| == 1 {
      assert (parts + [last])[1..] == [last];
    } else {
      assert (parts + [last])[1..] == parts[1..] + [last];
      JoinSnoc(parts[1..], last, sep);
    }
  }

  /** `s.replace(pat, rep)`: left-to-right, non-overlapping occurrences. */
  function ReplaceAll(s: string, pat: string, rep: string): string
    requires |pat| > 0
    decreases |s|
  {
    if |s| == 0 then ""
    else if StartsWith(s, pat) then rep + ReplaceAll(s[|pat|..], pat, rep)
    else [s[0]] + ReplaceAll(s[1..], pat, rep)
  }

  lemma {:induction false} ReplaceAllAppend(a: string, b: string, pat: string, rep: string)
    requires |pat| == 1
    ensures ReplaceAll(a + b, pat, rep) == ReplaceAll(a, pat, rep) + ReplaceAll(b, pat, rep)
    decreases |a|
  {
    if |a| > 0 {
      assert (a + b)[1..] == a[1..] + b;
      assert (a + b)[..1] == a[..1];
      ReplaceAllAppend(a[1..], b, pat, rep);
    } else {
      assert a + b == b;
    }
  }

  /** Replacing never fires inside text that lacks the pattern's first character. */
  lemma {:induction false} ReplacePlain(u: string, t: string, pat: string, rep: string)
    requires |pat| > 0 && pat[0] !in u
    ensures ReplaceAll(u + t, pat, rep) == u + ReplaceAll(t, pat, rep)
    decreases |u|
  {
    if |u| > 0 {
      assert (u + t)[0] == u[0];
      assert (u + t)[1..] == u[1..] + t;
      ReplacePlain(u[1..], t, pat, rep);
      assert [u[0]] + u[1..] == u;
    } else {
      assert u + t == t;
    }
  }

  // Steps of `s.replace("\\'", "'")` over the escape units of `string_escape`.

  lemma QuoteUnit(t: string)
    ensures ReplaceAll("\\'" + t, "\\'", "'") == "'" + ReplaceAll(t, "\\'", "'")
  {
    var s := "\\'" + t;
    assert s[..2] == "\\'";
    assert s[2..] == t;
  }

  lemma ReplaceNoMatch(s: string, pat: string, rep: string)
    requires |s| > 0 && |pat| > 0 && !StartsWith(s, pat)
    ensures ReplaceAll(s, pat, rep) == [s[0]] + ReplaceAll(s[1..], pat, rep)
  {
  }

  /** Two copies of the pattern's first character, when the second pattern
      character follows neither, are copied as they are. */
  lemma DoubledFirst(c: char, t: string, pat: string, rep: string)
    requires |pat| == 2 && pat[0] == c && pat[1] != c && (|t| == 0 || t[0] != pat[1])
    ensures ReplaceAll([c, c] + t, pat, rep) == [c, c] + ReplaceAll(t, pat, rep)
  {
    var s := [c, c] + t;
    var s1 := [c] + t;
    assert s[1..] == s1 && s1[1..] == t;
    assert !StartsWith(s, pat) by {
      assert s[..2][1] == c;
    }
    assert !StartsWith(s1, pat) by {
      if |s1| >= 2 {
        assert s1[..2][1] == t[0];
      }
    }
    ReplaceNoMatch(s, pat, rep);
    ReplaceNoMatch(s1, pat, rep);
  }

  lemma BackslashUnit(t: string)
    requires |t| == 0 || t[0] != '\''
    ensures ReplaceAll("\\\\" + t, "\\'", "'") == "\\\\" + ReplaceAll(t, "\\'", "'")
  {
    var pat := "\\'";
    assert pat[0] == '\\' && pat[1] == '\'';
    assert "\\\\" == ['\\', '\\'];
    DoubledFirst('\\', t, pat, "'");
  }

  /** A multi-character escape other than `\'` and `\\\\`. */
  lemma EscapeUnit(u: string, t: string)
    requires |u| > 1 && '\\' !in u[1..] && u[1] != '\''
    ensures ReplaceAll(u + t, "\\'", "'") == u + ReplaceAll(t, "\\'", "'")
  {
    var s := u + t;
    assert s[1] == u[1];
    assert !StartsWith(s, "\\'");
    assert ReplaceAll(s, "\\'", "'") == [s[0]] + ReplaceAll(s[1..], "\\'", "'");
    assert s[1..] == u[1..] + t;
    ReplacePlain(u[1..], t, "\\'", "'");
    assert u == [u[0]] + u[1..];
  }

  /** `c * n` for a one-character string; Python gives "" for n <= 0. */
  function Repeat(c: char, n: int): (r: string)
    ensures |r| == if n <= 0 then 0 else n
    ensures forall i :: 0 <= i < |r| ==> r[i] == c
    decreases if n <= 0 then 0 else n
  {
    if n <= 0 then "" else [c] + Repeat(c, n - 1)
  }

  predicate IsLower(c: char) {
    'a' <= c <= 'z'
  }

  predicate IsUpper(c: char) {
    'A' <= c <= 'Z'
  }

  predicate IsDigit(c: char) {
    '0' <= c <= '9'
  }

  /** Lower-casing of one character, ASCII letters only. */
  function LowerChar(c: char): (r: char)
    ensures !IsUpper(r)
    ensures IsUpper(c) ==> r as int == c as int + 32
    ensures !IsUpper(c) ==> r == c
  {
    if IsUpper(c) then (c as int + 32) as char else c
  }

  function Lower(s: string): (r: string)
    ensures |r| == |s|
    decreases |s|
  {
    if |s| == 0 then "" else [LowerChar(s[0])] + Lower(s[1..])
  }

  lemma {:induction false} LowerAt(s: string, i: nat)
    requires i < |s|
    ensures Lower(s)[i] == LowerChar(s[i])
    decreases |s|
  {
    if i > 0 {
      LowerAt(s[1..], i - 1);
    }
  }

  lemma LowerNoUpper(s: string)
    ensures forall i :: 0 <= i < |s| ==> !IsUpper(Lower(s)[i])
  {
    forall i | 0 <= i < |s| ensures !IsUpper(Lower(s)[i]) {
      LowerAt(s, i);
    }
  }

  /** The text before the first newline (what a regex `.*` can match). */
  function TakeLine(s: string): (r: string)
    ensures |r| <= |s|
    decreases |s|
  {
    if |s| == 0 || s[0] == '\n' then "" else [s[0]] + TakeLine(s[1..])
  }

  /** The line is a prefix free of newlines, ended by a newline or by the end. */
  lemma {:induction false} TakeLineSpec(s: string)
    ensures TakeLine(s) == s[..|TakeLine(s)|]
    ensures '\n' !in TakeLine(s)
    ensures |TakeLine(s)| < |s| ==> s[|TakeLine(s)|] == '\n'
    decreases |s|
  {
    if |s| > 0 && s[0] != '\n' {
      TakeLineSpec(s[1..]);
    }
  }

  lemma {:induction false} TakeLineWhole(s: string)
    requires '\n' !in s
    ensures TakeLine(s) == s
    decreases |s|
  {
    if |s| > 0 {
      TakeLineWhole(s[1..]);
      assert [s[0]] + s[1..] == s;
    }
  }

  /** Length of the longest prefix of `s` whose characters all satisfy `p`
      (what a greedy regex class repetition consumes). */
  function Run(s: string, p: char -> bool): (n: nat)
    ensures n <= |s|
    decreases |s|
  {
    if |s| == 0 || !p(s[0]) then 0 else 1 + Run(s[1..], p)
  }

  /** The run is maximal: every character in it satisfies `p`, the next does not. */
  lemma {:induction false} RunSpec(s: string, p: char -> bool)
    ensures forall i :: 0 <= i < Run(s, p) ==> p(s[i])
    ensures Run(s, p) < |s| ==> !p(s[Run(s, p)])
    decreases |s|
  {
    if |s| > 0 && p(s[0]) {
      RunSpec(s[1..], p);
      forall i | 0 < i < Run(s, p) ensures p(s[i]) {
        assert s[i] == s[1..][i - 1];
      }
    }
  }

  /** A prefix of characters satisfying `p` that is followed by the end or by a
      character that fails `p` is exactly the run. */
  lemma {:induction false} RunOf(s: string, n: nat, p: char -> bool)
    requires n <= |s|
    requires forall i :: 0 <= i < n ==> p(s[i])
    requires n < |s| ==> !p(s[n])
    ensures Run(s, p) == n
    decreases |s|
  {
    if n > 0 {
      assert p(s[0]);
      assert forall i :: 0 <= i < n - 1 ==> p(s[1..][i]) by {
        forall i | 0 <= i < n - 1 ensures p(s[1..][i]) {
          assert s[1..][i] == s[i + 1];
        }
      }
      RunOf(s[1..], n - 1, p);
    }
  }

  /** A property of every character survives joining. */
  lemma {:induction false} JoinChars(parts: seq<string>, sep: string, p: char -> bool)
    requires forall i :: 0 <= i < |sep| ==> p(sep[i])
    requires forall k, i :: 0 <= k < |parts| && 0 <= i < |parts[k]| ==> p(parts[k][i])
    ensures forall i :: 0 <= i < |Join(parts, sep)| ==> p(Join(parts, sep)[i])
    decreases |parts|
  {
    if |parts| > 1 {
      JoinChars(parts[1..], sep, p);
      var a := parts[0] + sep;
      var t := Join(parts[1..], sep);
      assert Join(parts, sep) == a + t;
      forall i | 0 <= i < |a + t| ensures p((a + t)[i]) {
        if i < |parts[0]| {
          assert (a + t)[i] == parts[0][i];
        } else if i < |a| {
          assert (a + t)[i] == sep[i - |parts[0]|];
        } else {
          assert (a + t)[i] == t[i - |a|];
        }
      }
    }
  }

  /** A join ends with its last piece. */
  lemma {:induction false} JoinLast(parts: seq<string>, sep: string)
    requires |parts| > 0
    ensures EndsWith(Join(parts, sep), parts[|parts| - 1])
    decreases |parts|
  {
    if |parts| > 1 {
      JoinLast(parts[1..], sep);
      var t := Join(parts[1..], sep);
      var last := parts[|parts| - 1];
      assert parts[1..][|parts[1..]| - 1] == last;
      var j := parts[0] + sep + t;
      assert j[|j| - |last|..] == t[|t| - |last|..];
    }
  }

  /** `str.isspace()` on a byte string: space, tab, newline, CR, VT, FF. */
  predicate IsSpace(c: char) {
    c == ' ' || c == '\t' || c == '\n' || c == '\r' || c == '\U{B}' || c == '\U{C}'
  }

  /** `s.strip() == ""`. */
  predicate IsBlank(s: string) {
    forall i :: 0 <= i < |s| ==> IsSpace(s[i])
  }
}
