/** `shlex.split(s)` of Python 2.7: POSIX mode, whitespace splitting, comments off.
    A state machine over the characters; whitespace is space, tab, CR and newline;
    single quotes take everything literally; inside double quotes a backslash
    escapes only `\` and `"`; outside quotes it escapes any character. */
module Shlex {
  import opened Wrappers
  import Text

  /** The two ValueErrors shlex raises. */
  datatype ShlexError = NoClosingQuotation | NoEscapedCharacter

  /** The lexer's state: between words, inside a word, inside quotes, or right
      after a backslash (outside quotes or inside double quotes). */
  datatype Mode = Between | InWord | InSingle | InDouble | EscapeInWord | EscapeInDouble

  predicate IsShlexSpace(c: char) {
    c == ' ' || c == '\t' || c == '\r' || c == '\n'
  }

  /** Reads `s` from index `i`; `token` is the word being built, `quoted` records
      that a quote was seen in it (so an empty quoted word still counts), `acc`
      the words already produced. */
  function Lex(s: string, i: nat, mode: Mode, token: string, quoted: bool, acc: seq<string>)
    : Result<seq<string>, ShlexError>
    requires i <= |s|
    decreases |s| - i
  {
    if i == |s| then
      match mode
      case Between => Success(acc)
      case InWord => Success(if token != "" || quoted then acc + [token] else acc)
      case InSingle => Failure(NoClosingQuotation)
      case InDouble => Failure(NoClosingQuotation)
      case EscapeInWord => Failure(NoEscapedCharacter)
      case EscapeInDouble => Failure(NoEscapedCharacter)
    else
      var c := s[i];
      match mode
      case Between =>
        if IsShlexSpace(c) then Lex(s, i + 1, Between, "", false, acc)
        else if c == '\\' then Lex(s, i + 1, EscapeInWord, "", false, acc)
        else if c == '\'' then Lex(s, i + 1, InSingle, "", false, acc)
        else if c == '"' then Lex(s, i + 1, InDouble, "", false, acc)
        else Lex(s, i + 1, InWord, [c], false, acc)
      case InWord =>
        if IsShlexSpace(c) then
          Lex(s, i + 1, Between, "", false, if token != "" || quoted then acc + [token] else acc)
        else if c == '\'' then Lex(s, i + 1, InSingle, token, quoted, acc)
        else if c == '"' then Lex(s, i + 1, InDouble, token, quoted, acc)
        else if c == '\\' then Lex(s, i + 1, EscapeInWord, token, quoted, acc)
        else Lex(s, i + 1, InWord, token + [c], quoted, acc)
      case InSingle =>
        if c == '\'' then Lex(s, i + 1, InWord, token, true, acc)
        else Lex(s, i + 1, InSingle, token + [c], true, acc)
      case InDouble =>
        if c == '"' then Lex(s, i + 1, InWord, token, true, acc)
        else if c == '\\' then Lex(s, i + 1, EscapeInDouble, token, true, acc)
        else Lex(s, i + 1, InDouble, token + [c], true, acc)
      case EscapeInWord =>
        Lex(s, i + 1, InWord, token + [c], quoted, acc)
      case EscapeInDouble =>
        var kept := if c != '\\' && c != '"' then "\\" else "";
        Lex(s, i + 1, InDouble, token + kept + [c], quoted, acc)
  }

  /** `shlex.split(s)`: on text without quotes or backslashes, the whitespace
      split. */
  function Split(s: string): (r: Result<seq<string>, ShlexError>)
    ensures Plain(s) ==> r == Success(Words(s))
  {
    LexPlain(s);
    Lex(s, 0, Between, "", false, [])
  }

  // ---------------------------------------------------------------------------
  // Reference: on text without quotes or backslashes, shlex is a plain
  // whitespace split.

  predicate PlainChar(c: char) {
    c != '\'' && c != '"' && c != '\\'
  }

  /** No character that shlex treats specially apart from whitespace. */
  predicate Plain(s: string) {
    forall i :: 0 <= i < |s| ==> PlainChar(s[i])
  }

  lemma PlainDrop(s: string, i: nat)
    requires i < |s| && Plain(s[i..])
    ensures PlainChar(s[i]) && Plain(s[i + 1..])
  {
    var u, t := s[i..], s[i + 1..];
    assert u[0] == s[i];
    forall k | 0 <= k < |t| ensures PlainChar(t[k]) {
      assert t[k] == u[k + 1];
    }
  }

  lemma PlainDropBounded(s: string, i: nat, j: nat)
    requires i < j <= |s| && Plain(s[i..j])
    ensures PlainChar(s[i]) && Plain(s[i + 1..j])
  {
    var u, t := s[i..j], s[i + 1..j];
    assert u[0] == s[i];
    forall k | 0 <= k < |t| ensures PlainChar(t[k]) {
      assert t[k] == u[k + 1];
    }
  }

  /** The longest prefix free of whitespace. */
  function FirstWord(s: string): (w: string)
    ensures |w| <= |s| && w == s[..|w|]
    ensures forall i :: 0 <= i < |w| ==> !IsShlexSpace(w[i])
    ensures |w| < |s| ==> IsShlexSpace(s[|w|])
    decreases |s|
  {
    if |s| == 0 || IsShlexSpace(s[0]) then "" else [s[0]] + FirstWord(s[1..])
  }

  /** Whitespace-separated words, empty words dropped. */
  function Words(s: string): seq<string>
    decreases |s|
  {
    if |s| == 0 then []
    else if IsShlexSpace(s[0]) then Words(s[1..])
    else
      var w := FirstWord(s);
      [w] + Words(s[|w|..])
  }

  /** One plain character read inside a word. */
  lemma WordStep(s: string, i: nat, token: string, acc: seq<string>)
    requires i < |s| && PlainChar(s[i]) && token != ""
    ensures !IsShlexSpace(s[i]) ==> Lex(s, i, InWord, token, false, acc) == Lex(s, i + 1, InWord, token + [s[i]], false, acc)
    ensures IsShlexSpace(s[i]) ==> Lex(s, i, InWord, token, false, acc) == Lex(s, i + 1, Between, "", false, acc + [token])
  {
  }

  /** One plain character read between words. */
  lemma BetweenStep(s: string, i: nat, acc: seq<string>)
    requires i < |s| && PlainChar(s[i])
    ensures !IsShlexSpace(s[i]) ==> Lex(s, i, Between, "", false, acc) == Lex(s, i + 1, InWord, [s[i]], false, acc)
    ensures IsShlexSpace(s[i]) ==> Lex(s, i, Between, "", false, acc) == Lex(s, i + 1, Between, "", false, acc)
  {
  }

  /** A word starting at a non-blank character: that character, then the rest
      of the word; what follows the word is the same either way. */
  lemma FirstWordCons(s: string, i: nat)
    requires i < |s| && !IsShlexSpace(s[i])
    ensures FirstWord(s[i..]) == [s[i]] + FirstWord(s[i + 1..])
    ensures s[i..][|FirstWord(s[i..])|..] == s[i + 1..][|FirstWord(s[i + 1..])|..]
  {
    assert s[i..][0] == s[i];
    assert s[i..][1..] == s[i + 1..];
  }

  lemma {:induction false} LexPlainBetween(s: string, i: nat, acc: seq<string>)
    requires i <= |s| && Plain(s[i..])
    ensures Lex(s, i, Between, "", false, acc) == Success(acc + Words(s[i..]))
    decreases |s| - i, 0
  {
    if i < |s| {
      var c := s[i];
      assert s[i..][0] == c;
      assert s[i..][1..] == s[i + 1..];
      PlainDrop(s, i);
      BetweenStep(s, i, acc);
      if IsShlexSpace(c) {
        LexPlainBetween(s, i + 1, acc);
      } else {
        LexPlainWord(s, i + 1, [c], acc);
        var w := FirstWord(s[i..]);
        FirstWordCons(s, i);
        assert Words(s[i..]) == [w] + Words(s[i..][|w|..]);
        assert acc + [w] + Words(s[i..][|w|..]) == acc + Words(s[i..]);
      }
    } else {
      assert acc + [] == acc;
    }
  }

  /** Text that starts with a blank: no word yet, and the words of the rest. */
  lemma SpaceFirst(s: string, i: nat)
    requires i < |s| && IsShlexSpace(s[i])
    ensures FirstWord(s[i..]) == ""
    ensures Words(s[i..][|FirstWord(s[i..])|..]) == Words(s[i + 1..])
  {
    assert s[i..][0] == s[i];
    assert s[i..][1..] == s[i + 1..];
    assert s[i..][0..] == s[i..];
  }

  /** A blank ends the word being built: the words of the rest follow it. */
  lemma WordEndsAtSpace(s: string, i: nat, token: string, acc: seq<string>)
    requires i < |s| && IsShlexSpace(s[i])
    ensures acc + [token] + Words(s[i + 1..]) == acc + [token + FirstWord(s[i..])] + Words(s[i..][|FirstWord(s[i..])|..])
  {
    SpaceFirst(s, i);
    assert token + FirstWord(s[i..]) == token;
  }

  /** At the end of the text the word is over and nothing follows. */
  lemma EndFirst(s: string)
    ensures FirstWord(s[|s|..]) == "" && Words(s[|s|..][|FirstWord(s[|s|..])|..]) == []
  {
    assert s[|s|..] == "";
  }

  /** A non-blank extends the word being built. */
  lemma WordGoesOn(s: string, i: nat, token: string, acc: seq<string>)
    requires i < |s| && !IsShlexSpace(s[i])
    ensures acc + [token + [s[i]] + FirstWord(s[i + 1..])] + Words(s[i + 1..][|FirstWord(s[i + 1..])|..])
         == acc + [token + FirstWord(s[i..])] + Words(s[i..][|FirstWord(s[i..])|..])
  {
    FirstWordCons(s, i);
    assert token + [s[i]] + FirstWord(s[i + 1..]) == token + FirstWord(s[i..]);
  }

  /** The end of the text ends the word. */
  lemma LexPlainEnd(s: string, token: string, acc: seq<string>)
    requires token != ""
    ensures Lex(s, |s|, InWord, token, false, acc)
      == Success(acc + [token + FirstWord(s[|s|..])] + Words(s[|s|..][|FirstWord(s[|s|..])|..]))
  {
    EndFirst(s);
    assert token + "" == token;
    assert acc + [token] + [] == acc + [token];
  }

  /** A blank inside a word ends it. */
  lemma {:induction false} LexPlainSpace(s: string, i: nat, token: string, acc: seq<string>)
    requires i < |s| && Plain(s[i..]) && token != "" && IsShlexSpace(s[i])
    ensures Lex(s, i, InWord, token, false, acc)
      == Success(acc + [token + FirstWord(s[i..])] + Words(s[i..][|FirstWord(s[i..])|..]))
    decreases |s| - i, 1
  {
    PlainDrop(s, i);
    WordStep(s, i, token, acc);
    LexPlainBetween(s, i + 1, acc + [token]);
    WordEndsAtSpace(s, i, token, acc);
  }

  lemma {:induction false} LexPlainWord(s: string, i: nat, token: string, acc: seq<string>)
    requires i <= |s| && Plain(s[i..]) && token != ""
    ensures Lex(s, i, InWord, token, false, acc)
      == Success(acc + [token + FirstWord(s[i..])] + Words(s[i..][|FirstWord(s[i..])|..]))
    decreases |s| - i, 2
  {
    if i < |s| {
      var c := s[i];
      PlainDrop(s, i);
      if IsShlexSpace(c) {
        LexPlainSpace(s, i, token, acc);
      } else {
        WordStep(s, i, token, acc);
        LexPlainWord(s, i + 1, token + [c], acc);
        WordGoesOn(s, i, token, acc);
      }
    } else {
      LexPlainEnd(s, token, acc);
    }
  }

  /** The lexer, started as `shlex.split` starts it, splits text without quotes
      or backslashes at whitespace. */
  lemma LexPlain(s: string)
    ensures Plain(s) ==> Lex(s, 0, Between, "", false, []) == Success(Words(s))
  {
    if Plain(s) {
      assert s[0..] == s;
      LexPlainBetween(s, 0, []);
      assert [] + Words(s) == Words(s);
    }
  }

  /** Whitespace-separated words are non-empty and free of whitespace. */
  lemma {:induction false} WordsShape(s: string)
    ensures forall k :: 0 <= k < |Words(s)| ==> |Words(s)[k]| > 0
    ensures forall k, j :: 0 <= k < |Words(s)| && 0 <= j < |Words(s)[k]| ==> !IsShlexSpace(Words(s)[k][j])
    decreases |s|
  {
    if |s| > 0 {
      if IsShlexSpace(s[0]) {
        WordsShape(s[1..]);
      } else {
        var w := FirstWord(s);
        assert |w| > 0;
        WordsShape(s[|w|..]);
      }
    }
  }

  /** A word `shlex` passes through untouched: non-empty, no whitespace, no
      quote, no backslash. */
  predicate SimpleWord(w: string) {
    |w| > 0 && forall i :: 0 <= i < |w| ==> PlainChar(w[i]) && !IsShlexSpace(w[i])
  }

  lemma {:induction false} FirstWordOf(w: string, rest: string)
    requires forall i :: 0 <= i < |w| ==> !IsShlexSpace(w[i])
    requires |rest| == 0 || IsShlexSpace(rest[0])
    ensures FirstWord(w + rest) == w
    decreases |w|
  {
    if |w| == 0 {
      assert w + rest == rest;
    } else {
      assert (w + rest)[1..] == w[1..] + rest;
      FirstWordOf(w[1..], rest);
      assert [w[0]] + w[1..] == w;
    }
  }

  /** Words joined by single spaces are split back into the same words. */
  /** A simple word, a space and plain text: the word, then the words of the text. */
  lemma WordsCons(w: string, rest: string)
    requires SimpleWord(w) && Plain(rest)
    ensures Plain(w + " " + rest)
    ensures Words(w + " " + rest) == [w] + Words(rest)
  {
    var s := w + " " + rest;
    assert s == w + (" " + rest);
    FirstWordOf(w, " " + rest);
    assert s[|w|..] == " " + rest;
    assert (" " + rest)[1..] == rest;
    assert Words(" " + rest) == Words(rest);
    forall i | 0 <= i < |s| ensures PlainChar(s[i]) {
      if i < |w| {
        assert s[i] == w[i];
      } else if i > |w| {
        assert s[i] == rest[i - |w| - 1];
      }
    }
  }

  lemma WordsOne(w: string)
    requires SimpleWord(w)
    ensures Plain(w) && Words(w) == [w]
  {
    FirstWordOf(w, "");
    assert w + "" == w;
    assert w[|w|..] == "";
  }

  lemma {:induction false} WordsJoin(ws: seq<string>)
    requires forall k :: 0 <= k < |ws| ==> SimpleWord(ws[k])
    ensures Plain(Text.Join(ws, " "))
    ensures Words(Text.Join(ws, " ")) == ws
    decreases |ws|
  {
    if |ws| == 1 {
      WordsOne(ws[0]);
    } else if |ws| > 1 {
      WordsJoin(ws[1..]);
      Text.JoinCons(ws[0], ws[1..], " ");
      assert ws == [ws[0]] + ws[1..];
      WordsCons(ws[0], Text.Join(ws[1..], " "));
    }
  }

  /** `shlex.split(" ".join(ws)) == ws` for simple words. */
  lemma SplitJoin(ws: seq<string>)
    requires forall k :: 0 <= k < |ws| ==> SimpleWord(ws[k])
    ensures Split(Text.Join(ws, " ")) == Success(ws)
  {
    WordsJoin(ws);
  }

  // ---------------------------------------------------------------------------
  // Error cases.

  /** An opened quote that is never closed fails, however the text before it
      was lexed. */
  lemma {:induction false} LexUnclosed(s: string, i: nat, q: char, token: string, quoted: bool, acc: seq<string>)
    requires i <= |s|
    requires q == '\'' || q == '"'
    requires forall k :: i <= k < |s| ==> s[k] != q && s[k] != '\\'
    ensures Lex(s, i, if q == '\'' then InSingle else InDouble, token, quoted, acc)
      == Failure(NoClosingQuotation)
    decreases |s| - i
  {
    if i < |s| {
      LexUnclosed(s, i + 1, q, token + [s[i]], true, acc);
    }
  }

  /** Text without shlex specials that ends in an opening quote followed by no
      closing one (and no backslash) fails with "No closing quotation"; text
      without specials that ends in a lone backslash fails with "No escaped
      character". */
  lemma {:induction false} LexDangling(s: string, i: nat, j: nat, mode: Mode, token: string, acc: seq<string>)
    requires i <= j < |s|
    requires mode == Between || (mode == InWord && token != "")
    requires Plain(s[i..j])
    requires s[j] == '\\' ==> j == |s| - 1
    requires s[j] == '\'' || s[j] == '"' || s[j] == '\\'
    requires forall k :: j < k < |s| ==> s[k] != s[j] && s[k] != '\\'
    ensures Lex(s, i, mode, token, false, acc)
      == Failure(if s[j] == '\\' then NoEscapedCharacter else NoClosingQuotation)
    decreases j - i
  {
    if i < j {
      PlainDropBounded(s, i, j);
      var c := s[i];
      if IsShlexSpace(c) {
        LexDangling(s, i + 1, j, Between, "", if mode == InWord then acc + [token] else acc);
      } else {
        LexDangling(s, i + 1, j, InWord, if mode == InWord then token + [c] else [c], acc);
      }
    } else if s[j] == '\\' {
      assert i + 1 == |s|;
    } else {
      LexUnclosed(s, i + 1, s[j], if mode == Between then "" else token, false, acc);
    }
  }

  /** `shlex.split` fails on plain text followed by an unclosed quote or by a
      trailing backslash. */
  lemma SplitDangling(p: string, tail: string)
    requires Plain(p)
    requires |tail| > 0 && (tail[0] == '\'' || tail[0] == '"' || tail == "\\")
    requires forall k :: 0 < k < |tail| ==> tail[k] != tail[0] && tail[k] != '\\'
    ensures Split(p + tail)
      == Failure(if tail == "\\" then NoEscapedCharacter else NoClosingQuotation)
  {
    var s := p + tail;
    assert s[0..|p|] == p;
    assert s[|p|] == tail[0];
    forall k | |p| < k < |s| ensures s[k] != s[|p|] && s[k] != '\\' {
      assert s[k] == tail[k - |p|];
    }
    LexDangling(s, 0, |p|, Between, "", []);
  }
}
