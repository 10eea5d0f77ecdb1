/** Core/string.c and ParseCutString of Core/parsing.c: a line cut into words in place. */
module Tokenizer {
  import opened CStrings

  predicate Blank(c: char) {
    c == ' ' || c == '\t'
  }

  predicate Quote(c: char) {
    c == '"' || c == '\''
  }

  /** What trim_right cuts: the control characters and the space. */
  predicate Trimmed(c: char) {
    NUL < c <= ' '
  }

  // ----- one word -----

  function TrimRight(s: string): (r: string)
    ensures r <= s
    ensures r != [] ==> !Trimmed(r[|r| - 1])
    decreases |s|
  {
    if s != [] && Trimmed(s[|s| - 1]) then TrimRight(s[..|s| - 1]) else s
  }

  function TrimLeft(s: string): (r: string)
    ensures |r| <= |s|
  {
    if s != [] && Blank(s[0]) then TrimLeft(s[1..]) else s
  }

  function IndexOf(s: string, c: char): (k: nat)
    ensures k <= |s|
    ensures k < |s| ==> s[k] == c
  {
    if s == [] || s[0] == c then 0 else 1 + IndexOf(s[1..], c)
  }

  lemma {:induction false} IndexOfIsFirst(s: string, c: char)
    ensures forall j :: 0 <= j < IndexOf(s, c) ==> s[j] != c
  {
    if s != [] && s[0] != c {
      IndexOfIsFirst(s[1..], c);
      assert forall j :: 0 < j < IndexOf(s, c) ==> s[j] == s[1..][j - 1];
    }
  }

  /**
    Quotes and backslashes removed. What follows a backslash, and also what follows a closing
    quote, is taken as it is.
   */
  function Clean(s: string): (r: string)
    ensures |r| <= |s|
    decreases |s|, 0
  {
    if s == [] then []
    else if Quote(s[0]) then Unquote(s[1..], s[0])
    else if s[0] == '\\' then TakeFirst(s[1..])
    else [s[0]] + Clean(s[1..])
  }

  /** What follows an opening quote: text as it is up to the closing one. */
  function Unquote(t: string, c: char): (r: string)
    ensures |r| <= |t|
    decreases |t|, 2
  {
    var k := IndexOf(t, c);
    if k == |t| then t else t[..k] + TakeFirst(t[k + 1..])
  }

  function TakeFirst(t: string): (r: string)
    ensures |r| <= |t|
    decreases |t|, 1
  {
    if t == [] then [] else [t[0]] + Clean(t[1..])
  }

  function Word(s: string): string {
    Clean(TrimLeft(TrimRight(s)))
  }

  // ----- a line -----

  /** How far one step of the scan goes. */
  function Step(s: string): (k: nat)
    requires s != []
    ensures k > 0
  {
    if Quote(s[0]) then IndexOf(s[1..], s[0]) + 2 else if s[0] == '\\' then 2 else 1
  }

  /** Every quote is closed, and no backslash comes last. */
  predicate Balanced(s: string)
    decreases |s|
  {
    s == [] || (Step(s) <= |s| && Balanced(s[Step(s)..]))
  }

  lemma BalancedBehind(s: string)
    requires Balanced(s) && s != []
    ensures Step(s) <= |s| && Balanced(s[Step(s)..])
  {
    hide Step;
  }

  /** Up to the first blank that is neither quoted nor escaped. */
  function WordLen(s: string): nat
    requires Balanced(s)
    decreases |s|
  {
    if s == [] || Blank(s[0]) then 0
    else
      BalancedBehind(s);
      Step(s) + WordLen(s[Step(s)..])
  }

  lemma {:induction false} WordLenIs(s: string)
    requires Balanced(s)
    ensures WordLen(s) <= |s| && Balanced(s[WordLen(s)..])
    ensures WordLen(s) < |s| ==> Blank(s[WordLen(s)])
    ensures s != [] && !Blank(s[0]) ==> WordLen(s) > 0
    decreases |s|
  {
    hide Step, Balanced;
    if s != [] && !Blank(s[0]) {
      BalancedBehind(s);
      var k := Step(s);
      WordLenIs(s[k..]);
      SuffixOfSuffix(s, k, WordLen(s[k..]));
    }
  }

  lemma SuffixOfSuffix(s: string, k: nat, n: nat)
    requires k + n <= |s|
    ensures s[k..][n..] == s[k + n..] && (k + n < |s| ==> s[k..][n] == s[k + n])
  {
  }

  /** Words that are empty, and lone equals signs, are dropped. */
  function Keep(w: string): seq<string> {
    if w == [] || w == "=" then [] else [w]
  }

  function Tokens(s: string): seq<string>
    requires Balanced(s)
    decreases |s|
  {
    if s == [] then []
    else if Blank(s[0]) then Tokens(s[1..])
    else
      WordLenIs(s);
      Keep(Word(s[..WordLen(s)])) + Tokens(s[WordLen(s)..])
  }

  // ----- writing words so that they can be read back -----

  predicate Special(c: char) {
    Blank(c) || Quote(c) || c == '\\'
  }

  function Escape(w: string): string {
    if w == [] then [] else (if Special(w[0]) then ['\\', w[0]] else [w[0]]) + Escape(w[1..])
  }

  function Join(ws: seq<string>): string {
    if ws == [] then [] else Escape(ws[0]) + (if |ws| > 1 then " " + Join(ws[1..]) else [])
  }

  /** What a word comes back as: it loses control characters at its end, down to a first blank, which it loses too. */
  function ReadBack(w: string): (r: string)
    ensures r <= w
    decreases |w|
  {
    if w == [] then []
    else
      var n := |w| - 1;
      if Blank(w[n]) then w[..n] else if Trimmed(w[n]) then ReadBack(w[..n]) else w
  }

  function ReadBackAll(ws: seq<string>): (ts: seq<string>)
    ensures |ts| <= |ws|
  {
    if ws == [] then [] else Keep(ReadBack(ws[0])) + ReadBackAll(ws[1..])
  }

  predicate Survives(w: string) {
    w != [] && w != "=" && !Trimmed(w[|w| - 1])
  }

  lemma CleanPlain(c: char, e: string)
    requires !Special(c)
    ensures Clean([c] + e) == [c] + Clean(e)
  {
    assert ([c] + e)[1..] == e;
  }

  lemma CleanBackslash(c: char, e: string)
    ensures Clean(['\\', c] + e) == [c] + Clean(e)
  {
    var s := ['\\', c] + e;
    assert s[1..] == [c] + e && ([c] + e)[1..] == e;
  }

  lemma {:induction false} CleanEscaped(w: string)
    ensures Clean(Escape(w)) == w
    ensures Clean(Escape(w) + "\\") == w
  {
    hide Clean;
    if w == [] {
      CleanNothing();
    } else {
      var e := Escape(w[1..]);
      CleanEscaped(w[1..]);
      assert w == [w[0]] + w[1..];
      if Special(w[0]) {
        CleanBackslash(w[0], e);
        CleanBackslash(w[0], e + "\\");
        assert Escape(w) + "\\" == ['\\', w[0]] + (e + "\\");
      } else {
        CleanPlain(w[0], e);
        CleanPlain(w[0], e + "\\");
        assert Escape(w) + "\\" == [w[0]] + (e + "\\");
      }
    }
  }

  lemma CleanNothing()
    ensures Clean([]) == [] && Clean([] + "\\") == []
  {
    assert [] + "\\" == "\\" && "\\"[1..] == [];
  }

  lemma {:induction false} EscapeSnoc(w: string, c: char)
    ensures Escape(w + [c]) == Escape(w) + if Special(c) then ['\\', c] else [c]
  {
    if w == [] {
    } else {
      assert (w + [c])[1..] == w[1..] + [c];
      EscapeSnoc(w[1..], c);
    }
  }

  lemma {:induction false} WordOfEscaped(w: string)
    ensures Word(Escape(w)) == ReadBack(w)
    decreases |w|
  {
    if w != [] {
      var n := |w| - 1;
      var c, v := w[n], w[..n];
      assert w == v + [c];
      EscapeSnoc(v, c);
      if Blank(c) {
        var s := Escape(v) + "\\";
        assert Escape(w)[..|Escape(w)| - 1] == s;
        assert TrimRight(s) == s;
        FirstNotBlank(v, "\\");
        CleanEscaped(v);
      } else if Trimmed(c) {
        assert Escape(w)[..|Escape(w)| - 1] == Escape(v);
        WordOfEscaped(v);
      } else {
        FirstNotBlank(w, []);
        CleanEscaped(w);
        assert Escape(w) + [] == Escape(w);
      }
    }
  }

  lemma FirstNotBlank(w: string, t: string)
    requires t == [] || t == "\\"
    ensures TrimLeft(Escape(w) + t) == Escape(w) + t
  {
  }

  /** The scan takes an escaped word whole. */
  lemma {:induction false} ScanEscaped(w: string, t: string)
    requires Balanced(t) && (t == [] || Blank(t[0]))
    ensures Balanced(Escape(w) + t) && WordLen(Escape(w) + t) == |Escape(w)|
  {
    hide Balanced, WordLen;
    var s := Escape(w) + t;
    if w == [] {
      assert s == t;
      NoWord(t);
    } else {
      var head := if Special(w[0]) then ['\\', w[0]] else [w[0]];
      var rest := Escape(w[1..]) + t;
      assert s == head + rest;
      ScanEscaped(w[1..], t);
      ScanStep(head, rest);
    }
  }

  lemma NoWord(t: string)
    requires Balanced(t) && (t == [] || Blank(t[0]))
    ensures WordLen(t) == 0
  {
  }

  lemma ScanStep(head: string, rest: string)
    requires (|head| == 1 && !Special(head[0])) || (|head| == 2 && head[0] == '\\')
    requires Balanced(rest)
    ensures Balanced(head + rest) && WordLen(head + rest) == |head| + WordLen(rest)
  {
    hide IndexOf;
    var s := head + rest;
    assert s[0] == head[0] && s[|head|..] == rest;
  }

  /** Exactly what comes back, for all words. */
  lemma {:induction false} TokensOfJoin(ws: seq<string>)
    ensures Balanced(Join(ws)) && Tokens(Join(ws)) == ReadBackAll(ws)
  {
    if ws != [] {
      var w, rest := ws[0], ws[1..];
      var t := if |ws| > 1 then " " + Join(rest) else [];
      var s := Escape(w) + t;
      TokensOfJoin(rest);
      if |ws| > 1 {
        assert t[1..] == Join(rest);
      }
      ScanEscaped(w, t);
      WordOfEscaped(w);
      TokensHead(w, t);
    }
  }

  lemma TokensHead(w: string, t: string)
    requires Balanced(t) && (t == [] || Blank(t[0]))
    requires Balanced(Escape(w) + t) && WordLen(Escape(w) + t) == |Escape(w)|
    ensures Tokens(Escape(w) + t) == Keep(Word(Escape(w))) + Tokens(t)
  {
    var s := Escape(w) + t;
    assert s[..|Escape(w)|] == Escape(w) && s[|Escape(w)|..] == t;
    if w == [] {
      assert s == t && Word([]) == [];
    }
  }

  lemma SurvivesIff(w: string)
    ensures Survives(w) <==> Keep(ReadBack(w)) == [w]
  {
  }

  lemma {:induction false} AllSurviveIff(ws: seq<string>)
    ensures ReadBackAll(ws) == ws <==> forall w <- ws :: Survives(w)
  {
    if ws != [] {
      var k, r := Keep(ReadBack(ws[0])), ReadBackAll(ws[1..]);
      AllSurviveIff(ws[1..]);
      SurvivesIff(ws[0]);
      assert ws == [ws[0]] + ws[1..];
      if k + r == ws {
        assert |k| == 1;
        assert k == (k + r)[..1] && r == (k + r)[1..];
      }
    }
  }

  /** Words that were escaped and joined by spaces are read back exactly when all of them survive. */
  lemma TokensRoundTrip(ws: seq<string>)
    ensures Balanced(Join(ws)) && (Tokens(Join(ws)) == ws <==> forall w <- ws :: Survives(w))
  {
    TokensOfJoin(ws);
    AllSurviveIff(ws);
  }

  // ----- what is cut off, and what separates -----

  /** At the end of a word the characters 1 to 32 are cut off, and no others; at its start spaces and tabs. */
  lemma TrimsAre(s: string, c: char)
    ensures TrimRight(s + [c]) == if 1 <= c as int <= 32 then TrimRight(s) else s + [c]
    ensures TrimLeft([c] + s) == if c as int == 32 || c as int == 9 then TrimLeft(s) else [c] + s
  {
    assert (s + [c])[..|s|] == s && ([c] + s)[1..] == s;
  }

  /** Between words, spaces and tabs count for nothing. */
  lemma BlanksSeparate(c: char, t: string)
    requires (c as int == 32 || c as int == 9) && Balanced(t)
    ensures Balanced([c] + t) && Tokens([c] + t) == Tokens(t)
  {
    assert ([c] + t)[1..] == t;
  }

  // ----- quoted words -----

  lemma {:induction false} IndexBehind(t: string, c: char, rest: string)
    requires c !in t
    ensures IndexOf(t + [c] + rest, c) == |t|
  {
    var s := t + [c] + rest;
    if t == [] {
      assert s[0] == c;
    } else {
      assert s[1..] == t[1..] + [c] + rest;
      IndexBehind(t[1..], c, rest);
    }
  }

  /** What stands between two quotes of either kind is one word as it is, blanks, backslashes and the other quote included. */
  lemma QuotedIsWord(c: char, t: string)
    requires (c == '"' || c == '\'') && c !in t
    ensures Word([c] + t + [c]) == t
  {
    hide IndexOf, Unquote;
    var s := [c] + t + [c];
    assert s[|s| - 1] == c && s[0] == c;
    assert TrimRight(s) == s && TrimLeft(s) == s;
    assert s[1..] == t + [c];
    UnquoteThen(t, c, []);
    assert t + [c] + [] == t + [c] && TakeFirst([]) == [] && t + [] == t;
  }

  /** What follows a closing quote is taken as it is, whatever character it is; only then quotes and backslashes count again. */
  lemma BehindQuote(c: char, t: string, x: char, w: string)
    requires (c == '"' || c == '\'') && c !in t
    ensures Clean([c] + t + [c] + [x] + Escape(w)) == t + [x] + w
  {
    hide IndexOf, Unquote;
    var e := Escape(w);
    var s := [c] + t + [c] + [x] + e;
    assert s[0] == c && s[1..] == t + [c] + ([x] + e);
    IndexBehind(t, c, [x] + e);
    CleanEscaped(w);
    UnquoteThen(t, c, [x] + e);
    assert ([x] + e)[1..] == e;
  }

  lemma UnquoteThen(t: string, c: char, rest: string)
    requires c !in t
    ensures Unquote(t + [c] + rest, c) == t + TakeFirst(rest)
  {
    hide IndexOf;
    IndexBehind(t, c, rest);
    var u := t + [c] + rest;
    assert u[..|t|] == t && u[|t| + 1..] == rest;
  }

  lemma QuotedIsScanned(c: char, t: string, rest: string)
    requires (c == '"' || c == '\'') && c !in t
    requires Balanced(rest) && (rest == [] || rest[0] == ' ')
    ensures Balanced([c] + t + [c] + rest) && WordLen([c] + t + [c] + rest) == |t| + 2
  {
    hide Step, Balanced, WordLen;
    var s := [c] + t + [c] + rest;
    QuoteStep(c, t, rest);
    assert s[|t| + 2..] == rest;
    NoWord(rest);
    OneStep(s);
  }

  lemma QuoteStep(c: char, t: string, rest: string)
    requires (c == '"' || c == '\'') && c !in t
    ensures Step([c] + t + [c] + rest) == |t| + 2 && !Blank(c)
  {
    hide IndexOf;
    var s := [c] + t + [c] + rest;
    assert s[0] == c && s[1..] == t + [c] + rest;
    IndexBehind(t, c, rest);
  }

  lemma OneStep(s: string)
    requires s != [] && !Blank(s[0]) && Step(s) <= |s| && Balanced(s[Step(s)..])
    ensures Balanced(s) && WordLen(s) == Step(s) + WordLen(s[Step(s)..])
  {
    hide Step;
  }

  /** Words between quotes, each kind as cs says, with a space between any two. */
  function JoinQuoted(cs: string, ts: seq<string>): string
    requires |cs| == |ts|
  {
    if ts == [] then []
    else [cs[0]] + ts[0] + [cs[0]] + if |ts| > 1 then " " + JoinQuoted(cs[1..], ts[1..]) else []
  }

  function KeepAll(ts: seq<string>): seq<string> {
    if ts == [] then [] else (if ts[0] == [] || ts[0] == "=" then [] else [ts[0]]) + KeepAll(ts[1..])
  }

  /** A line of quoted words is cut into these words, less those that are empty or a lone equals sign. */
  lemma {:induction false} TokensOfQuoted(cs: string, ts: seq<string>)
    requires |cs| == |ts| && forall i :: 0 <= i < |ts| ==> (cs[i] == '"' || cs[i] == '\'') && cs[i] !in ts[i]
    ensures Balanced(JoinQuoted(cs, ts)) && Tokens(JoinQuoted(cs, ts)) == KeepAll(ts)
    decreases |ts|
  {
    hide Tokens, Balanced;
    if ts != [] {
      TokensOfQuoted(cs[1..], ts[1..]);
      var rest := if |ts| > 1 then " " + JoinQuoted(cs[1..], ts[1..]) else [];
      if |ts| > 1 {
        BlanksSeparate(' ', JoinQuoted(cs[1..], ts[1..]));
      }
      QuotedFirst(cs[0], ts[0], rest);
    } else {
      NoTokens();
    }
  }

  lemma NoTokens()
    ensures Balanced([]) && Tokens([]) == []
  {
  }

  lemma QuotedFirst(c: char, t: string, rest: string)
    requires (c == '"' || c == '\'') && c !in t
    requires Balanced(rest) && (rest == [] || rest[0] == ' ')
    ensures Balanced([c] + t + [c] + rest)
    ensures Tokens([c] + t + [c] + rest) == (if t == [] || t == "=" then [] else [t]) + Tokens(rest)
  {
    hide Word, WordLen, Balanced;
    QuotedIsScanned(c, t, rest);
    QuotedIsWord(c, t);
    var w := [c] + t + [c];
    var s := w + rest;
    assert s[..|w|] == w && s[|w|..] == rest && s[0] == c;
  }

  /** In particular a line of one quoted word. */
  lemma OneQuoted(c: char, t: string)
    requires (c == '"' || c == '\'') && c !in t && t != [] && t != "="
    ensures Balanced([c] + t + [c]) && Tokens([c] + t + [c]) == [t]
  {
    TokensOfQuoted([c], [t]);
    assert [c] + t + [c] + [] == [c] + t + [c];
    assert KeepAll([t]) == [t] + KeepAll([]);
  }
}
