/** clean_string and ParseCutString on the array that holds the line. */
module CutString {
  import opened Wrappers
  import opened CStrings
  import opened Tokenizer

  /** From lo there is text up to e, and nothing but NULs from there to max. */
  ghost predicate TextAt(s: seq<char>, lo: nat, e: nat, max: nat) {
    && lo <= e <= max < |s| && NUL !in s[lo..e]
    && forall k :: e <= k <= max ==> s[k] == NUL
  }

  /** Only the places from lo up to max differ. */
  twostate predicate Only(a: array<char>, lo: nat, max: nat)
    reads a
  {
    forall k :: 0 <= k < a.Length && !(lo <= k < max) ==> a[k] == old(a[k])
  }

  method TrimRightAt(a: array<char>, lo: nat, max: nat) returns (ghost e: nat)
    requires TextAt(a[..], lo, max, max)
    modifies a
    ensures lo <= e <= max && TextAt(a[..], lo, e, max) && a[lo..e] == TrimRight(old(a[lo..max]))
    ensures Only(a, lo, max)
  {
    hide TrimRight, TextAt;
    InBounds(a[..], lo, max, max);
    ghost var goal := TrimRight(a[lo..max]);
    e := max;
    var i := max;
    while i > lo
      invariant lo <= i == e <= max && TextAt(a[..], lo, i, max) && TrimRight(a[lo..i]) == goal && Only(a, lo, max)
    {
      TrimRightStep(a[lo..i]);
      if !(NUL < a[i - 1] <= ' ') {
        return;
      }
      CutLast(a[..], lo, i, max);
      ghost var was := a[..];
      i := i - 1;
      a[i] := NUL;
      e := i;
      assert a[..] == was[i := NUL];
      assert was[lo..i + 1][..i - lo] == a[lo..i];
    }
    TrimRightStep(a[lo..i]);
  }

  lemma TrimRightStep(s: string)
    ensures TrimRight(s) == if s != [] && Trimmed(s[|s| - 1]) then TrimRight(s[..|s| - 1]) else s
  {
  }

  lemma CutLast(s: seq<char>, lo: nat, e: nat, max: nat)
    requires TextAt(s, lo, e, max) && lo < e
    ensures TextAt(s[e - 1 := NUL], lo, e - 1, max)
  {
    assert s[lo..e - 1] == s[lo..e][..e - 1 - lo];
  }

  method TrimLeftAt(a: array<char>, lo: nat, ghost e: nat, ghost max: nat) returns (start: nat)
    requires TextAt(a[..], lo, e, max)
    ensures lo <= start <= e && TextAt(a[..], start, e, max) && a[start..e] == TrimLeft(a[lo..e])
  {
    hide TrimLeft, TextAt;
    start := lo;
    InBounds(a[..], lo, e, max);
    while a[start] == ' ' || a[start] == '\t'
      invariant lo <= start <= e < a.Length && a[e] == NUL && TrimLeft(a[start..e]) == TrimLeft(a[lo..e])
      decreases e - start
    {
      TrimLeftStep(a[start..e]);
      assert a[start..e][1..] == a[start + 1..e];
      start := start + 1;
    }
    TrimLeftStep(a[start..e]);
    TextFrom(a[..], lo, start, e, max);
  }

  lemma InBounds(s: seq<char>, lo: nat, e: nat, max: nat)
    requires TextAt(s, lo, e, max)
    ensures lo <= e <= max < |s| && s[e] == s[max] == NUL
  {
  }

  lemma TrimLeftStep(s: string)
    ensures TrimLeft(s) == if s != [] && Blank(s[0]) then TrimLeft(s[1..]) else s
  {
  }

  lemma TextFrom(s: seq<char>, lo: nat, i: nat, e: nat, max: nat)
    requires TextAt(s, lo, e, max) && lo <= i <= e
    ensures TextAt(s, i, e, max)
  {
    assert s[i..e] == s[lo..e][i - lo..];
  }

  /** MyStrCopy over the rest of the word: one character goes. */
  method DeleteAt(a: array<char>, lo: nat, i: nat, ghost e: nat, max: nat)
    requires TextAt(a[..], lo, e, max) && lo <= i < e
    modifies a
    ensures TextAt(a[..], lo, e - 1, max) && Only(a, lo, max)
    ensures a[lo..i] == old(a[lo..i]) && a[i..e - 1] == old(a[i + 1..e])
  {
    ghost var was := a[..];
    MyStrCopy(a, i, max - i);
    assert forall k :: i <= k < e - 1 ==> a[k] == was[lo..e][k + 1 - lo];
    assert forall k :: lo <= k < i ==> a[k] == was[lo..e][k - lo];
  }

  /** The loop of clean_string at place i: what is before is clean, what is after is still to be. */
  ghost predicate Cleaning(s: seq<char>, lo: nat, i: nat, e: nat, max: nat, goal: string) {
    && TextAt(s, lo, e, max) && lo <= i <= max + 1
    && goal == if i <= e then s[lo..i] + Clean(s[i..e]) else s[lo..e]
  }

  /** As Cleaning, but the character at i is to be taken as it is. */
  ghost predicate Taking(s: seq<char>, lo: nat, i: nat, e: nat, max: nat, goal: string) {
    && TextAt(s, lo, e, max) && lo <= i <= max
    && goal == if i <= e then s[lo..i] + TakeFirst(s[i..e]) else s[lo..e]
  }

  lemma Took(s: seq<char>, lo: nat, i: nat, e: nat, max: nat, goal: string)
    requires Taking(s, lo, i, e, max, goal) 
    ensures Cleaning(s, lo, i + 1, e, max, goal)
  {
    if i < e {
      assert s[i..e][1..] == s[i + 1..e];
      assert s[lo..i] + ([s[i]] + Clean(s[i + 1..e])) == s[lo..i + 1] + Clean(s[i + 1..e]);
    } else if i == e {
      assert s[lo..i] + [] == s[lo..e];
    }
  }

  /** Looks for c from i on; the place of the terminator if there is none. */
  method ScanTo(a: array<char>, c: char, lo: nat, i: nat, ghost e: nat, max: nat) returns (i': nat)
    requires TextAt(a[..], lo, e, max) && lo <= i <= e && c != NUL
    ensures i <= i' <= max
    ensures var k := IndexOf(a[i..e], c); if k < e - i then i' == i + k && a[i'] == c else i' == max && a[i'] == NUL
  {
    hide IndexOf;
    i' := i;
    while c != a[i'] && i' < max
      invariant i <= i' <= max
      invariant forall j :: i <= j < i' ==> a[j] != c
      decreases max - i'
    {
      i' := i' + 1;
    }
    ghost var t := a[i..e];
    IndexOfIsFirst(t, c);
    assert forall j :: i <= j < e ==> a[j] == t[j - i];
    if i' < e {
      assert t[i' - i] == c;
    }
  }

  /** As Cleaning, but the text from i on follows an opening quote c. */
  ghost predicate Quoted(s: seq<char>, lo: nat, i: nat, e: nat, max: nat, c: char, goal: string) {
    TextAt(s, lo, e, max) && lo <= i <= e && goal == s[lo..i] + Unquote(s[i..e], c)
  }

  method OpenQuote(a: array<char>, lo: nat, i: nat, ghost e: nat, max: nat, ghost goal: string)
    requires Cleaning(a[..], lo, i, e, max, goal) && i < e && Quote(a[i])
    modifies a
    ensures Quoted(a[..], lo, i, e - 1, max, old(a[i]), goal) && Only(a, lo, max)
  {
    hide Unquote, TextAt;
    InBounds(a[..], lo, e, max);
    assert a[i..e][1..] == a[i + 1..e];
    DeleteAt(a, lo, i, e, max);
  }

  method CloseQuote(a: array<char>, lo: nat, i: nat, i': nat, ghost e: nat, max: nat, ghost c: char, ghost goal: string)
    requires Quoted(a[..], lo, i, e, max, c, goal) && i <= i' < e && IndexOf(a[i..e], c) == i' - i
    modifies a
    ensures Taking(a[..], lo, i', e - 1, max, goal) && Only(a, lo, max)
  {
    hide TakeFirst, IndexOf, TextAt;
    InBounds(a[..], lo, e, max);
    ghost var head, t, k := a[lo..i], a[i..e], i' - i;
    assert a[lo..i'] == head + t[..k] && a[i' + 1..e] == t[k + 1..];
    assert head + (t[..k] + TakeFirst(t[k + 1..])) == head + t[..k] + TakeFirst(t[k + 1..]);
    DeleteAt(a, lo, i', e, max);
  }

  lemma NotClosed(s: seq<char>, lo: nat, i: nat, e: nat, max: nat, c: char, goal: string)
    requires Quoted(s, lo, i, e, max, c, goal) && IndexOf(s[i..e], c) == e - i && e < max
    ensures Taking(s, lo, max, e, max, goal)
  {
    hide TakeFirst, IndexOf;
    assert s[lo..e] == s[lo..i] + s[i..e];
  }

  /** The opening quote, the text up to the closing one, and that one are dealt with. */
  method QuoteAt(a: array<char>, lo: nat, i: nat, ghost e: nat, max: nat, ghost goal: string) returns (i': nat, ghost e': nat)
    requires Cleaning(a[..], lo, i, e, max, goal) && i < e && Quote(a[i])
    requires e <= max < a.Length
    modifies a
    ensures i <= i' && Taking(a[..], lo, i', e', max, goal) && Only(a, lo, max)
  {
    hide Cleaning, Taking, TextAt, IndexOf, Unquote;
    var c := a[i];
    OpenQuote(a, lo, i, e, max, goal);
    e' := e - 1;
    i' := ScanTo(a, c, lo, i, e', max);
    if c == a[i'] {
      CloseQuote(a, lo, i, i', e', max, c, goal);
      e' := e' - 1;
    } else {
      NotClosed(a[..], lo, i, e', max, c, goal);
    }
  }

  /** The body of the loop of clean_string. */
  method CleanStep(a: array<char>, lo: nat, i: nat, ghost e: nat, max: nat, ghost goal: string) returns (i': nat, ghost e': nat)
    requires Cleaning(a[..], lo, i, e, max, goal) && i < max
    modifies a
    ensures i < i' && Cleaning(a[..], lo, i', e', max, goal) && Only(a, lo, max)
  {
    hide Cleaning, Taking;
    InText(a[..], lo, i, e, max, goal);
    i', e' := i, e;
    if a[i] == '"' || a[i] == '\'' {
      i', e' := QuoteAt(a, lo, i, e, max, goal);
      Took(a[..], lo, i', e', max, goal);
    } else if a[i] == '\\' {
      BackslashAt(a, lo, i, e, max, goal);
      e' := e - 1;
      Took(a[..], lo, i', e', max, goal);
    } else {
      PlainAt(a[..], lo, i, e, max, goal);
    }
    i' := i' + 1;
  }

  lemma InText(s: seq<char>, lo: nat, i: nat, e: nat, max: nat, goal: string)
    requires Cleaning(s, lo, i, e, max, goal) && i < max
    ensures e <= max < |s| && (i < e <==> s[i] != NUL)
  {
    assert i < e ==> s[i] == s[lo..e][i - lo];
  }

  method BackslashAt(a: array<char>, lo: nat, i: nat, ghost e: nat, max: nat, ghost goal: string)
    requires Cleaning(a[..], lo, i, e, max, goal) && i < e && a[i] == '\\'
    modifies a
    ensures Taking(a[..], lo, i, e - 1, max, goal) && Only(a, lo, max)
  {
    assert a[i..e][1..] == a[i + 1..e];
    DeleteAt(a, lo, i, e, max);
  }

  lemma PlainAt(s: seq<char>, lo: nat, i: nat, e: nat, max: nat, goal: string)
    requires Cleaning(s, lo, i, e, max, goal) && i < max && !Quote(s[i]) && s[i] != '\\'
    ensures Cleaning(s, lo, i + 1, e, max, goal)
  {
    if i < e {
      assert s[i..e][1..] == s[i + 1..e];
      assert s[lo..i] + ([s[i]] + Clean(s[i + 1..e])) == s[lo..i + 1] + Clean(s[i + 1..e]);
    } else if i == e {
      assert s[lo..i] + [] == s[lo..e];
    }
  }

  /** The loop of clean_string on the text from lo to max. */
  method CleanLoop(a: array<char>, lo: nat, max: nat) returns (ghost e: nat)
    requires TextAt(a[..], lo, max, max)
    modifies a
    ensures TextAt(a[..], lo, e, max) && lo <= e <= max < a.Length && a[lo..e] == Clean(old(a[lo..max])) && Only(a, lo, max)
  {
    hide Cleaning, Clean, TextAt;
    InBounds(a[..], lo, max, max);
    ghost var goal := Clean(a[lo..max]);
    var i := lo;
    e := max;
    CleaningStarts(a[..], lo, e, max);
    while i < max
      invariant lo <= i && Cleaning(a[..], lo, i, e, max, goal) && Only(a, lo, max)
      decreases max - i
    {
      i, e := CleanStep(a, lo, i, e, max, goal);
    }
    CleaningEnds(a[..], lo, i, e, max, goal);
  }

  /** The trims of clean_string, and the length of what they leave. */
  method TrimAt(a: array<char>, lo: nat, max: nat) returns (start: nat, len: nat)
    requires TextAt(a[..], lo, max, max)
    modifies a
    ensures lo <= start && TextAt(a[..], start, start + len, max) && Only(a, lo, max)
    ensures start + len <= max < a.Length && a[start..start + len] == TrimLeft(TrimRight(old(a[lo..max])))
  {
    hide TrimLeft, TrimRight, TextAt, TextLen, Terminated;
    ghost var stop := TrimRightAt(a, lo, max);
    start := TrimLeftAt(a, lo, stop, max);
    InBounds(a[..], start, stop, max);
    TextLenAt(a[..], start, stop, max);
    assert a[start..] == a[..][start..];
    len := StrLen(a, start);
  }

  /** clean_string on the word from lo to max: where it now starts, and where it ends. */
  method CleanString(a: array<char>, lo: nat, max: nat) returns (start: nat, ghost end: nat)
    requires TextAt(a[..], lo, max, max)
    modifies a
    ensures lo <= start <= end <= max && TextAt(a[..], start, end, max)
    ensures a[start..end] == Word(old(a[lo..max])) && Only(a, lo, max)
  {
    hide TrimLeft, TrimRight, Clean, TextAt;
    var len;
    start, len := TrimAt(a, lo, max);
    TextUpTo(a[..], start, start + len, start + len, max);
    ghost var was := a[..];
    end := CleanLoop(a, start, start + len);
    TextBeyond(was, a[..], start, end, start + len, max);
  }

  lemma TextUpTo(s: seq<char>, lo: nat, e: nat, stop: nat, max: nat)
    requires TextAt(s, lo, e, max) && e <= stop <= max
    ensures TextAt(s, lo, e, stop)
  {
  }

  lemma TextBeyond(was: seq<char>, s: seq<char>, lo: nat, e: nat, stop: nat, max: nat)
    requires TextAt(was, lo, stop, max) && TextAt(s, lo, e, stop) && |s| == |was|
    requires forall k :: stop <= k < |s| ==> s[k] == was[k]
    ensures TextAt(s, lo, e, max)
  {
  }

  lemma TextLenAt(s: seq<char>, lo: nat, e: nat, max: nat)
    requires TextAt(s, lo, e, max)
    ensures Terminated(s[lo..]) && TextLen(s[lo..]) == e - lo
  {
    var t := s[lo..];
    assert forall k :: 0 <= k < e - lo ==> t[k] == s[lo..e][k];
    TextIs(t, e - lo);
  }

  lemma CleaningStarts(s: seq<char>, lo: nat, e: nat, max: nat)
    requires TextAt(s, lo, e, max)
    ensures Cleaning(s, lo, lo, e, max, Clean(s[lo..e]))
  {
    assert s[lo..lo] + Clean(s[lo..e]) == Clean(s[lo..e]);
  }

  lemma CleaningEnds(s: seq<char>, lo: nat, i: nat, e: nat, max: nat, goal: string)
    requires Cleaning(s, lo, i, e, max, goal) && i >= max
    ensures TextAt(s, lo, e, max) && s[lo..e] == goal
  {
    if i == e {
      assert s[lo..e] + [] == s[lo..e];
    }
  }

  // ----- the line -----

  predicate StringAt(s: seq<char>, i: nat, t: string) {
    i + |t| < |s| && s[i..i + |t|] == t && s[i + |t|] == NUL && NUL !in t
  }

  /** The places in tb are where these words lie, terminated, before b. */
  ghost predicate Stored(s: seq<char>, b: nat, tb: seq<nat>, words: seq<string>) {
    |tb| == |words| && b <= |s| && forall j :: 0 <= j < |tb| ==> StringAt(s[..b], tb[j], words[j])
  }

  lemma StoredOn(was: seq<char>, s: seq<char>, b: nat, b': nat, tb: seq<nat>, words: seq<string>)
    requires Stored(was, b, tb, words) && b <= b' <= |s| == |was| && forall k :: 0 <= k < b ==> s[k] == was[k]
    ensures Stored(s, b', tb, words)
  {
    forall j | 0 <= j < |tb| ensures StringAt(s[..b'], tb[j], words[j]) {
      var i, t := tb[j], words[j];
      assert StringAt(was[..b], i, t);
      assert was[..b][i..i + |t|] == was[i..i + |t|] == s[i..i + |t|] == s[..b'][i..i + |t|];
    }
  }

  lemma StoredMore(s: seq<char>, b: nat, tb: seq<nat>, words: seq<string>, i: nat, t: string)
    requires Stored(s, b, tb, words) && StringAt(s[..b], i, t)
    ensures Stored(s, b, tb + [i], words + [t])
  {
  }

  /** A word that ends at p is cleaned, and kept unless it is empty or an equals sign. */
  method EndWord(a: array<char>, w: nat, p: nat, tb: seq<nat>, ghost words: seq<string>) returns (tb': seq<nat>)
    requires TextAt(a[..], w, p, p) && Stored(a[..], w, tb, words)
    modifies a
    ensures p < a.Length && Stored(a[..], p + 1, tb', words + Keep(Word(old(a[w..p])))) && Only(a, w, p)
  {
    hide Stored, StringAt, Word, TextAt;
    InBounds(a[..], w, p, p);
    ghost var was := a[..];
    ghost var t := Word(a[w..p]);
    var start;
    ghost var end;
    start, end := CleanString(a, w, p);
    StoredOn(was, a[..], w, p + 1, tb, words);
    WordStored(a[..], start, end, p, t);
    if a[start] != NUL && !(a[start] == '=' && a[start + 1] == NUL) {
      tb' := tb + [start];
      StoredMore(a[..], p + 1, tb, words, start, t);
    } else {
      tb' := tb;
      assert words + [] == words;
    }
  }

  lemma WordStored(s: seq<char>, start: nat, end: nat, p: nat, t: string)
    requires TextAt(s, start, end, p) && s[start..end] == t
    ensures p < |s| && StringAt(s[..p + 1], start, t)
    ensures s[start] != NUL <==> t != []
    ensures t != [] ==> start + 1 < |s|
    ensures t != [] ==> (s[start] == '=' && s[start + 1] == NUL <==> t == "=")
  {
    assert s[..p + 1][start..end] == s[start..end];
    if t != [] {
      assert s[start] == t[0];
      if end > start + 1 {
        assert s[start + 1] == t[1];
      }
    }
  }

  /** The scan at p: what lies ahead is untouched, and what is stored and what lies ahead make the goal. */
  ghost predicate Scanning(s: seq<char>, line: string, p: nat, word: Option<nat>, tb: seq<nat>, words: seq<string>, goal: seq<string>) {
    && p <= |line| < |s| && s[p..|line| + 1] == line[p..] + [NUL] && NUL !in line && Balanced(line[p..])
    && if word.None? then Stored(s, p, tb, words) && goal == words + Tokens(line[p..])
       else InWord(s, line, p, word.value) && Stored(s, word.value, tb, words) && goal == words + Tokens(line[word.value..])
  }

  ghost predicate InWord(s: seq<char>, line: string, p: nat, w: nat) {
    && w < p <= |line| < |s| && s[w..p] == line[w..p] && Balanced(line[w..]) && Balanced(line[p..])
    && !Blank(line[w]) && WordLen(line[w..]) == p - w + WordLen(line[p..])
  }

  /** The word that began at w ends at p. */
  lemma WordEnds(s: seq<char>, line: string, p: nat, w: nat)
    requires InWord(s, line, p, w) && (p < |line| ==> Blank(line[p]))
    ensures Tokens(line[w..]) == Keep(Word(line[w..p])) + Tokens(line[p..])
  {
    hide Word, Keep, Step, IndexOf;
    assert WordLen(line[p..]) == 0;
    assert line[w..][..p - w] == line[w..p] && line[w..][p - w..] == line[p..];
  }

  lemma BlankSkipped(line: string, p: nat)
    requires p < |line| && Blank(line[p]) && Balanced(line[p..])
    ensures Balanced(line[p + 1..]) && Tokens(line[p..]) == Tokens(line[p + 1..])
  {
    assert line[p..][1..] == line[p + 1..];
  }

  /** One step further into a word. */
  lemma WordGoesOn(line: string, p: nat)
    requires p < |line| && !Blank(line[p]) && Balanced(line[p..])
    ensures var k := Step(line[p..]); p + k <= |line| && Balanced(line[p + k..]) && WordLen(line[p..]) == k + WordLen(line[p + k..])
  {
    var k := Step(line[p..]);
    assert line[p..][k..] == line[p + k..];
  }

  lemma Untouched(s: seq<char>, line: string, p: nat)
    requires p <= |line| < |s| && s[p..|line| + 1] == line[p..] + [NUL] && NUL !in line
    ensures s[|line|] == NUL && forall k :: p <= k < |line| ==> s[k] == line[k] != NUL
    ensures forall q :: p <= q <= |line| ==> s[q..|line| + 1] == line[q..] + [NUL] && s[p..q] == line[p..q]
  {
    var t := line[p..] + [NUL];
    assert s[|line|] == t[|line| - p];
    forall k | p <= k < |line| ensures s[k] == line[k] {
      assert s[k] == t[k - p];
    }
  }

  /** From behind an opening quote c to the closing one. */
  method SkipQuoted(a: array<char>, p: nat, c: char, ghost line: string) returns (p': nat)
    requires p <= |line| < a.Length && (forall k :: p <= k < |line| ==> a[k] == line[k] != NUL) && a[|line|] == NUL
    requires c != NUL
    ensures p' == p + IndexOf(line[p..], c)
  {
    hide IndexOf;
    p' := p;
    while c != a[p'] && a[p'] != NUL
      invariant p <= p' <= |line|
      invariant forall j :: p <= j < p' ==> a[j] != c
      decreases |line| - p'
    {
      p' := p' + 1;
    }
    ghost var t := line[p..];
    IndexOfIsFirst(t, c);
    assert forall j :: p <= j < |line| ==> t[j - p] == a[j];
    assert p' < |line| ==> t[p' - p] == c;
  }

  /** The rest of one step of the scan, at a character that is no blank. */
  method Skip(a: array<char>, p: nat, ghost line: string) returns (p': nat)
    requires p < |line| < a.Length && a[..][p..|line| + 1] == line[p..] + [NUL] && NUL !in line
    requires Balanced(line[p..]) && !Blank(line[p])
    ensures p' == p + Step(line[p..])
  {
    hide IndexOf, Balanced;
    Untouched(a[..], line, p);
    p' := p;
    if a[p] == '\'' || a[p] == '"' {
      var c := a[p];
      p' := SkipQuoted(a, p + 1, c, line);
      assert line[p..][1..] == line[p + 1..];
    } else if a[p] == '\\' {
      p' := p + 1;
    }
    p' := p' + 1;
  }

  /** A blank: it becomes a terminator, and ends a word that it stands behind. */
  method AtBlank(a: array<char>, p: nat, word: Option<nat>, tb: seq<nat>,
                 ghost line: string, ghost words: seq<string>, ghost goal: seq<string>)
    returns (tb': seq<nat>, ghost words': seq<string>)
    requires Scanning(a[..], line, p, word, tb, words, goal) && p < |line| && Blank(line[p])
    modifies a
    ensures Scanning(a[..], line, p + 1, None, tb', words', goal)
  {
    hide Stored, Tokens, Word, Keep, Balanced, WordLen;
    ghost var was := a[..];
    Untouched(was, line, p);
    BlankSkipped(line, p);
    a[p] := NUL;
    if word.Some? {
      var w := word.value;
      WordEnds(was, line, p, w);
      WordText(was, a[..], line, p, w);
      StoredOn(was, a[..], w, w, tb, words);
      tb' := EndWord(a, w, p, tb, words);
      words' := words + Keep(Word(line[w..p]));
      assert words + (Keep(Word(line[w..p])) + Tokens(line[p..])) == words' + Tokens(line[p..]);
    } else {
      StoredOn(was, a[..], p, p + 1, tb, words);
      tb', words' := tb, words;
    }
    SameTail(was, a[..], p + 1, |line| + 1);
  }

  lemma SameTail(was: seq<char>, s: seq<char>, lo: nat, hi: nat)
    requires lo <= hi <= |s| == |was| && forall k :: lo <= k < hi ==> s[k] == was[k]
    ensures s[lo..hi] == was[lo..hi]
  {
  }

  lemma WordText(was: seq<char>, s: seq<char>, line: string, p: nat, w: nat)
    requires w < p <= |line| < |s| == |was| && was[w..p] == line[w..p] && NUL !in line && s[p] == NUL
    requires forall k :: 0 <= k < p ==> s[k] == was[k]
    ensures TextAt(s, w, p, p) && s[w..p] == line[w..p]
  {
    assert s[w..p] == was[w..p];
  }

  /** Another character, or an escaped one, or a quotation: it belongs to a word. */
  method AtWord(a: array<char>, p: nat, word: Option<nat>, tb: seq<nat>,
                ghost line: string, ghost words: seq<string>, ghost goal: seq<string>)
    returns (p': nat, w: nat)
    requires Scanning(a[..], line, p, word, tb, words, goal) && p < |line| && !Blank(line[p])
    ensures p < p' && Scanning(a[..], line, p', Some(w), tb, words, goal)
  {
    hide Stored, Tokens, Balanced, WordLen, Step;
    Untouched(a[..], line, p);
    WordGoesOn(line, p);
    w := if word.None? then p else word.value;
    p' := Skip(a, p, line);
    ghost var s := a[..];
    assert s[w..p'] == s[w..p] + s[p..p'];
  }

  /** ParseCutString: the words of the line, each terminated where it lies. */
  method ParseCutString(a: array<char>) returns (tb: seq<nat>)
    requires Terminated(a[..]) && Balanced(Text(a[..]))
    modifies a
    ensures Stored(a[..], a.Length, tb, Tokens(old(Text(a[..]))))
  {
    hide Scanning, Tokens, Balanced, Stored;
    ghost var line := Text(a[..]);
    ghost var words, goal := [], Tokens(line);
    var p := 0;
    var word: Option<nat> := None;
    tb := [];
    ScanStarts(a[..], line);
    while a[p] != NUL
      invariant p <= |line| < a.Length && Scanning(a[..], line, p, word, tb, words, goal)
      invariant a[p] != NUL <==> p < |line|
      decreases |line| - p
    {
      Ahead(a[..], line, p, word, tb, words, goal);
      if a[p] == ' ' || a[p] == '\t' {
        tb, words := AtBlank(a, p, word, tb, line, words, goal);
        word, p := None, p + 1;
      } else {
        var w;
        p, w := AtWord(a, p, word, tb, line, words, goal);
        word := Some(w);
      }
      Ahead(a[..], line, p, word, tb, words, goal);
    }
    tb := AtEnd(a, p, word, tb, line, words, goal);
  }

  lemma ScanStarts(s: seq<char>, line: string)
    requires Terminated(s) && line == Text(s) && Balanced(line)
    ensures Scanning(s, line, 0, None, [], [], Tokens(line)) && (s[0] != NUL <==> 0 < |line|)
  {
    hide Tokens, Balanced;
    assert line[0..] == line;
    assert [] + Tokens(line) == Tokens(line);
  }

  lemma Ahead(s: seq<char>, line: string, p: nat, word: Option<nat>, tb: seq<nat>, words: seq<string>, goal: seq<string>)
    requires Scanning(s, line, p, word, tb, words, goal)
    ensures p <= |line| < |s| && (s[p] != NUL <==> p < |line|) && (p < |line| ==> s[p] == line[p])
  {
    hide Stored, Tokens, Balanced, WordLen;
    Untouched(s, line, p);
  }

  /** The last word ends with the line. */
  method AtEnd(a: array<char>, p: nat, word: Option<nat>, tb: seq<nat>,
               ghost line: string, ghost words: seq<string>, ghost goal: seq<string>)
    returns (tb': seq<nat>)
    requires Scanning(a[..], line, p, word, tb, words, goal) && p == |line|
    modifies a
    ensures Stored(a[..], a.Length, tb', goal)
  {
    hide Stored, Word, Keep, Balanced, WordLen;
    ghost var was := a[..];
    Untouched(was, line, p);
    tb' := tb;
    assert Tokens(line[p..]) == [];
    if word.Some? {
      var w := word.value;
      WordEnds(was, line, p, w);
      assert Keep(Word(line[w..p])) + [] == Keep(Word(line[w..p]));
      WordText(was, was, line, p, w);
      tb' := EndWord(a, w, p, tb, words);
      StoredOn(a[..], a[..], p + 1, a.Length, tb', words + Keep(Word(line[w..p])));
    } else {
      StoredOn(was, was, p, a.Length, tb, words);
      assert words + [] == words;
    }
  }
}
