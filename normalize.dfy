/** The whitespace normaliser shared by both parsers: the expression
    `s.replace(/\s+/g, " ").trim()`. `\s` and `trim` use the same ECMAScript
    character class, so one predicate `IsWs` serves both halves.

    `Normalize` models the expression as written (collapse, then trim). `Words`
    and `JoinSpace` give an independent reference reading of it: the
    whitespace-separated words of the input joined by single spaces. The
    lemmas connect the two and derive idempotence, the shape of the result and
    the preservation of every non-whitespace character in order. */
module TextNormalize {

  /** The class `\s` matches and `trim` removes: the ECMAScript WhiteSpace
      and LineTerminator code points. They are tab, line feed, vertical tab,
      form feed and carriage return (9 to 13), space, no-break space, U+1680,
      U+2000 to U+200A, the line and paragraph separators (U+2028, U+2029),
      U+202F, U+205F, U+3000 and the byte order mark U+FEFF. */
  predicate IsWs(c: char) {
    var n := c as int;
    || (9 <= n <= 13) || n == 0x20 || n == 0xA0 || n == 0x1680
    || (0x2000 <= n <= 0x200A) || n == 0x2028 || n == 0x2029
    || n == 0x202F || n == 0x205F || n == 0x3000 || n == 0xFEFF
  }

  /** Every character is whitespace (`s.trim() == ""`, see TrimEmptyIffBlank). */
  predicate IsBlank(s: string) {
    forall i :: 0 <= i < |s| ==> IsWs(s[i])
  }

  /** No character is whitespace. */
  predicate HasNoWs(s: string) {
    forall i :: 0 <= i < |s| ==> !IsWs(s[i])
  }

  /** A non-empty run of non-whitespace characters. */
  predicate IsWord(w: string) {
    w != [] && HasNoWs(w)
  }

  predicate AllWords(ws: seq<string>) {
    forall i :: 0 <= i < |ws| ==> IsWord(ws[i])
  }

  /** The shape every normalised string has: no whitespace at either end,
      every whitespace character a plain space, and no two adjacent ones. */
  ghost predicate IsNormalized(s: string) {
    && (s != [] ==> !IsWs(s[0]) && !IsWs(s[|s| - 1]))
    && (forall i :: 0 <= i < |s| && IsWs(s[i]) ==> s[i] == ' ')
    && (forall i, j :: 0 <= i < j < |s| && j == i + 1 ==> !IsWs(s[i]) || !IsWs(s[j]))
  }

  /** `trimStart`: drops leading whitespace; what is left does not start with
      whitespace (TrimStartDrops says it is a suffix after a blank prefix). */
  function TrimStart(s: string): (r: string)
    ensures |r| <= |s|
    ensures r == [] || !IsWs(r[0])
  {
    if s != [] && IsWs(s[0]) then TrimStart(s[1..]) else s
  }

  /** `trimEnd`: drops trailing whitespace; what is left does not end with
      whitespace (TrimEndDrops says it is a prefix before a blank suffix). */
  function TrimEnd(s: string): (r: string)
    ensures |r| <= |s|
    ensures r == [] || !IsWs(r[|r| - 1])
  {
    if s != [] && IsWs(s[|s| - 1]) then TrimEnd(s[..|s| - 1]) else s
  }

  /** `String.prototype.trim`. */
  function Trim(s: string): string {
    TrimEnd(TrimStart(s))
  }

  /** `s.replace(/\s+/g, " ")`: every maximal whitespace run becomes one space. */
  function CollapseWs(s: string): string
    decreases |s|
  {
    if s == [] then []
    else if IsWs(s[0]) then " " + CollapseWs(TrimStart(s))
    else [s[0]] + CollapseWs(s[1..])
  }

  /** `s.replace(/\s+/g, " ").trim()` */
  function Normalize(s: string): string {
    Trim(CollapseWs(s))
  }

  /** The longest whitespace-free prefix of `t`. */
  function Word(t: string): (w: string)
    ensures |w| <= |t| && w == t[..|w|]
    ensures HasNoWs(w)
    ensures |w| == |t| || IsWs(t[|w|])
  {
    if t == [] || IsWs(t[0]) then [] else [t[0]] + Word(t[1..])
  }

  /** The whitespace-separated words of `s`, in order. */
  function Words(s: string): seq<string>
    decreases |s|
  {
    var t := TrimStart(s);
    if t == [] then []
    else
      var w := Word(t);
      [w] + Words(t[|w|..])
  }

  /** The words joined with single spaces. */
  function JoinSpace(ws: seq<string>): string {
    if ws == [] then ""
    else if |ws| == 1 then ws[0]
    else ws[0] + " " + JoinSpace(ws[1..])
  }

  /** The non-whitespace characters of `s`, in order. */
  function NonWs(s: string): string {
    if s == [] then []
    else (if IsWs(s[0]) then [] else [s[0]]) + NonWs(s[1..])
  }

  function Flatten(ws: seq<string>): string {
    if ws == [] then [] else ws[0] + Flatten(ws[1..])
  }

  // ---------------------------------------------------------------------
  // Trimming

  /** TrimStart removes exactly a blank prefix. */
  lemma {:induction false} TrimStartDrops(s: string)
    ensures var r := TrimStart(s); r == s[|s| - |r|..] && IsBlank(s[..|s| - |r|])
    decreases |s|
  {
    if s != [] && IsWs(s[0]) {
      TrimStartDrops(s[1..]);
      var r := TrimStart(s);
      assert s[1..][|s| - 1 - |r|..] == s[|s| - |r|..];
      forall i | 0 <= i < |s| - |r|
        ensures IsWs(s[i])
      {
        if i > 0 { assert s[i] == s[1..][..|s| - 1 - |r|][i - 1]; }
      }
    } else {
      assert s[0..] == s;
    }
  }

  /** TrimEnd removes exactly a blank suffix. */
  lemma {:induction false} TrimEndDrops(s: string)
    ensures var r := TrimEnd(s); r == s[..|r|] && IsBlank(s[|r|..])
    decreases |s|
  {
    if s != [] && IsWs(s[|s| - 1]) {
      var p := s[..|s| - 1];
      TrimEndDrops(p);
      var r := TrimEnd(s);
      assert p[..|r|] == s[..|r|];
      forall i | |r| <= i < |s|
        ensures IsWs(s[i])
      {
        if i < |s| - 1 { assert s[i] == p[|r|..][i - |r|]; }
      }
    } else {
      assert s[..|s|] == s;
    }
  }

  lemma TrimStartEmptyIffBlank(s: string)
    ensures TrimStart(s) == [] <==> IsBlank(s)
  {
    var r := TrimStart(s);
    TrimStartDrops(s);
    if r == [] {
      assert s[..|s|] == s;
    } else {
      assert r[0] == s[|s| - |r|];
      assert !IsWs(s[|s| - |r|]);
    }
  }

  lemma TrimEndEmptyIffBlank(s: string)
    ensures TrimEnd(s) == [] <==> IsBlank(s)
  {
    var r := TrimEnd(s);
    TrimEndDrops(s);
    if r == [] {
      assert s[0..] == s;
    } else {
      assert r[|r| - 1] == s[|r| - 1];
      assert !IsWs(s[|r| - 1]);
    }
  }

  /** `s.trim() == ""` exactly when `s` is all whitespace. */
  lemma TrimEmptyIffBlank(s: string)
    ensures Trim(s) == "" <==> IsBlank(s)
  {
    var t := TrimStart(s);
    TrimStartEmptyIffBlank(s);
    TrimEndEmptyIffBlank(t);
    if t != [] {
      assert !IsBlank(t) by { assert !IsWs(t[0]); }
    }
  }

  lemma {:induction false} TrimStartBlankPrefix(a: string, x: string)
    requires IsBlank(a)
    requires x == [] || !IsWs(x[0])
    ensures TrimStart(a + x) == x
    decreases |a|
  {
    if a != [] {
      assert (a + x)[1..] == a[1..] + x;
      TrimStartBlankPrefix(a[1..], x);
    }
  }

  lemma {:induction false} TrimEndBlankSuffix(x: string, b: string)
    requires IsBlank(b)
    requires x == [] || !IsWs(x[|x| - 1])
    ensures TrimEnd(x + b) == x
    decreases |b|
  {
    if b != [] {
      assert (x + b)[..|x + b| - 1] == x + b[..|b| - 1];
      TrimEndBlankSuffix(x, b[..|b| - 1]);
    } else {
      assert x + b == x;
    }
  }

  /** Trimming removes blank padding on both sides of a string that has no
      whitespace at its ends. */
  lemma TrimAround(a: string, j: string, b: string)
    requires IsBlank(a) && IsBlank(b)
    requires j != [] ==> !IsWs(j[0]) && !IsWs(j[|j| - 1])
    ensures Trim(a + (j + b)) == j
  {
    if j != [] {
      TrimStartBlankPrefix(a, j + b);
      TrimEndBlankSuffix(j, b);
    } else {
      assert a + (j + b) == (a + b) + [];
      TrimStartBlankPrefix(a + b, []);
    }
  }

  /** The same with no padding in front. */
  lemma TrimPadded(j: string, b: string)
    requires IsBlank(b)
    requires j != [] ==> !IsWs(j[0]) && !IsWs(j[|j| - 1])
    ensures Trim(j + b) == j
  {
    TrimAround([], j, b);
    assert [] + (j + b) == j + b;
  }

  // ---------------------------------------------------------------------
  // The reference reading: words joined by single spaces

  lemma {:induction false} WordsAreWords(s: string)
    ensures AllWords(Words(s))
    decreases |s|
  {
    var t := TrimStart(s);
    if t != [] {
      var w := Word(t);
      WordsAreWords(t[|w|..]);
    }
  }

  /** Joining words gives a normalised string that starts with the first word. */
  lemma {:induction false} JoinNormalized(ws: seq<string>)
    requires AllWords(ws)
    ensures IsNormalized(JoinSpace(ws))
    ensures ws != [] ==> JoinSpace(ws) != [] && JoinSpace(ws)[0] == ws[0][0]
  {
    if |ws| >= 2 {
      var w, rest := ws[0], JoinSpace(ws[1..]);
      JoinNormalized(ws[1..]);
      var j := JoinSpace(ws);
      assert j == w + " " + rest;
      assert IsWord(w);
      forall i | 0 <= i < |j|
        ensures IsWs(j[i]) ==> j[i] == ' '
      {
        if i < |w| {
          assert j[i] == w[i];
        } else if i > |w| {
          assert j[i] == rest[i - |w| - 1];
        }
      }
      forall i, k | 0 <= i < k < |j| && k == i + 1
        ensures !IsWs(j[i]) || !IsWs(j[k])
      {
        if i < |w| {
          assert j[i] == w[i];
        } else if i == |w| {
          assert j[k] == rest[0];
        } else {
          assert j[i] == rest[i - |w| - 1] && j[k] == rest[k - |w| - 1];
        }
      }
      assert j[|j| - 1] == rest[|rest| - 1];
    }
  }

  lemma {:induction false} WordOfPrefix(w: string, y: string)
    requires HasNoWs(w)
    requires y == [] || IsWs(y[0])
    ensures Word(w + y) == w
    decreases |w|
  {
    if w == [] {
      assert w + y == y;
    } else {
      assert (w + y)[1..] == w[1..] + y;
      WordOfPrefix(w[1..], y);
    }
  }

  /** Splitting a string that starts with a word takes that word first. */
  lemma WordsStep(t: string)
    requires t != [] && !IsWs(t[0])
    ensures Words(t) == [Word(t)] + Words(t[|Word(t)|..])
  {
    assert TrimStart(t) == t;
  }

  /** Leading whitespace does not change the words. */
  lemma WordsSkipBlank(s: string)
    ensures Words(s) == Words(TrimStart(s))
  {
    var t := TrimStart(s);
    assert TrimStart(t) == t;
  }

  /** A word, a space and a string that starts with a word split into that
      word followed by the words of the rest. */
  lemma WordsOfSpaced(w: string, rest: string)
    requires IsWord(w)
    requires rest == [] || !IsWs(rest[0])
    ensures Words(w + (" " + rest)) == [w] + Words(rest)
  {
    var tail := " " + rest;
    var j := w + tail;
    WordOfPrefix(w, tail);
    WordsStep(j);
    assert j[|w|..] == tail;
    assert tail[1..] == rest;
    assert TrimStart(tail) == rest;
    WordsSkipBlank(tail);
  }

  /** Round trip: splitting the joined words gives the words back. */
  lemma {:induction false} WordsOfJoin(ws: seq<string>)
    requires AllWords(ws)
    ensures Words(JoinSpace(ws)) == ws
  {
    if |ws| == 1 {
      var w := ws[0];
      assert IsWord(w);
      WordsStep(w);
      WordOfPrefix(w, []);
      assert w + [] == w;
      assert w[|w|..] == [];
    } else if |ws| >= 2 {
      assert IsWord(ws[0]);
      JoinNormalized(ws[1..]);
      WordsOfJoin(ws[1..]);
      assert JoinSpace(ws) == ws[0] + (" " + JoinSpace(ws[1..]));
      WordsOfSpaced(ws[0], JoinSpace(ws[1..]));
    }
  }

  /** Collapsing a string splits off its leading word unchanged. */
  lemma {:induction false} CollapseWord(t: string)
    ensures CollapseWs(t) == Word(t) + CollapseWs(t[|Word(t)|..])
    decreases |t|
  {
    if t != [] && !IsWs(t[0]) {
      CollapseWord(t[1..]);
      var k := |Word(t[1..])|;
      assert t[1..][k..] == t[1 + k..];
    }
  }

  lemma ConcatAssoc(a: string, b: string, c: string, d: string)
    ensures a + (b + (c + d)) == (a + b + c) + d
  {
  }

  /** Joining one more word in front. */
  lemma JoinCons(w: string, ws: seq<string>)
    requires ws != []
    ensures JoinSpace([w] + ws) == w + " " + JoinSpace(ws)
  {
    assert ([w] + ws)[1..] == ws;
  }

  predicate EndsWithWs(t: string) {
    t != [] && IsWs(t[|t| - 1])
  }

  lemma EndsWithWsOfSuffix(t: string, k: nat)
    requires k < |t|
    ensures EndsWithWs(t[k..]) == EndsWithWs(t)
  {
    assert t[k..][|t| - k - 1] == t[|t| - 1];
  }

  /** The space a trailing whitespace run leaves after collapsing. */
  function TrailingSpace(t: string): string {
    if EndsWithWs(t) then " " else ""
  }

  /** The inductive step of CollapseFromWordStart: a word, a whitespace run,
      and a non-empty remainder `v` for which the claim already holds. */
  lemma CollapseJoinStep(t: string, w: string, u: string, v: string)
    requires t != [] && !IsWs(t[0])
    requires w == Word(t) && u == t[|w|..] && u != [] && v == TrimStart(u) && v != []
    requires CollapseWs(v) == JoinSpace(Words(v)) + TrailingSpace(v)
    ensures CollapseWs(t) == JoinSpace(Words(t)) + TrailingSpace(t)
  {
    CollapseWord(t);
    WordsStep(t);
    WordsSkipBlank(u);
    WordsStep(v);
    JoinCons(w, Words(v));
    EndsWithWsOfSuffix(t, |w|);
    TrimStartDrops(u);
    EndsWithWsOfSuffix(u, |u| - |v|);
    var jv, tr := JoinSpace(Words(v)), TrailingSpace(v);
    calc {
      CollapseWs(t);
      w + CollapseWs(u);
      w + (" " + (jv + tr));
      { ConcatAssoc(w, " ", jv, tr); }
      (w + " " + jv) + tr;
      JoinSpace([w] + Words(v)) + tr;
      JoinSpace(Words(t)) + TrailingSpace(t);
    }
  }

  /** The base cases of CollapseFromWordStart: a single word, possibly
      followed by whitespace only. */
  lemma CollapseLastWord(t: string)
    requires t != [] && !IsWs(t[0])
    requires TrimStart(t[|Word(t)|..]) == []
    ensures CollapseWs(t) == JoinSpace(Words(t)) + TrailingSpace(t)
  {
    var w := Word(t);
    var u := t[|w|..];
    CollapseWord(t);
    WordsStep(t);
    WordsSkipBlank(u);
    assert Words(u) == [];
    assert JoinSpace(Words(t)) == w by { assert Words(t) == [w]; }
    if u == [] {
      assert w == t;
      assert !EndsWithWs(t) by { assert t[|t| - 1] == w[|w| - 1]; }
      assert CollapseWs(t) == w + [];
      assert w + [] == w + "";
    } else {
      EndsWithWsOfSuffix(t, |w|);
      TrimStartEmptyIffBlank(u);
      assert EndsWithWs(u);
      assert CollapseWs(u) == " " + CollapseWs([]);
      assert CollapseWs(u) == " ";
    }
  }

  /** On a string that does not start with whitespace, collapsing yields the
      joined words plus one space if the string ends with whitespace. */
  lemma {:induction false} CollapseFromWordStart(t: string)
    requires t == [] || !IsWs(t[0])
    ensures CollapseWs(t) == JoinSpace(Words(t)) + TrailingSpace(t)
    decreases |t|
  {
    if t != [] {
      var w := Word(t);
      var u := t[|w|..];
      var v := TrimStart(u);
      if v == [] {
        CollapseLastWord(t);
      } else {
        CollapseFromWordStart(v);
        CollapseJoinStep(t, w, u, v);
      }
    }
  }

  /** Joined words carry no whitespace at either end. */
  lemma JoinedWordsEdges(s: string)
    ensures var j := JoinSpace(Words(s)); j != [] ==> !IsWs(j[0]) && !IsWs(j[|j| - 1])
  {
    WordsAreWords(s);
    JoinNormalized(Words(s));
  }

  lemma NormalizeFromWordStart(s: string)
    requires s == [] || !IsWs(s[0])
    ensures Normalize(s) == JoinSpace(Words(s))
  {
    JoinedWordsEdges(s);
    CollapseFromWordStart(s);
    TrimPadded(JoinSpace(Words(s)), TrailingSpace(s));
  }

  lemma NormalizeFromWsStart(s: string)
    requires s != [] && IsWs(s[0])
    ensures Normalize(s) == JoinSpace(Words(s))
  {
    var t := TrimStart(s);
    var j := JoinSpace(Words(s));
    JoinedWordsEdges(s);
    WordsSkipBlank(s);
    CollapseFromWordStart(t);
    assert CollapseWs(t) == j + TrailingSpace(t);
    assert CollapseWs(s) == " " + CollapseWs(t);
    assert IsBlank(" ");
    assert IsBlank(TrailingSpace(t));
    assert j != [] ==> !IsWs(j[0]) && !IsWs(j[|j| - 1]);
    TrimAround(" ", j, TrailingSpace(t));
  }

  /** The code's expression equals the reference reading. */
  lemma NormalizeIsJoinedWords(s: string)
    ensures Normalize(s) == JoinSpace(Words(s))
  {
    if s != [] && IsWs(s[0]) {
      NormalizeFromWsStart(s);
    } else {
      NormalizeFromWordStart(s);
    }
  }

  // ---------------------------------------------------------------------
  // Properties of Normalize

  /** No leading or trailing whitespace, no two adjacent whitespace
      characters, and the only whitespace left is the plain space. */
  lemma NormalizeIsNormalized(s: string)
    ensures IsNormalized(Normalize(s))
  {
    NormalizeIsJoinedWords(s);
    WordsAreWords(s);
    JoinNormalized(Words(s));
  }

  /** Normalising twice is normalising once. */
  lemma NormalizeIdempotent(s: string)
    ensures Normalize(Normalize(s)) == Normalize(s)
  {
    var ws := Words(s);
    NormalizeIsJoinedWords(s);
    NormalizeIsJoinedWords(JoinSpace(ws));
    WordsAreWords(s);
    WordsOfJoin(ws);
  }

  /** The result is empty exactly when the input is blank, i.e. exactly when
      `s.trim() == ""`. */
  lemma NormalizeEmptyIffBlank(s: string)
    ensures Normalize(s) == "" <==> IsBlank(s)
    ensures Normalize(s) == "" <==> Trim(s) == ""
  {
    NormalizeIsJoinedWords(s);
    WordsAreWords(s);
    JoinNormalized(Words(s));
    TrimStartEmptyIffBlank(s);
    TrimEmptyIffBlank(s);
  }

  lemma {:induction false} NonWsAppend(a: string, b: string)
    ensures NonWs(a + b) == NonWs(a) + NonWs(b)
    decreases |a|
  {
    if a != [] {
      assert (a + b)[1..] == a[1..] + b;
      NonWsAppend(a[1..], b);
    } else {
      assert a + b == b;
    }
  }

  lemma {:induction false} NonWsOfBlank(a: string)
    requires IsBlank(a)
    ensures NonWs(a) == []
    decreases |a|
  {
    if a != [] { NonWsOfBlank(a[1..]); }
  }

  lemma {:induction false} NonWsOfWord(w: string)
    requires HasNoWs(w)
    ensures NonWs(w) == w
    decreases |w|
  {
    if w != [] { NonWsOfWord(w[1..]); }
  }

  lemma {:induction false} NonWsOfJoin(ws: seq<string>)
    requires AllWords(ws)
    ensures NonWs(JoinSpace(ws)) == Flatten(ws)
  {
    if |ws| == 1 {
      NonWsOfWord(ws[0]);
      assert Flatten(ws) == ws[0] + Flatten([]);
    } else if |ws| >= 2 {
      var w, rest := ws[0], JoinSpace(ws[1..]);
      NonWsOfJoin(ws[1..]);
      NonWsOfWord(w);
      assert JoinSpace(ws) == w + (" " + rest);
      NonWsAppend(w, " " + rest);
      assert (" " + rest)[1..] == rest;
      assert NonWs(" " + rest) == NonWs(rest);
    }
  }

  lemma {:induction false} NonWsIsFlattenedWords(s: string)
    ensures NonWs(s) == Flatten(Words(s))
    decreases |s|
  {
    var t := TrimStart(s);
    var k := |s| - |t|;
    TrimStartDrops(s);
    assert s == s[..k] + t;
    NonWsAppend(s[..k], t);
    NonWsOfBlank(s[..k]);
    if t != [] {
      var w := Word(t);
      var u := t[|w|..];
      assert t == w + u;
      NonWsAppend(w, u);
      NonWsOfWord(w);
      NonWsIsFlattenedWords(u);
      assert ([w] + Words(u))[1..] == Words(u);
    }
  }

  /** Every non-whitespace character survives, in order, and nothing else
      but single spaces is added. */
  lemma NormalizeKeepsNonWs(s: string)
    ensures NonWs(Normalize(s)) == NonWs(s)
  {
    NormalizeIsJoinedWords(s);
    WordsAreWords(s);
    NonWsOfJoin(Words(s));
    NonWsIsFlattenedWords(s);
  }
}
