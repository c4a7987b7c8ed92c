/**
 * Text features of the CORD-19 metadata scripts: the whitespace word count
 * (`str.split()` followed by `len`) and the two title tokenizers, the
 * `re.findall(r"\b\w+\b", text.lower())` of analysis.py and the
 * `re.findall(r"\\b\\w+\\b", text.lower())` of app.py.
 *
 * Both `str.split()` and the word-boundary regular expression return the
 * maximal runs of one character class, in text order; `Runs` is that
 * concept, defined once and used by both.
 */
module Text {

  /** The characters Python's `str.isspace()` accepts; `str.split()` without
      arguments separates on runs of them. */
  predicate IsSpace(c: char) {
    || c == ' '
    || ('\t' <= c <= '\r')
    || ('\U{1C}' <= c <= '\U{1F}')
    || c == '\U{85}' || c == '\U{A0}' || c == '\U{1680}'
    || ('\U{2000}' <= c <= '\U{200A}')
    || c == '\U{2028}' || c == '\U{2029}' || c == '\U{202F}' || c == '\U{205F}'
    || c == '\U{3000}'
  }

  /** A character matched by the regular-expression class `\w`, restricted to ASCII. */
  predicate IsWordChar(c: char) {
    ('a' <= c <= 'z') || ('A' <= c <= 'Z') || ('0' <= c <= '9') || c == '_'
  }

  predicate IsUpper(c: char) {
    'A' <= c <= 'Z'
  }

  /** `str.lower()` on one character, restricted to ASCII. */
  function LowerChar(c: char): (d: char)
    ensures !IsUpper(d)
    ensures IsWordChar(d) == IsWordChar(c)
    ensures !IsUpper(c) ==> d == c
    ensures IsUpper(c) ==> d as int - c as int == 32
  {
    if IsUpper(c) then (c as int + 32) as char else c
  }

  /** `str.lower()`, restricted to ASCII. */
  function Lower(s: string): (r: string)
    ensures |r| == |s|
    ensures forall i :: 0 <= i < |s| ==> r[i] == LowerChar(s[i])
    ensures forall c :: c in r ==> !IsUpper(c)
  {
    seq(|s|, i requires 0 <= i < |s| => LowerChar(s[i]))
  }

  /** The two character classes whose maximal runs the scripts extract:
      non-whitespace for `str.split()`, word characters for `\b\w+\b`. */
  datatype CharClass = NonSpace | Word

  predicate InClass(cls: CharClass, c: char) {
    match cls
    case NonSpace => !IsSpace(c)
    case Word => IsWordChar(c)
  }

  /** The length of the longest prefix of `s` inside `cls`. */
  function RunLength(s: string, cls: CharClass): (n: nat)
    ensures n <= |s|
    ensures forall i :: 0 <= i < n ==> InClass(cls, s[i])
    ensures n < |s| ==> !InClass(cls, s[n])
  {
    if s == [] || !InClass(cls, s[0]) then 0 else 1 + RunLength(s[1..], cls)
  }

  /** The maximal runs of characters of `cls` in `s`, left to right. */
  function Runs(s: string, cls: CharClass): seq<string>
    decreases |s|
  {
    if s == [] then []
    else if !InClass(cls, s[0]) then Runs(s[1..], cls)
    else
      var n := RunLength(s, cls);
      [s[..n]] + Runs(s[n..], cls)
  }

  /** Every run is non-empty and made of class characters taken from the text. */
  lemma {:induction false} RunsInClass(s: string, cls: CharClass)
    ensures forall t :: t in Runs(s, cls) ==> t != [] && forall c :: c in t ==> InClass(cls, c) && c in s
    decreases |s|
  {
    if s != [] {
      if !InClass(cls, s[0]) {
        RunsInClass(s[1..], cls);
        assert forall c :: c in s[1..] ==> c in s;
      } else {
        var n := RunLength(s, cls);
        RunsInClass(s[n..], cls);
        assert forall c :: c in s[n..] ==> c in s;
        assert forall c :: c in s[..n] ==> c in s;
      }
    }
  }

  /** The characters of `s` that belong to `cls`, in order. */
  function Keep(s: string, cls: CharClass): string {
    if s == [] then []
    else (if InClass(cls, s[0]) then [s[0]] else []) + Keep(s[1..], cls)
  }

  function Flatten(ts: seq<string>): string {
    if ts == [] then [] else ts[0] + Flatten(ts[1..])
  }

  lemma {:induction false} RunLengthAppend(a: string, t: string, cls: CharClass)
    requires RunLength(a, cls) < |a| || (t != [] && !InClass(cls, t[0]))
    ensures RunLength(a + t, cls) == RunLength(a, cls)
    decreases |a|
  {
    if a == [] {
      assert a + t == t;
    } else if InClass(cls, a[0]) {
      assert (a + t)[1..] == a[1..] + t;
      RunLengthAppend(a[1..], t, cls);
    }
  }

  lemma SliceAppend(a: string, t: string, m: nat)
    requires m <= |a|
    ensures (a + t)[..m] == a[..m]
    ensures (a + t)[m..] == a[m..] + t
  {
  }

  lemma RunsSkip(s: string, cls: CharClass)
    requires s != [] && !InClass(cls, s[0])
    ensures Runs(s, cls) == Runs(s[1..], cls)
  {
  }

  lemma RunsTake(s: string, cls: CharClass)
    requires s != [] && InClass(cls, s[0])
    ensures 1 <= RunLength(s, cls)
    ensures Runs(s, cls) == [s[..RunLength(s, cls)]] + Runs(s[RunLength(s, cls)..], cls)
  {
  }

  /** Text that starts outside the class begins a fresh run: the runs of
      `a + t` are the runs of `a` followed by the runs of `t`. */
  lemma {:induction false} RunsAppend(a: string, t: string, cls: CharClass)
    requires t != [] && !InClass(cls, t[0])
    ensures Runs(a + t, cls) == Runs(a, cls) + Runs(t, cls)
    decreases |a|
  {
    if a == [] {
      assert a + t == t;
    } else if !InClass(cls, a[0]) {
      SkipAppend(a, t, cls);
    } else {
      TakeAppend(a, t, cls);
    }
  }

  lemma {:induction false} SkipAppend(a: string, t: string, cls: CharClass)
    requires t != [] && !InClass(cls, t[0])
    requires a != [] && !InClass(cls, a[0])
    ensures Runs(a + t, cls) == Runs(a, cls) + Runs(t, cls)
    decreases |a|, 0
  {
    var s := a + t;
    assert s[0] == a[0];
    RunsSkip(s, cls);
    RunsSkip(a, cls);
    SliceAppend(a, t, 1);
    RunsAppend(a[1..], t, cls);
  }

  /** The first run of `a + t` is the first run of `a` when `t` starts outside
      the class. */
  lemma TakeHead(a: string, t: string, cls: CharClass)
    requires t != [] && !InClass(cls, t[0])
    requires a != [] && InClass(cls, a[0])
    ensures var m := RunLength(a, cls);
      Runs(a + t, cls) == [a[..m]] + Runs(a[m..] + t, cls)
  {
    var s, m := a + t, RunLength(a, cls);
    assert s[0] == a[0];
    RunLengthAppend(a, t, cls);
    RunsTake(s, cls);
    SliceAppend(a, t, m);
  }

  lemma {:induction false} TakeAppend(a: string, t: string, cls: CharClass)
    requires t != [] && !InClass(cls, t[0])
    requires a != [] && InClass(cls, a[0])
    ensures Runs(a + t, cls) == Runs(a, cls) + Runs(t, cls)
    decreases |a|, 0
  {
    var m := RunLength(a, cls);
    var x, rest := a[..m], a[m..];
    RunsTake(a, cls);
    TakeHead(a, t, cls);
    RunsAppend(rest, t, cls);
    var r, rt := Runs(rest, cls), Runs(t, cls);
    assert [x] + (r + rt) == ([x] + r) + rt;
  }

  /** A character outside the class separates runs: the runs of `a + [c] + b`
      are the runs of `a` followed by the runs of `b`. */
  lemma RunsSplit(a: string, c: char, b: string, cls: CharClass)
    requires !InClass(cls, c)
    ensures Runs(a + [c] + b, cls) == Runs(a, cls) + Runs(b, cls)
  {
    var t := [c] + b;
    assert a + [c] + b == a + t;
    assert t[0] == c && t[1..] == b;
    RunsAppend(a, t, cls);
  }

  /** A non-empty text made only of class characters is a single run. */
  lemma RunsWhole(w: string, cls: CharClass)
    requires w != []
    requires forall c :: c in w ==> InClass(cls, c)
    ensures Runs(w, cls) == [w]
  {
    var n := RunLength(w, cls);
    assert n == |w|;
    assert w[..n] == w;
    assert w[n..] == [];
  }

  /** `s` has no run exactly when no character of `s` is in the class. */
  lemma {:induction false} RunsEmptyIff(s: string, cls: CharClass)
    ensures Runs(s, cls) == [] <==> forall c :: c in s ==> !InClass(cls, c)
    decreases |s|
  {
    if s != [] {
      if !InClass(cls, s[0]) {
        RunsEmptyIff(s[1..], cls);
        assert forall c :: c in s ==> c == s[0] || c in s[1..];
      }
    }
  }

  lemma {:induction false} KeepAppend(a: string, b: string, cls: CharClass)
    ensures Keep(a + b, cls) == Keep(a, cls) + Keep(b, cls)
    decreases |a|
  {
    if a == [] {
      assert a + b == b;
    } else {
      var head := if InClass(cls, a[0]) then [a[0]] else [];
      assert (a + b)[0] == a[0];
      assert (a + b)[1..] == a[1..] + b;
      KeepAppend(a[1..], b, cls);
      assert Keep(a + b, cls) == head + (Keep(a[1..], cls) + Keep(b, cls));
      assert Keep(a, cls) == head + Keep(a[1..], cls);
    }
  }

  lemma {:induction false} KeepAll(w: string, cls: CharClass)
    requires forall i :: 0 <= i < |w| ==> InClass(cls, w[i])
    ensures Keep(w, cls) == w
    decreases |w|
  {
    if w != [] {
      KeepAll(w[1..], cls);
    }
  }

  /** No class character is lost or invented: the runs, concatenated, are
      exactly the class characters of `s` in order. */
  lemma {:induction false} RunsFlatten(s: string, cls: CharClass)
    ensures Flatten(Runs(s, cls)) == Keep(s, cls)
    decreases |s|
  {
    if s != [] {
      if !InClass(cls, s[0]) {
        RunsFlatten(s[1..], cls);
      } else {
        var n := RunLength(s, cls);
        RunsFlatten(s[n..], cls);
        assert s == s[..n] + s[n..];
        KeepAppend(s[..n], s[n..], cls);
        KeepAll(s[..n], cls);
      }
    }
  }

  /** `len(text.split())`: the number of maximal non-whitespace runs. */
  function WordCount(text: string): (n: nat)
    ensures n == 0 <==> forall c :: c in text ==> IsSpace(c)
  {
    RunsEmptyIff(text, NonSpace);
    |Runs(text, NonSpace)|
  }

  /** Words, each followed by one separator character. */
  function Join(ws: seq<string>, seps: string): string
    requires |ws| == |seps|
  {
    if ws == [] then [] else ws[0] + [seps[0]] + Join(ws[1..], seps[1..])
  }

  /** Non-empty words of the class, each ended by a character outside it,
      are exactly the first runs. */
  lemma {:induction false} RunsOfJoin(ws: seq<string>, seps: string, tail: string, cls: CharClass)
    requires |ws| == |seps|
    requires forall i :: 0 <= i < |ws| ==> ws[i] != [] && !InClass(cls, seps[i])
    requires forall i, x :: 0 <= i < |ws| && x in ws[i] ==> InClass(cls, x)
    ensures Runs(Join(ws, seps) + tail, cls) == ws + Runs(tail, cls)
  {
    if ws != [] {
      var w, c, ws', seps' := ws[0], seps[0], ws[1..], seps[1..];
      var rest := Join(ws', seps') + tail;
      assert forall i :: 0 <= i < |ws'| ==> ws'[i] == ws[i + 1] && seps'[i] == seps[i + 1];
      calc {
        Runs(Join(ws, seps) + tail, cls);
        == { assert Join(ws, seps) + tail == w + [c] + rest; }
        Runs(w + [c] + rest, cls);
        == { RunsSplit(w, c, rest, cls); }
        Runs(w, cls) + Runs(rest, cls);
        == { RunsWhole(w, cls); RunsOfJoin(ws', seps', tail, cls); }
        [w] + (ws' + Runs(tail, cls));
        == { assert ws == [w] + ws'; }
        ws + Runs(tail, cls);
      }
    } else {
      assert Join(ws, seps) + tail == tail;
    }
  }

  /** Each non-empty word of non-whitespace characters followed by one
      whitespace character adds one to the word count of what follows. */
  lemma WordCountOfJoin(ws: seq<string>, seps: string, tail: string)
    requires |ws| == |seps|
    requires forall i :: 0 <= i < |ws| ==> ws[i] != [] && IsSpace(seps[i])
    requires forall i, x :: 0 <= i < |ws| && x in ws[i] ==> !IsSpace(x)
    ensures WordCount(Join(ws, seps) + tail) == |ws| + WordCount(tail)
  {
    RunsOfJoin(ws, seps, tail, NonSpace);
  }

  lemma WordCountExamples(s: string)
    requires s == "a b  c"
    ensures WordCount("") == 0
    ensures WordCount(s) == 3
  {
    assert s == Join(["a", "b"], "  ") + " c";
    WordCountOfJoin(["a", "b"], "  ", " c");
    assert WordCount(" c") == 1;
  }

  /** Three words separated by single spaces count as three. */
  lemma ThreeWords(a: string, b: string, c: string)
    requires a != [] && b != [] && c != []
    requires forall x :: x in a + b + c ==> !IsSpace(x)
    ensures WordCount(a + " " + b + " " + c) == 3
  {
    var ws := [a, b];
    assert forall x :: x in a ==> x in a + b + c;
    assert forall x :: x in b ==> x in a + b + c;
    assert forall x :: x in c ==> x in a + b + c;
    assert Join([b], " ") == b + " " + Join([], "");
    assert Join(ws, "  ") == a + " " + Join([b], " ");
    assert a + " " + b + " " + c == Join(ws, "  ") + c;
    WordCountOfJoin(ws, "  ", c);
    RunsWhole(c, NonSpace);
  }

  lemma WordCountTitleExample(s: string)
    requires s == "Virus Spread Study"
    ensures WordCount(s) == 3
  {
    assert s == "Virus" + " " + "Spread" + " " + "Study";
    ThreeWords("Virus", "Spread", "Study");
  }

  /** analysis.py `tokenize`: `re.findall(r"\b\w+\b", text.lower())`, the
      maximal runs of word characters of the lower-cased text. */
  function Tokenize(text: string): (tokens: seq<string>)
    ensures forall t :: t in tokens ==> t != [] && forall c :: c in t ==> IsWordChar(c) && !IsUpper(c)
  {
    RunsInClass(Lower(text), Word);
    Runs(Lower(text), Word)
  }

  lemma LowerExample(s: string)
    requires s == "COVID-19 is here!"
    ensures Lower(s) == "covid-19 is here!"
  {
    var l := "covid-19 is here!";
    forall i | 0 <= i < |s| ensures Lower(s)[i] == l[i] {
      if i < 5 { assert IsUpper(s[i]); } else { assert !IsUpper(s[i]); }
    }
  }

  lemma RunsExample(s: string)
    requires s == "covid-19 is here!"
    ensures Runs(s, Word) == ["covid", "19", "is", "here"]
  {
    var ws := ["covid", "19", "is", "here"];
    assert s == Join(ws, "-  !") + [];
    RunsOfJoin(ws, "-  !", [], Word);
  }

  lemma TokenizeExample(s: string)
    requires s == "COVID-19 is here!"
    ensures Tokenize(s) == ["covid", "19", "is", "here"]
  {
    LowerExample(s);
    RunsExample(Lower(s));
  }

  /** The length of the run of `w` characters that `s` starts with. */
  function LeadingWs(s: string): (n: nat)
    ensures n <= |s|
    ensures forall i :: 0 <= i < n ==> s[i] == 'w'
    ensures n < |s| ==> s[n] != 'w'
  {
    if s == [] || s[0] != 'w' then 0 else 1 + LeadingWs(s[1..])
  }

  /** What app.py's pattern `r"\\b\\w+\\b"` matches: a backslash, `b`, a
      backslash, one or more `w`, a backslash, `b` — all literal characters. */
  predicate IsLiteralMatch(t: string) {
    && 6 <= |t|
    && t[..3] == "\\b\\"
    && t[|t| - 2..] == "\\b"
    && forall i :: 3 <= i < |t| - 2 ==> t[i] == 'w'
  }

  /** A match at the start of `s` is determined by its `w` run: the run is
      exactly the leading `w`s after the opening backslash, `b`, backslash. */
  lemma MatchAtStart(s: string, m: nat)
    requires m <= |s| && IsLiteralMatch(s[..m])
    ensures s[..3] == "\\b\\" && s[m - 2..m] == "\\b"
    ensures LeadingWs(s[3..]) == m - 5
  {
    var t, k := s[3..], LeadingWs(s[3..]);
    assert s[..3] == s[..m][..3];
    assert s[m - 2..m] == s[..m][m - 2..];
    forall i | 0 <= i < m - 5 ensures t[i] == 'w' {
      assert t[i] == s[..m][3 + i];
    }
    assert t[m - 5] == s[m - 2] == '\\';
  }

  lemma MatchesAtStart(s: string)
    ensures forall m :: 0 < m <= |s| && IsLiteralMatch(s[..m]) ==>
      s[..3] == "\\b\\" && s[m - 2..m] == "\\b" && LeadingWs(s[3..]) == m - 5
  {
    forall m | 0 < m <= |s| && IsLiteralMatch(s[..m])
      ensures s[..3] == "\\b\\" && s[m - 2..m] == "\\b" && LeadingWs(s[3..]) == m - 5
    {
      MatchAtStart(s, m);
    }
  }

  /** The length of the match of app.py's pattern at the start of `s`, or 0
      when no prefix of `s` matches. `w+` is greedy; giving back a `w` never
      helps, since a backslash must follow the run. */
  function LiteralMatchLength(s: string): (n: nat)
    ensures n == 0 || (n <= |s| && IsLiteralMatch(s[..n]))
    ensures forall m :: 0 < m <= |s| && IsLiteralMatch(s[..m]) ==> n == m
  {
    MatchesAtStart(s);
    if |s| >= 3 && s[..3] == "\\b\\" then
      var k := LeadingWs(s[3..]);
      if 1 <= k && 5 + k <= |s| && s[3 + k..5 + k] == "\\b" then
        assert s[..5 + k][..3] == s[..3];
        assert s[..5 + k][3 + k..] == s[3 + k..5 + k];
        5 + k
      else 0
    else 0
  }

  /** `re.findall` with app.py's pattern: scan left to right, take each match
      and resume after it. */
  function LiteralMatches(s: string): (r: seq<string>)
    ensures forall t :: t in r ==> IsLiteralMatch(t) && forall c :: c in t ==> c in s
    decreases |s|
  {
    if s == [] then []
    else
      var n := LiteralMatchLength(s);
      if n > 0 then
        var rest := LiteralMatches(s[n..]);
        assert forall c :: c in s[n..] ==> c in s;
        assert forall c :: c in s[..n] ==> c in s;
        [s[..n]] + rest
      else
        var rest := LiteralMatches(s[1..]);
        assert forall c :: c in s[1..] ==> c in s;
        rest
  }

  /** A match at the start is found first, and the scan resumes after it. */
  lemma LiteralMatchesFindsFirst(s: string, m: nat)
    requires 0 < m <= |s| && IsLiteralMatch(s[..m])
    ensures LiteralMatches(s) == [s[..m]] + LiteralMatches(s[m..])
  {
    assert LiteralMatchLength(s) == m;
  }

  /** When no prefix of `s` matches, the scan moves on by one character and
      finds exactly what it finds in the tail. With `LiteralMatchesFindsFirst`
      and the empty text, this fixes every match, once each and in order. */
  lemma LiteralMatchesSkip(s: string)
    requires s != [] && forall m :: 0 < m <= |s| ==> !IsLiteralMatch(s[..m])
    ensures LiteralMatches(s) == LiteralMatches(s[1..])
  {
    assert LiteralMatchLength(s) == 0;
  }

  /** No substring of `s` matches app.py's pattern. */
  predicate NoLiteralMatch(s: string) {
    forall i, m :: 0 <= i < m <= |s| ==> !IsLiteralMatch(s[i..m])
  }

  /** When no prefix matches, `s` has a match exactly when its tail has one. */
  lemma NoLiteralMatchTail(s: string)
    requires s != []
    requires forall m :: 0 < m <= |s| ==> !IsLiteralMatch(s[..m])
    ensures NoLiteralMatch(s) <==> NoLiteralMatch(s[1..])
  {
    var t := s[1..];
    if NoLiteralMatch(s) {
      forall i, m | 0 <= i < m <= |t| ensures !IsLiteralMatch(t[i..m]) {
        SliceOfTail(s, i + 1, m + 1);
      }
    }
    if NoLiteralMatch(t) {
      forall i, m | 0 <= i < m <= |s| ensures !IsLiteralMatch(s[i..m]) {
        if i == 0 {
          assert s[i..m] == s[..m];
        } else {
          SliceOfTail(s, i, m);
        }
      }
    }
  }

  lemma SliceOfTail(s: string, i: nat, m: nat)
    requires 0 < i <= m <= |s|
    ensures s[i..m] == s[1..][i - 1..m - 1]
  {
    var t := s[1..];
    assert forall k :: 0 <= k < m - i ==> s[i..m][k] == s[i + k] == t[i - 1 + k];
  }

  /** `re.findall` with app.py's pattern finds nothing exactly when no
      substring of `s` matches. */
  lemma {:induction false} LiteralMatchesEmptyIff(s: string)
    ensures LiteralMatches(s) == [] <==> NoLiteralMatch(s)
    decreases |s|
  {
    if s != [] {
      var n := LiteralMatchLength(s);
      if n > 0 {
        assert s[0..n] == s[..n];
      } else {
        LiteralMatchesEmptyIff(s[1..]);
        NoLiteralMatchTail(s);
      }
    }
  }

  /** app.py `tokenize`: `re.findall(r"\\b\\w+\\b", text.lower())`. Every
      token is a match taken from the lowered text, and there is none
      exactly when the lowered text contains no match. */
  function AppTokenize(text: string): (tokens: seq<string>)
    ensures forall t :: t in tokens ==> IsLiteralMatch(t) && forall c :: c in t ==> c in Lower(text)
    ensures tokens == [] <==> NoLiteralMatch(Lower(text))
  {
    LiteralMatchesEmptyIff(Lower(text));
    LiteralMatches(Lower(text))
  }

  lemma {:induction false} LiteralMatchesNeedBackslash(s: string)
    requires '\\' !in s
    ensures LiteralMatches(s) == []
    decreases |s|
  {
    if s != [] {
      assert s[0] in s;
      assert LiteralMatchLength(s) == 0;
      assert forall c :: c in s[1..] ==> c in s;
      LiteralMatchesNeedBackslash(s[1..]);
    }
  }

  /** app.py's tokenizer finds nothing in a text without a backslash. */
  lemma AppTokenizeNeedsBackslash(text: string)
    requires '\\' !in text
    ensures AppTokenize(text) == []
  {
    var lowered := Lower(text);
    forall i | 0 <= i < |lowered| ensures lowered[i] != '\\' {
      assert text[i] in text;
    }
    LiteralMatchesNeedBackslash(lowered);
  }

  /** A lower-case text that starts with a match and has no other backslash
      gives that match as its only app.py token. */
  lemma AppTokenizeOne(t: string, rest: string)
    requires IsLiteralMatch(t) && '\\' !in rest
    requires forall c :: c in t + rest ==> !IsUpper(c)
    ensures AppTokenize(t + rest) == [t]
  {
    var s := t + rest;
    assert forall i :: 0 <= i < |s| ==> s[i] in s;
    assert Lower(s) == s;
    assert s[..|t|] == t && s[|t|..] == rest;
    LiteralMatchesFindsFirst(s, |t|);
    LiteralMatchesNeedBackslash(rest);
  }

  /** A title that does contain the literal sequence gives it as its token. */
  lemma AppTokenizeFindsLiteral(s: string)
    requires s == "\\b\\ww\\b end"
    ensures AppTokenize(s) == ["\\b\\ww\\b"]
  {
    var t := "\\b\\ww\\b";
    assert s == t + " end";
    assert IsLiteralMatch(t) by {
      assert t[..3] == "\\b\\" && t[|t| - 2..] == "\\b";
    }
    AppTokenizeOne(t, " end");
  }

  /** On an ordinary title the two tokenizers disagree: analysis.py finds the
      words, app.py finds nothing. */
  lemma TokenizersDisagree(s: string)
    requires s == "COVID-19 is here!"
    ensures Tokenize(s) == ["covid", "19", "is", "here"]
    ensures AppTokenize(s) == []
  {
    TokenizeExample(s);
    assert forall i :: 0 <= i < |s| ==> s[i] != '\\';
    AppTokenizeNeedsBackslash(s);
  }

  /** The two regular expressions the scripts pass to `re.findall`. */
  datatype Pattern =
    | WordBoundary          // r"\b\w+\b"   (analysis.py)
    | LiteralBackslashWord  // r"\\b\\w+\\b" (app.py)

  function FindAll(p: Pattern, text: string): seq<string> {
    match p
    case WordBoundary => Tokenize(text)
    case LiteralBackslashWord => AppTokenize(text)
  }
}
