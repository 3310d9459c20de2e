/**
 Text preprocessing applied to resumes and job descriptions before they are
 embedded: lower-casing, replacing everything but letters and whitespace,
 collapsing whitespace, stripping, and capping the number of words.

 Characters are modelled as Dafny `char`s; case mapping is the ASCII one and
 "whitespace" is the set of ASCII characters Python's `str.isspace` accepts
 (the same set `re`'s `\s`, `str.split()` and `str.strip()` use).
 */
module Text {

  /* ---------------------------------------------------------------------- */
  /* Characters                                                             */
  /* ---------------------------------------------------------------------- */

  /** Python whitespace restricted to ASCII: tab, line feed, vertical tab,
      form feed, carriage return, the four information separators 0x1C-0x1F
      and the space itself. */
  predicate IsSpace(c: char) {
    var n := c as int;
    n == 32 || 9 <= n <= 13 || 28 <= n <= 31
  }

  predicate IsLower(c: char) {
    'a' <= c <= 'z'
  }

  predicate IsUpper(c: char) {
    'A' <= c <= 'Z'
  }

  predicate IsLetter(c: char) {
    IsLower(c) || IsUpper(c)
  }

  /** ASCII `str.lower` of one character. */
  function ToLower(c: char): (r: char)
    ensures IsLetter(c) ==> IsLower(r)
    ensures IsUpper(c) ==> r as int - 'a' as int == c as int - 'A' as int
    ensures !IsLetter(c) ==> r == c
    ensures IsLower(c) ==> r == c
  {
    if IsUpper(c) then (c as int + 32) as char else c
  }

  /* ---------------------------------------------------------------------- */
  /* Shapes of strings                                                      */
  /* ---------------------------------------------------------------------- */

  /** Every character is a lower-case letter or whitespace. */
  predicate LowerOrSpace(s: seq<char>) {
    forall i :: 0 <= i < |s| ==> IsLower(s[i]) || IsSpace(s[i])
  }

  /** Every character is a lower-case letter or the plain space. */
  predicate OverAlphabet(s: seq<char>) {
    forall i :: 0 <= i < |s| ==> IsLower(s[i]) || s[i] == ' '
  }

  /** No two adjacent characters are both spaces. */
  predicate NoDoubleSpace(s: seq<char>) {
    forall i :: 0 <= i < |s| - 1 ==> !(s[i] == ' ' && s[i + 1] == ' ')
  }

  /** The shape `clean_text` produces: lower-case words separated by exactly
      one space, nothing at either end. */
  predicate Canonical(s: seq<char>) {
    && OverAlphabet(s)
    && NoDoubleSpace(s)
    && (|s| > 0 ==> s[0] != ' ' && s[|s| - 1] != ' ')
  }

  /** A word as `str.split()` yields it: non-empty, no whitespace in it. */
  predicate IsWord(w: seq<char>) {
    |w| > 0 && forall j :: 0 <= j < |w| ==> !IsSpace(w[j])
  }

  predicate AllWords(ws: seq<seq<char>>) {
    forall i :: 0 <= i < |ws| ==> IsWord(ws[i])
  }

  /** Every character of every word is a lower-case letter. */
  predicate AllLowerWords(ws: seq<seq<char>>) {
    forall i :: 0 <= i < |ws| ==> |ws[i]| > 0 && forall j :: 0 <= j < |ws[i]| ==> IsLower(ws[i][j])
  }

  /** The non-whitespace characters of `s`, in order. */
  function NonSpace(s: seq<char>): seq<char> {
    if |s| == 0 then []
    else (if IsSpace(s[0]) then [] else [s[0]]) + NonSpace(s[1..])
  }

  /** The ASCII letters of `s`, lower-cased, in order. */
  function LettersOf(s: seq<char>): seq<char> {
    if |s| == 0 then []
    else (if IsLetter(s[0]) then [ToLower(s[0])] else []) + LettersOf(s[1..])
  }

  lemma {:induction false} NonSpaceAppend(a: seq<char>, b: seq<char>)
    ensures NonSpace(a + b) == NonSpace(a) + NonSpace(b)
    decreases |a|
  {
    if |a| == 0 {
      assert a + b == b;
    } else {
      assert (a + b)[1..] == a[1..] + b;
      NonSpaceAppend(a[1..], b);
    }
  }

  /* ---------------------------------------------------------------------- */
  /* clean_text, step by step                                               */
  /* ---------------------------------------------------------------------- */

  /** `text.lower()` */
  function LowerAll(s: seq<char>): (r: seq<char>)
    ensures |r| == |s|
    ensures forall i :: 0 <= i < |s| ==> r[i] == ToLower(s[i])
  {
    seq(|s|, i requires 0 <= i < |s| => ToLower(s[i]))
  }

  /** `re.sub(r"[^a-z\s]", " ", text)` */
  function BlankNonLetters(s: seq<char>): (r: seq<char>)
    ensures |r| == |s|
    ensures LowerOrSpace(r)
    ensures forall i :: 0 <= i < |s| ==> (IsLower(s[i]) || IsSpace(s[i]) <==> r[i] == s[i])
    ensures forall i :: 0 <= i < |s| && !(IsLower(s[i]) || IsSpace(s[i])) ==> r[i] == ' '
  {
    seq(|s|, i requires 0 <= i < |s| => if IsLower(s[i]) || IsSpace(s[i]) then s[i] else ' ')
  }

  /** Drops the leading whitespace (`str.lstrip()`). */
  function TrimStart(s: seq<char>): (r: seq<char>)
    ensures |r| <= |s| && r == s[|s| - |r|..]
    ensures forall i :: 0 <= i < |s| - |r| ==> IsSpace(s[i])
    ensures |r| > 0 ==> !IsSpace(r[0])
    decreases |s|
  {
    if |s| > 0 && IsSpace(s[0]) then TrimStart(s[1..]) else s
  }

  /** Drops the trailing whitespace (`str.rstrip()`). */
  function TrimEnd(s: seq<char>): (r: seq<char>)
    ensures |r| <= |s| && r == s[..|r|]
    ensures forall i :: |r| <= i < |s| ==> IsSpace(s[i])
    ensures |r| > 0 ==> !IsSpace(r[|r| - 1])
    decreases |s|
  {
    if |s| > 0 && IsSpace(s[|s| - 1]) then TrimEnd(s[..|s| - 1]) else s
  }

  /** `str.strip()`: nothing is left of an all-whitespace string; otherwise
      the result starts and ends with non-whitespace (`StripIsSlice` says it
      is the middle of `s`). */
  function Strip(s: seq<char>): (r: seq<char>)
    ensures |r| <= |s|
    ensures |r| > 0 ==> !IsSpace(r[0]) && !IsSpace(r[|r| - 1])
    ensures r == [] <==> forall i :: 0 <= i < |s| ==> IsSpace(s[i])
  {
    StripOfBlank(s);
    TrimEnd(TrimStart(s))
  }

  /** Both trims together cut whitespace off each end and nothing else. */
  lemma TrimsAreSlice(s: seq<char>)
    ensures var t := TrimStart(s);
            var r := TrimEnd(t);
            var a := |s| - |t|;
            && a + |r| <= |s|
            && (forall k :: 0 <= k < |r| ==> r[k] == s[a + k])
            && (forall i :: 0 <= i < a ==> IsSpace(s[i]))
            && (forall i :: a + |r| <= i < |s| ==> IsSpace(s[i]))
  {
    var t := TrimStart(s);
    var r := TrimEnd(t);
    var a := |s| - |t|;
    SliceOfSlice(s, t, r, a);
  }

  /** `r` is a prefix of the suffix `t` of `s`, and `t` has only whitespace
      after `r`. */
  lemma SliceOfSlice(s: seq<char>, t: seq<char>, r: seq<char>, a: nat)
    requires a <= |s| && t == s[a..] && |r| <= |t| && r == t[..|r|]
    requires forall i :: |r| <= i < |t| ==> IsSpace(t[i])
    ensures forall k :: 0 <= k < |r| ==> r[k] == s[a + k]
    ensures forall i :: a + |r| <= i < |s| ==> IsSpace(s[i])
  {
    forall i | a + |r| <= i < |s| ensures IsSpace(s[i]) {
      assert s[i] == t[i - a];
    }
  }

  lemma StripOfBlank(s: seq<char>)
    ensures TrimEnd(TrimStart(s)) == [] <==> forall i :: 0 <= i < |s| ==> IsSpace(s[i])
  {
    TrimsAreSlice(s);
  }

  /** `str.strip()` removes whitespace from both ends and nothing else: the
      result is `s[a..a + |r|]` where `a` is the position of the first
      non-whitespace character, with only whitespace before and after it. */
  lemma StripIsSlice(s: seq<char>)
    ensures var a := |s| - |TrimStart(s)|;
            var r := Strip(s);
            && a + |r| <= |s|
            && (forall k :: 0 <= k < |r| ==> r[k] == s[a + k])
            && (forall i :: 0 <= i < a ==> IsSpace(s[i]))
            && (forall i :: a + |r| <= i < |s| ==> IsSpace(s[i]))
  {
    TrimsAreSlice(s);
  }

  /** `re.sub(r"\s+", " ", text)`: every maximal run of whitespace becomes a
      single space. */
  function Collapse(s: seq<char>): (r: seq<char>)
    ensures CollapseShape(s, r)
    ensures Words(r) == Words(s)
    decreases |s|
  {
    if |s| == 0 then []
    else if IsSpace(s[0]) then
      var t := TrimStart(s);
      var x := Collapse(t);
      CollapseSpaceShape(s, |s| - |t|, t, x);
      CollapseSpaceWords(s, x);
      [' '] + x
    else
      var x := Collapse(s[1..]);
      CollapseLetterShape(s, x);
      CollapseLetterWords(s, x);
      [s[0]] + x
  }

  /** The shape of `r` as the collapsed form of `s`: empty only when `s` is,
      starting and ending with a space exactly when `s` starts and ends with
      whitespace, with no whitespace but single plain spaces, and over the
      clean alphabet when `s` holds only lower-case letters and whitespace. */
  predicate CollapseShape(s: seq<char>, r: seq<char>) {
    && (|r| > 0 <==> |s| > 0)
    && (|r| > 0 ==> (r[0] == ' ' <==> IsSpace(s[0])))
    && (|r| > 0 ==> (r[|r| - 1] == ' ' <==> IsSpace(s[|s| - 1])))
    && (forall i :: 0 <= i < |r| ==> r[i] == ' ' || !IsSpace(r[i]))
    && NoDoubleSpace(r)
    && (LowerOrSpace(s) ==> OverAlphabet(r))
  }

  /** `clean_text` */
  function CleanText(text: seq<char>): seq<char> {
    Strip(Collapse(BlankNonLetters(LowerAll(text))))
  }

  /* ---------------------------------------------------------------------- */
  /* Properties of clean_text                                               */
  /* ---------------------------------------------------------------------- */

  /** Dropping leading whitespace keeps a string over the alphabet without
      doubled spaces. */
  lemma TrimStartKeepsShape(s: seq<char>)
    requires OverAlphabet(s) && NoDoubleSpace(s)
    ensures OverAlphabet(TrimStart(s)) && NoDoubleSpace(TrimStart(s))
  {
    var r := TrimStart(s);
    var lo := |s| - |r|;
    assert r == s[lo..];
    forall i | 0 <= i < |r| ensures IsLower(r[i]) || r[i] == ' ' {
      assert r[i] == s[lo + i];
    }
    forall i | 0 <= i < |r| - 1 ensures !(r[i] == ' ' && r[i + 1] == ' ') {
      assert r[i] == s[lo + i] && r[i + 1] == s[lo + i + 1];
    }
  }

  /** Dropping trailing whitespace keeps a string over the alphabet without
      doubled spaces. */
  lemma TrimEndKeepsShape(s: seq<char>)
    requires OverAlphabet(s) && NoDoubleSpace(s)
    ensures OverAlphabet(TrimEnd(s)) && NoDoubleSpace(TrimEnd(s))
  {
    var r := TrimEnd(s);
    assert forall i :: 0 <= i < |r| ==> r[i] == s[i];
  }

  lemma StripKeepsShape(s: seq<char>)
    requires OverAlphabet(s) && NoDoubleSpace(s)
    ensures Canonical(Strip(s))
  {
    TrimStartKeepsShape(s);
    TrimEndKeepsShape(TrimStart(s));
  }

  /** The output of `clean_text` contains only `a`-`z` and single inner
      spaces: no leading, trailing or doubled space. */
  lemma CleanTextIsCanonical(text: seq<char>)
    ensures Canonical(CleanText(text))
  {
    StripKeepsShape(Collapse(BlankNonLetters(LowerAll(text))));
  }

  lemma {:induction false} BlankLowerKeepsLetters(s: seq<char>)
    ensures NonSpace(BlankNonLetters(LowerAll(s))) == LettersOf(s)
    decreases |s|
  {
    if |s| > 0 {
      var m := BlankNonLetters(LowerAll(s));
      assert m == [m[0]] + BlankNonLetters(LowerAll(s[1..]));
      BlankLowerKeepsLetters(s[1..]);
      NonSpaceAppend([m[0]], BlankNonLetters(LowerAll(s[1..])));
    }
  }

  lemma {:induction false} TrimStartKeepsNonSpace(s: seq<char>)
    ensures NonSpace(TrimStart(s)) == NonSpace(s)
    decreases |s|
  {
    if |s| > 0 && IsSpace(s[0]) {
      TrimStartKeepsNonSpace(s[1..]);
    }
  }

  lemma {:induction false} TrimEndKeepsNonSpace(s: seq<char>)
    ensures NonSpace(TrimEnd(s)) == NonSpace(s)
    decreases |s|
  {
    if |s| > 0 && IsSpace(s[|s| - 1]) {
      TrimEndKeepsNonSpace(s[..|s| - 1]);
      NonSpaceAppend(s[..|s| - 1], [s[|s| - 1]]);
      assert s[..|s| - 1] + [s[|s| - 1]] == s;
    }
  }

  /** Collapsing whitespace removes and adds only whitespace. */
  lemma {:induction false} CollapseKeepsNonSpace(s: seq<char>)
    ensures NonSpace(Collapse(s)) == NonSpace(s)
    decreases |s|
  {
    if |s| > 0 {
      if IsSpace(s[0]) {
        var t := TrimStart(s);
        var x := Collapse(t);
        assert Collapse(s) == [' '] + x;
        CollapseKeepsNonSpace(t);
        TrimStartKeepsNonSpace(s);
        NonSpaceAppend([' '], x);
      } else {
        var x := Collapse(s[1..]);
        assert Collapse(s) == [s[0]] + x;
        CollapseKeepsNonSpace(s[1..]);
        NonSpaceAppend([s[0]], x);
      }
    }
  }

  /** The non-space characters of the cleaned text are exactly the letters of
      the input, lower-cased, in their original order. */
  lemma CleanTextKeepsLetters(text: seq<char>)
    ensures NonSpace(CleanText(text)) == LettersOf(text)
  {
    var m := BlankNonLetters(LowerAll(text));
    BlankLowerKeepsLetters(text);
    CollapseKeepsNonSpace(m);
    TrimStartKeepsNonSpace(Collapse(m));
    TrimEndKeepsNonSpace(TrimStart(Collapse(m)));
  }

  lemma TrimStartNoLead(s: seq<char>)
    requires |s| == 0 || !IsSpace(s[0])
    ensures TrimStart(s) == s
  {
  }

  lemma ShapeOfTail(s: seq<char>)
    requires |s| > 0 && OverAlphabet(s) && NoDoubleSpace(s)
    ensures OverAlphabet(s[1..]) && NoDoubleSpace(s[1..])
  {
    var t := s[1..];
    forall i | 0 <= i < |t| ensures IsLower(t[i]) || t[i] == ' ' {
      assert t[i] == s[i + 1];
    }
    forall i | 0 <= i < |t| - 1 ensures !(t[i] == ' ' && t[i + 1] == ' ') {
      assert t[i] == s[i + 1] && t[i + 1] == s[i + 2];
    }
  }

  /** A single space followed by a non-space collapses to itself. */
  lemma CollapseSingleSpace(s: seq<char>)
    requires |s| > 0 && s[0] == ' ' && (|s| == 1 || !IsSpace(s[1]))
    ensures Collapse(s) == [' '] + Collapse(s[1..])
  {
    var t := s[1..];
    assert TrimStart(s) == TrimStart(t);
    TrimStartNoLead(t);
  }

  lemma ConsOfHeadTail<T>(s: seq<T>)
    requires |s| > 0
    ensures [s[0]] + s[1..] == s
  {
  }

  lemma {:induction false} CollapseFixesSingleSpaced(s: seq<char>)
    requires OverAlphabet(s) && NoDoubleSpace(s)
    ensures Collapse(s) == s
    decreases |s|
  {
    if |s| > 0 {
      assert Collapse(s) == [s[0]] + Collapse(s[1..]) by {
        if IsSpace(s[0]) {
          assert s[0] == ' ';
          assert |s| == 1 || s[1] != ' ';
          CollapseSingleSpace(s);
        }
      }
      assert Collapse(s[1..]) == s[1..] by {
        ShapeOfTail(s);
        CollapseFixesSingleSpaced(s[1..]);
      }
      ConsOfHeadTail(s);
    }
  }

  /** `clean_text` leaves an already clean string unchanged. */
  lemma CleanTextFixesCanonical(s: seq<char>)
    requires Canonical(s)
    ensures CleanText(s) == s
  {
    assert LowerAll(s) == s;
    assert BlankNonLetters(s) == s;
    CollapseFixesSingleSpaced(s);
    assert TrimStart(s) == s;
    assert TrimEnd(s) == s;
  }

  /** `clean_text` is idempotent. */
  lemma CleanTextIdempotent(text: seq<char>)
    ensures CleanText(CleanText(text)) == CleanText(text)
  {
    CleanTextIsCanonical(text);
    CleanTextFixesCanonical(CleanText(text));
  }

  /* ---------------------------------------------------------------------- */
  /* str.split() and " ".join                                               */
  /* ---------------------------------------------------------------------- */

  /** The longest whitespace-free prefix. */
  function TakeWord(s: seq<char>): (r: seq<char>)
    ensures |r| <= |s| && r == s[..|r|]
    ensures forall j :: 0 <= j < |r| ==> !IsSpace(r[j])
    ensures |r| < |s| ==> IsSpace(s[|r|])
    decreases |s|
  {
    if |s| == 0 || IsSpace(s[0]) then []
    else
      var w := TakeWord(s[1..]);
      assert [s[0]] + w == s[..|w| + 1];
      [s[0]] + w
  }

  /** `text.split()`: the maximal runs of non-whitespace characters. */
  function Words(s: seq<char>): (ws: seq<seq<char>>)
    ensures AllWords(ws)
    decreases |s|
  {
    var t := TrimStart(s);
    if |t| == 0 then []
    else
      var w := TakeWord(t);
      var rest := Words(t[|w|..]);
      AllWordsCons(w, rest);
      [w] + rest
  }

  lemma AllWordsCons(w: seq<char>, ws: seq<seq<char>>)
    requires IsWord(w) && AllWords(ws)
    ensures AllWords([w] + ws)
  {
    var r := [w] + ws;
    forall i | 0 <= i < |r| ensures IsWord(r[i]) {
      if i > 0 {
        assert r[i] == ws[i - 1];
      }
    }
  }

  lemma LowerOrSpaceSuffix(s: seq<char>, k: nat)
    requires k <= |s| && LowerOrSpace(s)
    ensures LowerOrSpace(s[k..])
  {
    forall i | 0 <= i < |s| - k ensures IsLower(s[k..][i]) || IsSpace(s[k..][i]) {
      assert s[k..][i] == s[k + i];
    }
  }

  lemma WordsUnfold(s: seq<char>)
    requires |s| > 0 && !IsSpace(s[0])
    ensures Words(s) == [TakeWord(s)] + Words(s[|TakeWord(s)|..])
  {
    TrimStartNoLead(s);
  }

  lemma AllLowerWordsCons(w: seq<char>, ws: seq<seq<char>>)
    requires |w| > 0 && forall j :: 0 <= j < |w| ==> IsLower(w[j])
    requires AllLowerWords(ws)
    ensures AllLowerWords([w] + ws)
  {
    var r := [w] + ws;
    forall i | 0 <= i < |r|
      ensures |r[i]| > 0 && forall j :: 0 <= j < |r[i]| ==> IsLower(r[i][j])
    {
      if i > 0 {
        assert r[i] == ws[i - 1];
      }
    }
  }

  lemma TakeWordOfLowerOrSpace(t: seq<char>)
    requires LowerOrSpace(t)
    ensures forall j :: 0 <= j < |TakeWord(t)| ==> IsLower(TakeWord(t)[j])
    ensures LowerOrSpace(t[|TakeWord(t)|..])
  {
    var w := TakeWord(t);
    forall j | 0 <= j < |w| ensures IsLower(w[j]) {
      assert w[j] == t[j];
    }
    LowerOrSpaceSuffix(t, |w|);
  }

  /** The words of a string of lower-case letters and whitespace are made of
      lower-case letters. */
  lemma {:induction false} WordsOfLowerOrSpace(s: seq<char>)
    requires LowerOrSpace(s)
    ensures AllLowerWords(Words(s))
    decreases |s|
  {
    var t := TrimStart(s);
    if |t| > 0 {
      assert Words(s) == Words(t) by {
        TrimStartNoLead(t);
      }
      LowerOrSpaceSuffix(s, |s| - |t|);
      var w := TakeWord(t);
      TakeWordOfLowerOrSpace(t);
      WordsOfLowerOrSpace(t[|w|..]);
      WordsUnfold(t);
      AllLowerWordsCons(w, Words(t[|w|..]));
    }
  }

  /** `" ".join(words)` */
  function Join(ws: seq<seq<char>>): seq<char>
    decreases |ws|
  {
    if |ws| == 0 then []
    else if |ws| == 1 then ws[0]
    else ws[0] + [' '] + Join(ws[1..])
  }

  lemma TakeWordOfWord(w: seq<char>, rest: seq<char>)
    requires IsWord(w)
    requires rest == [] || IsSpace(rest[0])
    ensures TakeWord(w + rest) == w
  {
    var s := w + rest;
    var r := TakeWord(s);
    forall k | 0 <= k < |w| ensures !IsSpace(s[k]) {
      assert s[k] == w[k];
    }
    assert |r| >= |w|;
    assert s[..|w|] == w;
  }

  lemma {:induction false} WordsOfSpaceThen(s: seq<char>)
    requires |s| > 0 && IsSpace(s[0])
    ensures Words(s) == Words(s[1..])
  {
    assert TrimStart(s) == TrimStart(s[1..]);
  }

  /** A word followed by whitespace: the word comes first, the rest is split
      on its own. */
  lemma WordsOfWordThenSpace(w: seq<char>, tail: seq<char>)
    requires IsWord(w) && |tail| > 0 && IsSpace(tail[0])
    ensures Words(w + tail) == [w] + Words(tail[1..])
  {
    var s := w + tail;
    TakeWordOfWord(w, tail);
    WordsUnfold(s);
    assert s[|w|..] == tail;
    WordsOfSpaceThen(tail);
  }

  lemma WordsOfOneWord(w: seq<char>)
    requires IsWord(w)
    ensures Words(w) == [w]
  {
    TakeWordOfWord(w, []);
    assert w + [] == w;
    WordsUnfold(w);
    assert w[|w|..] == [];
  }

  /** Splitting joined words gives the words back. */
  lemma {:induction false} WordsOfJoin(ws: seq<seq<char>>)
    requires AllWords(ws)
    ensures Words(Join(ws)) == ws
    decreases |ws|
  {
    if |ws| == 1 {
      WordsOfOneWord(ws[0]);
    } else if |ws| > 1 {
      AllWordsTail(ws);
      WordsOfJoin(ws[1..]);
      WordsOfJoinStep(ws);
    }
  }

  lemma AllWordsTail(ws: seq<seq<char>>)
    requires |ws| > 0 && AllWords(ws)
    ensures AllWords(ws[1..])
  {
    forall i | 0 <= i < |ws| - 1 ensures IsWord(ws[1..][i]) {
      assert ws[1..][i] == ws[i + 1];
    }
  }

  /** The step of `WordsOfJoin`: the first word, a space, then the rest. */
  lemma WordsOfJoinStep(ws: seq<seq<char>>)
    requires |ws| > 1 && IsWord(ws[0])
    requires Words(Join(ws[1..])) == ws[1..]
    ensures Words(Join(ws)) == ws
  {
    var rest := Join(ws[1..]);
    var tail := [' '] + rest;
    JoinUnfold(ws);
    TailOfCons(' ', rest);
    WordsOfWordThenSpace(ws[0], tail);
    ConsOfHeadTail(ws);
  }

  lemma JoinUnfold(ws: seq<seq<char>>)
    requires |ws| > 1
    ensures Join(ws) == ws[0] + ([' '] + Join(ws[1..]))
  {
    Assoc(ws[0], [' '], Join(ws[1..]));
  }

  lemma Assoc<T>(a: seq<T>, b: seq<T>, c: seq<T>)
    ensures a + b + c == a + (b + c)
  {
  }

  lemma TailOfCons<T>(x: T, xs: seq<T>)
    ensures ([x] + xs)[1..] == xs
  {
  }

  /** Joining lower-case words gives a clean string. */
  lemma {:induction false} JoinIsCanonical(ws: seq<seq<char>>)
    requires AllLowerWords(ws)
    ensures Canonical(Join(ws))
    decreases |ws|
  {
    if |ws| >= 2 {
      JoinIsCanonical(ws[1..]);
      var w := ws[0];
      var j := Join(ws[1..]);
      var s := w + [' '] + j;
      assert Join(ws) == s;
      forall i | 0 <= i < |s| ensures IsLower(s[i]) || s[i] == ' ' {
        if i < |w| {
          assert s[i] == w[i];
        } else if i > |w| {
          assert s[i] == j[i - |w| - 1];
        }
      }
      forall i | 0 <= i < |s| - 1 ensures !(s[i] == ' ' && s[i + 1] == ' ') {
        if i < |w| {
          assert s[i] == w[i];
        } else if i == |w| {
          assert s[i + 1] == j[0];
        } else {
          assert s[i] == j[i - |w| - 1];
          assert s[i + 1] == j[i - |w|];
        }
      }
      assert s[|s| - 1] == j[|j| - 1];
    } else if |ws| == 1 {
      assert Join(ws) == ws[0];
    }
  }

  /** `s` begins with a character of a word. */
  predicate StartsWord(s: seq<char>) {
    |s| > 0 && !IsSpace(s[0])
  }

  /** Putting a non-whitespace character in front either lengthens the first
      word (when `x` starts with one) or adds a one-character word. */
  lemma WordsConsNonSpace(c: char, x: seq<char>)
    requires !IsSpace(c)
    ensures StartsWord(x) ==> |Words(x)| > 0 && Words([c] + x) == [[c] + Words(x)[0]] + Words(x)[1..]
    ensures !StartsWord(x) ==> Words([c] + x) == [[c]] + Words(x)
  {
    var s := [c] + x;
    if StartsWord(x) {
      var w := TakeWord(x);
      WordsUnfold(x);
      assert TakeWord(s) == [c] + w by {
        assert s[1..] == x;
      }
      WordsUnfold(s);
      assert s[|w| + 1..] == x[|w|..];
    } else if |x| == 0 {
      assert s == [c];
      WordsOfOneWord([c]);
    } else {
      WordsOfWordThenSpace([c], x);
      WordsOfSpaceThen(x);
    }
  }

  lemma WordsOfTrimStart(s: seq<char>)
    ensures Words(TrimStart(s)) == Words(s)
  {
    TrimStartNoLead(TrimStart(s));
  }

  /** A string of whitespace has no words. */
  lemma {:induction false} AllSpaceWords(b: seq<char>)
    requires forall i :: 0 <= i < |b| ==> IsSpace(b[i])
    ensures Words(b) == []
    decreases |b|
  {
    if |b| > 0 {
      forall i | 0 <= i < |b| - 1 ensures IsSpace(b[1..][i]) {
        assert b[1..][i] == b[i + 1];
      }
      AllSpaceWords(b[1..]);
      WordsOfSpaceThen(b);
    }
  }

  /** Trailing whitespace adds no word. */
  lemma {:induction false} WordsTrailingSpace(a: seq<char>, b: seq<char>)
    requires forall i :: 0 <= i < |b| ==> IsSpace(b[i])
    ensures Words(a + b) == Words(a)
    decreases |a|
  {
    if |a| == 0 {
      assert a + b == b;
      AllSpaceWords(b);
    } else if IsSpace(a[0]) {
      assert (a + b)[1..] == a[1..] + b;
      WordsOfSpaceThen(a + b);
      WordsTrailingSpace(a[1..], b);
      WordsOfSpaceThen(a);
    } else {
      WordsTrailingSpace(a[1..], b);
      WordsTrailingSpaceStep(a, b);
    }
  }

  /** The step of `WordsTrailingSpace` for a word character in front. */
  lemma WordsTrailingSpaceStep(a: seq<char>, b: seq<char>)
    requires |a| > 0 && !IsSpace(a[0])
    requires forall i :: 0 <= i < |b| ==> IsSpace(b[i])
    requires Words(a[1..] + b) == Words(a[1..])
    ensures Words(a + b) == Words(a)
  {
    var x := a[1..] + b;
    if |a| == 1 {
      assert x == b;
    } else {
      assert x[0] == a[1..][0];
    }
    WordsConsSame(a[0], x, a[1..]);
    ConsAppend(a, b);
    ConsOfHeadTail(a);
  }

  /** The same non-whitespace character in front of two strings with the
      same words, both or neither starting inside a word, keeps them equal. */
  lemma WordsConsSame(c: char, x: seq<char>, y: seq<char>)
    requires !IsSpace(c)
    requires Words(x) == Words(y)
    requires StartsWord(x) <==> StartsWord(y)
    ensures Words([c] + x) == Words([c] + y)
  {
    WordsConsNonSpace(c, x);
    WordsConsNonSpace(c, y);
  }

  lemma ConsAppend<T>(a: seq<T>, b: seq<T>)
    requires |a| > 0
    ensures a + b == [a[0]] + (a[1..] + b)
  {
  }

  lemma WordsOfTrimEnd(s: seq<char>)
    ensures Words(TrimEnd(s)) == Words(s)
  {
    var r := TrimEnd(s);
    assert s == r + s[|r|..];
    WordsTrailingSpace(r, s[|r|..]);
  }

  /** Stripping removes no word. */
  lemma StripKeepsWords(s: seq<char>)
    ensures Words(Strip(s)) == Words(s)
  {
    WordsOfTrimStart(s);
    WordsOfTrimEnd(TrimStart(s));
  }

  /** One step of `Collapse` on leading whitespace: the whole run `s[..a]`
      becomes one space in front of the collapsed rest `t`. */
  lemma CollapseSpaceShape(s: seq<char>, a: nat, t: seq<char>, x: seq<char>)
    requires 0 < a <= |s| && t == s[a..]
    requires forall i :: 0 <= i < a ==> IsSpace(s[i])
    requires |t| > 0 ==> !IsSpace(t[0])
    requires CollapseShape(t, x)
    ensures CollapseShape(s, [' '] + x)
  {
    var r := [' '] + x;
    if |x| > 0 {
      assert r[|r| - 1] == x[|x| - 1];
    } else {
      assert IsSpace(s[|s| - 1]);
    }
    ConsShape(' ', x);
    if LowerOrSpace(s) {
      assert LowerOrSpace(t) by {
        forall i | 0 <= i < |t|
          ensures IsLower(t[i]) || IsSpace(t[i])
        {
          assert t[i] == s[a + i];
        }
      }
      ConsAlphabet(' ', x);
    }
  }

  lemma CollapseSpaceWords(s: seq<char>, x: seq<char>)
    requires |s| > 0 && IsSpace(s[0])
    requires Words(x) == Words(TrimStart(s))
    ensures Words([' '] + x) == Words(s)
  {
    assert ([' '] + x)[1..] == x;
    WordsOfSpaceThen([' '] + x);
    WordsOfTrimStart(s);
  }

  /** One step of `Collapse` on a non-whitespace character: it is kept in
      front of the collapsed rest. */
  lemma CollapseLetterShape(s: seq<char>, x: seq<char>)
    requires |s| > 0 && !IsSpace(s[0])
    requires CollapseShape(s[1..], x)
    ensures CollapseShape(s, [s[0]] + x)
  {
    var r := [s[0]] + x;
    if |x| > 0 {
      assert r[|r| - 1] == x[|x| - 1];
    }
    ConsShape(s[0], x);
    if LowerOrSpace(s) {
      assert LowerOrSpace(s[1..]) by {
        forall i | 0 <= i < |s| - 1
          ensures IsLower(s[1..][i]) || IsSpace(s[1..][i])
        {
          assert s[1..][i] == s[i + 1];
        }
      }
      ConsAlphabet(s[0], x);
    }
  }

  lemma CollapseLetterWords(s: seq<char>, x: seq<char>)
    requires |s| > 0 && !IsSpace(s[0])
    requires Words(x) == Words(s[1..])
    requires StartsWord(x) <==> StartsWord(s[1..])
    ensures Words([s[0]] + x) == Words(s)
  {
    WordsConsSame(s[0], x, s[1..]);
    ConsOfHeadTail(s);
  }

  /** Putting one character in front of `x` keeps its spaces plain, and adds
      no doubled space when `x` does not start with one or `c` is not one. */
  lemma ConsShape(c: char, x: seq<char>)
    requires c == ' ' || !IsSpace(c)
    requires forall i :: 0 <= i < |x| ==> x[i] == ' ' || !IsSpace(x[i])
    requires NoDoubleSpace(x)
    requires c == ' ' && |x| > 0 ==> x[0] != ' '
    ensures forall i :: 0 <= i < |[c] + x| ==> ([c] + x)[i] == ' ' || !IsSpace(([c] + x)[i])
    ensures NoDoubleSpace([c] + x)
  {
    var r := [c] + x;
    forall i | 0 <= i < |r| - 1
      ensures !(r[i] == ' ' && r[i + 1] == ' ')
    {
      if i > 0 {
        assert r[i] == x[i - 1] && r[i + 1] == x[i];
      }
    }
  }

  lemma ConsAlphabet(c: char, x: seq<char>)
    requires IsLower(c) || c == ' '
    requires OverAlphabet(x)
    ensures OverAlphabet([c] + x)
  {
  }

  /** `clean_text` splits into exactly the words of the lower-cased text
      with every character other than `a`-`z` and whitespace blanked. */
  lemma CleanTextWords(text: seq<char>)
    ensures Words(CleanText(text)) == Words(BlankNonLetters(LowerAll(text)))
  {
    StripKeepsWords(Collapse(BlankNonLetters(LowerAll(text))));
  }

  lemma JoinCons(w: seq<char>, ws: seq<seq<char>>)
    requires |ws| > 0
    ensures Join([w] + ws) == w + [' '] + Join(ws)
  {
    assert ([w] + ws)[1..] == ws;
  }

  /** The rest of a clean string after a space is clean. */
  lemma CanonicalAfterSpace(s: seq<char>, k: nat)
    requires Canonical(s) && 0 < k < |s| && s[k - 1] == ' '
    ensures Canonical(s[k..])
  {
    var t := s[k..];
    forall i | 0 <= i < |t| ensures IsLower(t[i]) || t[i] == ' ' {
      assert t[i] == s[k + i];
    }
    forall i | 0 <= i < |t| - 1 ensures !(t[i] == ' ' && t[i + 1] == ' ') {
      assert t[i] == s[k + i] && t[i + 1] == s[k + i + 1];
    }
    assert t[0] == s[k] && t[|t| - 1] == s[|s| - 1];
  }

  /** A word up to position `n`, whitespace at `n`: the word comes first. */
  lemma WordsAtSpace(s: seq<char>, n: nat)
    requires n < |s| && IsWord(s[..n]) && IsSpace(s[n])
    ensures Words(s) == [s[..n]] + Words(s[n + 1..])
  {
    assert s[..n] + s[n..] == s;
    assert s[n..][1..] == s[n + 1..];
    WordsOfWordThenSpace(s[..n], s[n..]);
  }

  lemma SplitAt<T>(s: seq<T>, n: nat)
    requires n < |s|
    ensures s == s[..n] + [s[n]] + s[n + 1..]
  {
  }

  /** Joining the words of a clean string gives the string back: for clean
      text `" ".join(text.split()) == text`. */
  lemma {:induction false} JoinOfWords(s: seq<char>)
    requires Canonical(s)
    ensures Join(Words(s)) == s
    decreases |s|
  {
    if |s| > 0 {
      var w := TakeWord(s);
      var n := |w|;
      assert !IsSpace(s[0]);
      if n == |s| {
        assert w == s;
        WordsOfOneWord(s);
      } else {
        assert s[n] == ' ';
        assert n + 1 < |s|;
        var rest := s[n + 1..];
        CanonicalAfterSpace(s, n + 1);
        WordsAtSpace(s, n);
        JoinOfWords(rest);
        WordsUnfold(rest);
        JoinCons(w, Words(rest));
        SplitAt(s, n);
        assert Join(Words(s)) == w + [' '] + rest;
      }
    }
  }

  /** Words separated by single plain spaces, nothing at either end: the
      shape of `" ".join(words)`. */
  predicate SingleSpaced(s: seq<char>) {
    && (forall i :: 0 <= i < |s| && IsSpace(s[i]) ==> s[i] == ' ')
    && NoDoubleSpace(s)
    && (|s| > 0 ==> s[0] != ' ' && s[|s| - 1] != ' ')
  }

  /** Joining words gives a single-spaced string. */
  lemma {:induction false} JoinIsSingleSpaced(ws: seq<seq<char>>)
    requires AllWords(ws)
    ensures SingleSpaced(Join(ws))
    decreases |ws|
  {
    if |ws| >= 2 {
      assert AllWords(ws[1..]) by {
        forall i | 0 <= i < |ws| - 1 ensures IsWord(ws[1..][i]) {
          assert ws[1..][i] == ws[i + 1];
        }
      }
      JoinIsSingleSpaced(ws[1..]);
      var w := ws[0];
      var j := Join(ws[1..]);
      var s := w + [' '] + j;
      assert Join(ws) == s;
      forall i | 0 <= i < |s| ensures IsSpace(s[i]) ==> s[i] == ' ' {
        if i < |w| {
          assert s[i] == w[i];
        } else if i > |w| {
          assert s[i] == j[i - |w| - 1];
        }
      }
      forall i | 0 <= i < |s| - 1 ensures !(s[i] == ' ' && s[i + 1] == ' ') {
        if i < |w| {
          assert s[i] == w[i];
        } else if i == |w| {
          assert s[i + 1] == j[0];
        } else {
          assert s[i] == j[i - |w| - 1];
          assert s[i + 1] == j[i - |w|];
        }
      }
      assert s[0] == w[0];
      assert s[|s| - 1] == j[|j| - 1];
    } else if |ws| == 1 {
      assert Join(ws) == ws[0];
    }
  }

  /* ---------------------------------------------------------------------- */
  /* truncate_text and preprocess                                           */
  /* ---------------------------------------------------------------------- */

  /** The number of items Python's `xs[:k]` keeps of a list of length `n`
      (a negative `k` counts from the end). */
  function SliceEnd(n: nat, k: int): (r: nat)
    ensures r <= n
    ensures k >= 0 ==> r == if k < n then k else n
    ensures k < 0 ==> r == if n + k > 0 then n + k else 0
  {
    if k >= 0 then (if k < n then k else n)
    else if n + k > 0 then n + k else 0
  }

  /** `truncate_text`: keeps at most `maxWords` words. */
  function Truncate(text: seq<char>, maxWords: int): (r: seq<char>)
    ensures |Words(text)| <= maxWords ==> r == text
    ensures |Words(text)| > maxWords ==>
              Words(r) == Words(text)[..SliceEnd(|Words(text)|, maxWords)]
    ensures maxWords >= 0 && |Words(text)| > maxWords ==> |Words(r)| == maxWords
    ensures |Words(text)| > maxWords ==> SingleSpaced(r)
  {
    var ws := Words(text);
    if |ws| > maxWords then
      var kept := ws[..SliceEnd(|ws|, maxWords)];
      assert AllWords(kept) by {
        forall i | 0 <= i < |kept| ensures IsWord(kept[i]) {
          assert kept[i] == ws[i];
        }
      }
      WordsOfJoin(kept);
      JoinIsSingleSpaced(kept);
      Join(kept)
    else text
  }

  /** Truncating a clean string leaves it clean. */
  lemma TruncateKeepsCanonical(text: seq<char>, maxWords: int)
    requires Canonical(text)
    ensures Canonical(Truncate(text, maxWords))
  {
    var ws := Words(text);
    if |ws| > maxWords {
      var kept := ws[..SliceEnd(|ws|, maxWords)];
      assert Truncate(text, maxWords) == Join(kept);
      LowerWordsPrefix(text, SliceEnd(|ws|, maxWords));
      JoinIsCanonical(kept);
    }
  }

  /** Any prefix of the words of a clean string is made of lower-case words. */
  lemma LowerWordsPrefix(text: seq<char>, n: nat)
    requires Canonical(text) && n <= |Words(text)|
    ensures AllLowerWords(Words(text)[..n])
  {
    assert LowerOrSpace(text);
    WordsOfLowerOrSpace(text);
    AllLowerWordsPrefix(Words(text), n);
  }

  lemma AllLowerWordsPrefix(ws: seq<seq<char>>, n: nat)
    requires AllLowerWords(ws) && n <= |ws|
    ensures AllLowerWords(ws[..n])
  {
    forall i | 0 <= i < n
      ensures |ws[..n][i]| > 0 && forall j :: 0 <= j < |ws[..n][i]| ==> IsLower(ws[..n][i][j])
    {
      assert ws[..n][i] == ws[i];
    }
  }

  /** Truncation keeps a prefix of the words, never more than there were. */
  lemma TruncateKeepsWordPrefix(text: seq<char>, maxWords: int)
    ensures |Words(Truncate(text, maxWords))| <= |Words(text)|
    ensures Words(Truncate(text, maxWords)) == Words(text)[..|Words(Truncate(text, maxWords))|]
    ensures maxWords >= 0 ==> |Words(Truncate(text, maxWords))| <= maxWords
  {
    var ws := Words(text);
    var r := Truncate(text, maxWords);
    if |ws| <= maxWords {
      assert r == text;
      PrefixOf(ws, ws, |ws|);
    } else {
      PrefixOf(ws, Words(r), SliceEnd(|ws|, maxWords));
    }
  }

  lemma PrefixOf<T>(xs: seq<T>, ys: seq<T>, k: nat)
    requires k <= |xs| && (ys == xs[..k] || (k == |xs| && ys == xs))
    ensures |ys| == k && ys == xs[..|ys|]
  {
  }

  /** `preprocess`: clean, then keep at most `maxWords` words. */
  function Preprocess(text: seq<char>, maxWords: int): (r: seq<char>)
    ensures Canonical(r)
    ensures maxWords >= 0 ==> |Words(r)| <= maxWords
    ensures |Words(r)| <= |Words(CleanText(text))|
    ensures Words(r) == Words(CleanText(text))[..|Words(r)|]
    ensures |Words(CleanText(text))| <= maxWords ==> NonSpace(r) == LettersOf(text)
    ensures Words(r) == Words(CleanText(text))[..SliceEnd(|Words(CleanText(text))|, maxWords)]
  {
    PreprocessIsCanonical(text, maxWords);
    PreprocessKeepsWordPrefix(text, maxWords);
    PreprocessKeepsLetters(text, maxWords);
    TruncateKeepsSlicedWords(CleanText(text), maxWords);
    Truncate(CleanText(text), maxWords)
  }

  /** On either side of the cap, `truncate_text` keeps the words Python's
      `words[:max_words]` keeps. */
  lemma TruncateKeepsSlicedWords(c: seq<char>, maxWords: int)
    ensures Words(Truncate(c, maxWords)) == Words(c)[..SliceEnd(|Words(c)|, maxWords)]
  {
    var ws := Words(c);
    if |ws| <= maxWords {
      assert Truncate(c, maxWords) == c;
      WholeSlice(ws, SliceEnd(|ws|, maxWords));
    }
  }

  lemma WholeSlice<T>(xs: seq<T>, k: nat)
    requires k == |xs|
    ensures xs[..k] == xs
  {
  }

  lemma PreprocessIsCanonical(text: seq<char>, maxWords: int)
    ensures Canonical(Truncate(CleanText(text), maxWords))
  {
    CleanTextIsCanonical(text);
    TruncateKeepsCanonical(CleanText(text), maxWords);
  }

  lemma PreprocessKeepsWordPrefix(text: seq<char>, maxWords: int)
    ensures var c := CleanText(text);
            var r := Truncate(c, maxWords);
            && |Words(r)| <= |Words(c)|
            && Words(r) == Words(c)[..|Words(r)|]
            && (maxWords >= 0 ==> |Words(r)| <= maxWords)
  {
    TruncateKeepsWordPrefix(CleanText(text), maxWords);
  }

  lemma PreprocessKeepsLetters(text: seq<char>, maxWords: int)
    ensures |Words(CleanText(text))| <= maxWords ==> NonSpace(Truncate(CleanText(text), maxWords)) == LettersOf(text)
  {
    CleanTextKeepsLetters(text);
  }
}
