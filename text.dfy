/** Whitespace handling as Rust's `str::trim` and `str::split_whitespace` perform it:
    both use `char::is_whitespace`, the Unicode White_Space property. */
module Text {

  /** The Unicode White_Space characters. */
  predicate IsWhitespace(c: char) {
    ('\t' <= c <= '\r') || c == ' ' || c == '\U{85}' || c == '\U{A0}' || c == '\U{1680}'
    || ('\U{2000}' <= c <= '\U{200A}') || c == '\U{2028}' || c == '\U{2029}' || c == '\U{202F}'
    || c == '\U{205F}' || c == '\U{3000}'
  }

  predicate AllWhitespace(s: string) {
    forall i :: 0 <= i < |s| ==> IsWhitespace(s[i])
  }

  predicate NoWhitespace(s: string) {
    forall i :: 0 <= i < |s| ==> !IsWhitespace(s[i])
  }

  /** `s` with its leading whitespace removed. */
  function TrimStart(s: string): (r: string)
    ensures |r| <= |s| && r == s[|s| - |r|..]
    ensures AllWhitespace(s[..|s| - |r|])
    ensures r == [] || !IsWhitespace(r[0])
  {
    if s != [] && IsWhitespace(s[0]) then TrimStart(s[1..]) else s
  }

  /** `s` with its trailing whitespace removed. */
  function TrimEnd(s: string): (r: string)
    ensures |r| <= |s| && r == s[..|r|]
    ensures AllWhitespace(s[|r|..])
    ensures r == [] || !IsWhitespace(r[|r| - 1])
  {
    if s != [] && IsWhitespace(s[|s| - 1]) then
      var r := TrimEnd(s[..|s| - 1]);
      assert s[|r|..] == s[..|s| - 1][|r|..] + [s[|s| - 1]];
      r
    else s
  }

  lemma TrimStartEmpty(s: string)
    ensures TrimStart(s) == [] <==> AllWhitespace(s)
  {
    if s != [] && IsWhitespace(s[0]) {
      TrimStartEmpty(s[1..]);
      if AllWhitespace(s[1..]) {
        forall i | 0 <= i < |s| ensures IsWhitespace(s[i]) {
          if i > 0 { assert s[i] == s[1..][i - 1]; }
        }
      }
    }
  }

  lemma TrimEndEmpty(s: string)
    ensures TrimEnd(s) == [] <==> AllWhitespace(s)
  {
    if s != [] && IsWhitespace(s[|s| - 1]) {
      TrimEndEmpty(s[..|s| - 1]);
      if AllWhitespace(s[..|s| - 1]) {
        forall i | 0 <= i < |s| ensures IsWhitespace(s[i]) {
          if i < |s| - 1 { assert s[i] == s[..|s| - 1][i]; }
        }
      }
    }
  }

  /** `str::trim`: `s` without its leading and its trailing whitespace. */
  function Trim(s: string): (r: string)
    ensures |r| <= |s|
    ensures r == [] || (!IsWhitespace(r[0]) && !IsWhitespace(r[|r| - 1]))
    ensures s == [] || (!IsWhitespace(s[0]) && !IsWhitespace(s[|s| - 1])) ==> r == s
  {
    var t := TrimStart(s);
    var r := TrimEnd(t);
    assert r != [] ==> r[0] == t[0];
    assert t != [] ==> t[|t| - 1] == s[|s| - 1];
    r
  }

  /** `r` is `s` with only whitespace cut from its two ends: a slice of `s` with nothing
      but whitespace before it and after it. */
  predicate CutFrom(s: string, r: string) {
    exists a :: 0 <= a <= |s| - |r| && r == s[a..a + |r|]
                && AllWhitespace(s[..a]) && AllWhitespace(s[a + |r|..])
  }

  /** Trimming removes only whitespace. */
  lemma TrimCutsWhitespace(s: string)
    ensures CutFrom(s, Trim(s))
  {
    var t := TrimStart(s);
    var r := TrimEnd(t);
    CutAt(s, t, r);
    assert Trim(s) == r;
  }

  /** Cutting a whitespace prefix off `s`, then a whitespace suffix off what is left, leaves
      a slice of `s` with whitespace on both sides. */
  lemma CutAt(s: string, t: string, r: string)
    requires |t| <= |s| && t == s[|s| - |t|..] && AllWhitespace(s[..|s| - |t|])
    requires |r| <= |t| && r == t[..|r|] && AllWhitespace(t[|r|..])
    ensures CutFrom(s, r)
  {
    var a := |s| - |t|;
    assert s[a..][|r|..] == s[a + |r|..];
    assert r == s[a..a + |r|];
  }

  lemma TrimEmpty(s: string)
    ensures Trim(s) == [] <==> AllWhitespace(s)
  {
    TrimStartEmpty(s);
    TrimEndEmpty(TrimStart(s));
  }

  /** The longest prefix of `s` that holds no whitespace. */
  function TakeWord(s: string): (w: string)
    ensures |w| <= |s| && w == s[..|w|]
    ensures NoWhitespace(w)
    ensures |w| == |s| || IsWhitespace(s[|w|])
    ensures s != [] && !IsWhitespace(s[0]) ==> w != []
  {
    if s == [] || IsWhitespace(s[0]) then [] else [s[0]] + TakeWord(s[1..])
  }

  predicate IsWordList(ws: seq<string>) {
    forall i :: 0 <= i < |ws| ==> ws[i] != [] && NoWhitespace(ws[i])
  }

  /** `str::split_whitespace`: the maximal runs of non-whitespace characters, in order. */
  function Words(s: string): (ws: seq<string>)
    ensures IsWordList(ws)
    decreases |s|
  {
    var t := TrimStart(s);
    if t == [] then [] else
    var w := TakeWord(t);
    var rest := Words(t[|w|..]);
    WordListCons(w, rest);
    [w] + rest
  }

  lemma WordListCons(w: string, rest: seq<string>)
    requires w != [] && NoWhitespace(w) && IsWordList(rest)
    ensures IsWordList([w] + rest)
  {
    forall i | 0 <= i < |[w] + rest| ensures ([w] + rest)[i] != [] && NoWhitespace(([w] + rest)[i]) {
      if i > 0 { assert ([w] + rest)[i] == rest[i - 1]; }
    }
  }

  lemma WordsEmpty(s: string)
    ensures Words(s) == [] <==> AllWhitespace(s)
  {
    TrimStartEmpty(s);
  }

  lemma TakeWordOfWord(w: string, rest: string)
    requires NoWhitespace(w)
    requires rest == [] || IsWhitespace(rest[0])
    ensures TakeWord(w + rest) == w
    decreases |w|
  {
    if w != [] {
      var x := w + rest;
      ConsTail(w, rest);
      TakeWordStep(x);
      NoWhitespaceTail(w);
      TakeWordOfWord(w[1..], rest);
      assert TakeWord(x) == [w[0]] + w[1..];
      HeadTail(w);
    }
  }

  lemma ConsTail<T>(w: seq<T>, rest: seq<T>)
    requires w != []
    ensures (w + rest)[0] == w[0] && (w + rest)[1..] == w[1..] + rest
  {
  }

  lemma TakeWordStep(s: string)
    requires s != [] && !IsWhitespace(s[0])
    ensures TakeWord(s) == [s[0]] + TakeWord(s[1..])
  {
  }

  lemma NoWhitespaceTail(w: string)
    requires w != [] && NoWhitespace(w)
    ensures !IsWhitespace(w[0]) && NoWhitespace(w[1..])
  {
    assert forall i :: 0 <= i < |w| - 1 ==> w[1..][i] == w[i + 1];
  }

  lemma WordsOfWordThenRest(w: string, rest: string)
    requires w != [] && NoWhitespace(w)
    requires rest == [] || IsWhitespace(rest[0])
    ensures Words(w + rest) == [w] + Words(rest)
  {
    var s := w + rest;
    assert s[0] == w[0];
    assert TrimStart(s) == s;
    TakeWordOfWord(w, rest);
    assert s[|w|..] == rest;
  }

  lemma SplitAt<T>(s: seq<T>, k: nat)
    requires k <= |s|
    ensures s == s[..k] + s[k..]
  {
  }

  lemma HeadTail<T>(s: seq<T>)
    requires s != []
    ensures [s[0]] + s[1..] == s
  {
  }

  lemma WordListTail(ws: seq<string>)
    requires ws != [] && IsWordList(ws)
    ensures IsWordList(ws[1..])
  {
    forall i | 0 <= i < |ws[1..]| ensures ws[1..][i] != [] && NoWhitespace(ws[1..][i]) {
      assert ws[1..][i] == ws[i + 1];
    }
  }

  lemma WordsOfWord(w: string)
    requires w != [] && NoWhitespace(w)
    ensures Words(w) == [w]
  {
    WordsOfWordThenRest(w, []);
    assert w + [] == w;
    assert Words([]) == [];
  }

  lemma {:induction false} TrimStartSkips(s: string, k: nat)
    requires k <= |s| && forall i :: 0 <= i < k ==> IsWhitespace(s[i])
    ensures TrimStart(s) == TrimStart(s[k..])
    decreases k
  {
    if k > 0 {
      TrimStartSkips(s, k - 1);
      var u := s[k - 1..];
      assert u[0] == s[k - 1] && u[1..] == s[k..];
      TrimStartStep(u);
    }
  }

  lemma TrimStartStep(s: string)
    requires s != [] && IsWhitespace(s[0])
    ensures TrimStart(s) == TrimStart(s[1..])
  {
  }

  /** Whitespace in front of a text does not change where its trimmed start begins. */
  lemma TrimStartAfterWhitespace(a: string, x: string)
    requires AllWhitespace(a)
    ensures TrimStart(a + x) == TrimStart(x)
  {
    var s := a + x;
    assert forall i :: 0 <= i < |a| ==> s[i] == a[i];
    TrimStartSkips(s, |a|);
    assert s[|a|..] == x;
  }

  /** Whitespace behind a text does not change where its trimmed end stops. */
  lemma TrimEndBeforeWhitespace(y: string, b: string)
    requires AllWhitespace(b)
    ensures TrimEnd(y + b) == TrimEnd(y)
    decreases |b|
  {
    if b != [] {
      assert (y + b)[|y + b| - 1] == b[|b| - 1];
      assert (y + b)[..|y + b| - 1] == y + b[..|b| - 1];
      assert forall i :: 0 <= i < |b| - 1 ==> b[..|b| - 1][i] == b[i];
      TrimEndBeforeWhitespace(y, b[..|b| - 1]);
    } else {
      assert y + b == y;
    }
  }

  /** A word between two runs of whitespace trims to the word. */
  lemma TrimAround(a: string, w: string, b: string)
    requires AllWhitespace(a) && AllWhitespace(b)
    requires w != [] && !IsWhitespace(w[0]) && !IsWhitespace(w[|w| - 1])
    ensures Trim(a + w + b) == w
  {
    assert a + w + b == a + (w + b);
    TrimStartAfterWhitespace(a, w + b);
    assert TrimStart(w + b) == w + b;
    TrimEndBeforeWhitespace(w, b);
  }

  lemma WordsAfterWhitespace(a: string, x: string)
    requires AllWhitespace(a)
    ensures Words(a + x) == Words(x)
  {
    TrimStartAfterWhitespace(a, x);
  }

  /** `seps` can separate `n` words: `n + 1` runs of whitespace, with each run that stands
      between two words non-empty (the first and the last may be empty). */
  predicate Separators(seps: seq<string>, n: nat) {
    && |seps| == n + 1
    && (forall i :: 0 <= i < |seps| ==> AllWhitespace(seps[i]))
    && (forall i :: 0 < i < n ==> seps[i] != [])
  }

  /** The text that has `seps[i]` in front of each word `ws[i]`, and the last separator
      after the last word. */
  function Interleave(seps: seq<string>, ws: seq<string>): string
    requires |seps| == |ws| + 1
    decreases |ws|
  {
    if ws == [] then seps[0] else seps[0] + ws[0] + Interleave(seps[1..], ws[1..])
  }

  lemma SeparatorsTail(seps: seq<string>, n: nat)
    requires n > 0 && Separators(seps, n)
    ensures Separators(seps[1..], n - 1)
  {
    forall i | 0 <= i < |seps[1..]| ensures AllWhitespace(seps[1..][i]) {
      assert seps[1..][i] == seps[i + 1];
    }
    forall i | 0 < i < n - 1 ensures seps[1..][i] != [] {
      assert seps[1..][i] == seps[i + 1];
    }
  }

  /** Splitting a line made of words and whitespace separators gives the words back,
      whatever the separators are. */
  lemma {:induction false} WordsOfInterleave(seps: seq<string>, ws: seq<string>)
    requires Separators(seps, |ws|) && IsWordList(ws)
    ensures Words(Interleave(seps, ws)) == ws
    decreases |ws|
  {
    if ws == [] {
      WordsEmpty(seps[0]);
    } else {
      var rest := Interleave(seps[1..], ws[1..]);
      SeparatorsTail(seps, |ws|);
      WordListTail(ws);
      WordsOfInterleave(seps[1..], ws[1..]);
      if ws[1..] == [] {
        assert rest == seps[1];
      } else {
        assert seps[1] != [];
        assert rest[0] == seps[1][0];
      }
      assert Interleave(seps, ws) == seps[0] + (ws[0] + rest);
      WordsAfterWhitespace(seps[0], ws[0] + rest);
      WordsOfWordThenRest(ws[0], rest);
      HeadTail(ws);
    }
  }

  lemma InterleaveCons(lead: string, more: seq<string>, w: string, ws: seq<string>)
    requires |more| == |ws| + 1
    ensures Interleave([lead] + more, [w] + ws) == lead + w + Interleave(more, ws)
  {
    assert ([lead] + more)[1..] == more;
    assert ([w] + ws)[1..] == ws;
  }

  lemma SeparatorsCons(lead: string, more: seq<string>, n: nat)
    requires AllWhitespace(lead) && Separators(more, n) && (n > 0 ==> more[0] != [])
    ensures Separators([lead] + more, n + 1)
  {
    assert forall i :: 0 < i < |more| + 1 ==> ([lead] + more)[i] == more[i - 1];
  }

  /** Between a word and the next one there is whitespace, so a text that starts with
      whitespace and has words has a non-empty first separator. */
  lemma FirstSeparatorNotEmpty(more: seq<string>, ws: seq<string>)
    requires Separators(more, |ws|) && IsWordList(ws) && ws != []
    requires var rest := Interleave(more, ws); rest == [] || IsWhitespace(rest[0])
    ensures more[0] != []
  {
  }

  lemma JoinThree(s: string, lead: string, t: string, w: string, rest: string)
    requires s == lead + t && t == w + rest
    ensures s == lead + w + rest
  {
  }

  /** The words of a line that does not start blank: its first word, then the words
      of what follows that word. */
  lemma WordsStep(s: string)
    requires TrimStart(s) != []
    ensures var t := TrimStart(s); var w := TakeWord(t);
            Words(s) == [w] + Words(t[|w|..])
  {
  }

  lemma SeparatorsStep(s: string, more: seq<string>)
    requires TrimStart(s) != []
    requires var t := TrimStart(s); var rest := t[|TakeWord(t)|..];
             Separators(more, |Words(rest)|) && Interleave(more, Words(rest)) == rest
    ensures Separators([s[..|s| - |TrimStart(s)|]] + more, |Words(s)|)
  {
    var t := TrimStart(s);
    var w := TakeWord(t);
    var rest := t[|w|..];
    WordsStep(s);
    TakeWordRest(t);
    SeparatorsAfterWord(s[..|s| - |t|], more, Words(rest));
  }

  /** What follows a word is empty or starts with whitespace. */
  lemma TakeWordRest(t: string)
    ensures var rest := t[|TakeWord(t)|..]; rest == [] || IsWhitespace(rest[0])
  {
    var w := TakeWord(t);
    assert |w| < |t| ==> t[|w|..][0] == t[|w|];
  }

  lemma SeparatorsAfterWord(lead: string, more: seq<string>, ws: seq<string>)
    requires AllWhitespace(lead) && Separators(more, |ws|) && IsWordList(ws)
    requires var rest := Interleave(more, ws); rest == [] || IsWhitespace(rest[0])
    ensures Separators([lead] + more, |ws| + 1)
  {
    if ws != [] {
      FirstSeparatorNotEmpty(more, ws);
    }
    SeparatorsCons(lead, more, |ws|);
  }

  lemma InterleaveStep(s: string, more: seq<string>)
    requires TrimStart(s) != []
    requires var t := TrimStart(s); var rest := t[|TakeWord(t)|..];
             |more| == |Words(rest)| + 1 && Interleave(more, Words(rest)) == rest
    ensures Interleave([s[..|s| - |TrimStart(s)|]] + more, Words(s)) == s
  {
    var t := TrimStart(s);
    var lead := s[..|s| - |t|];
    var w := TakeWord(t);
    var rest := t[|w|..];
    WordsStep(s);
    InterleaveCons(lead, more, w, Words(rest));
    SplitAt(s, |s| - |t|);
    SplitAt(t, |w|);
    JoinThree(s, lead, t, w, rest);
  }

  /** Every line is its own words interleaved with whitespace separators, so
      `WordsOfInterleave` says what `Words` gives for any line. */
  lemma {:induction false} SeparatorsOf(s: string) returns (seps: seq<string>)
    ensures Separators(seps, |Words(s)|) && Interleave(seps, Words(s)) == s
    decreases |s|
  {
    var t := TrimStart(s);
    if t == [] {
      TrimStartEmpty(s);
      seps := [s];
    } else {
      var more := SeparatorsOf(t[|TakeWord(t)|..]);
      SeparatorsStep(s, more);
      InterleaveStep(s, more);
      seps := [s[..|s| - |t|]] + more;
    }
  }

  lemma {:induction false} InterleaveAppend(seps: seq<string>, ws: seq<string>, b: string)
    requires |seps| == |ws| + 1
    ensures Interleave(seps, ws) + b == Interleave(seps[..|ws|] + [seps[|ws|] + b], ws)
    decreases |ws|
  {
    var more := seps[..|ws|] + [seps[|ws|] + b];
    if ws != [] {
      var tail := Interleave(seps[1..], ws[1..]);
      InterleaveAppend(seps[1..], ws[1..], b);
      assert more[0] == seps[0];
      assert more[1..] == seps[1..][..|ws| - 1] + [seps[1..][|ws| - 1] + b];
      assert Interleave(more, ws) == seps[0] + ws[0] + (tail + b);
      JoinFour(seps[0], ws[0], tail, b);
    }
  }

  lemma JoinFour(a: string, w: string, x: string, b: string)
    ensures a + w + x + b == a + w + (x + b)
  {
  }

  lemma AllWhitespaceJoin(x: string, y: string)
    requires AllWhitespace(x) && AllWhitespace(y)
    ensures AllWhitespace(x + y)
  {
    assert forall i :: |x| <= i < |x + y| ==> (x + y)[i] == y[i - |x|];
  }

  /** Whitespace added to the last separator leaves the separators valid. */
  lemma SeparatorsExtend(seps: seq<string>, n: nat, b: string)
    requires Separators(seps, n) && AllWhitespace(b)
    ensures Separators(seps[..n] + [seps[n] + b], n)
  {
    var more := seps[..n] + [seps[n] + b];
    AllWhitespaceJoin(seps[n], b);
    assert forall i :: 0 <= i < n ==> more[i] == seps[i];
  }

  lemma WordsBeforeWhitespace(y: string, b: string)
    requires AllWhitespace(b)
    ensures Words(y + b) == Words(y)
  {
    var ws := Words(y);
    var seps := SeparatorsOf(y);
    InterleaveAppend(seps, ws, b);
    SeparatorsExtend(seps, |ws|, b);
    WordsOfInterleave(seps[..|ws|] + [seps[|ws|] + b], ws);
  }

  /** Trimming a line does not change its words. */
  lemma WordsOfTrim(s: string)
    ensures Words(Trim(s)) == Words(s)
  {
    var t := TrimStart(s);
    var r := TrimEnd(t);
    SplitAt(s, |s| - |t|);
    WordsAfterWhitespace(s[..|s| - |t|], t);
    SplitAt(t, |r|);
    WordsBeforeWhitespace(r, t[|r|..]);
  }
}
