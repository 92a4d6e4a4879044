/** The string operations the classifier and the body clean-up rely on:
    Python's whitespace test, lower-casing, the `in` substring test, and the
    strip-then-collapse normalisation of a message body, together with an
    independent word-level description of that normalisation. */
module Text {

  /** Python's `str.isspace()` on one character; the regular expression `\s`
      of a `str` pattern and `str.strip()` use the same set. */
  predicate IsSpace(c: char) {
    SpaceFrom(c, 0)
  }

  /** The 29 characters Python counts as whitespace. */
  const Whitespace: string := [
    '\t', '\n', '\U{B}', '\U{C}', '\r', '\U{1C}', '\U{1D}', '\U{1E}', '\U{1F}', ' ',
    '\U{85}', '\U{A0}', '\U{1680}',
    '\U{2000}', '\U{2001}', '\U{2002}', '\U{2003}', '\U{2004}', '\U{2005}',
    '\U{2006}', '\U{2007}', '\U{2008}', '\U{2009}', '\U{200A}',
    '\U{2028}', '\U{2029}', '\U{202F}', '\U{205F}', '\U{3000}'
  ]

  /** c is one of Whitespace[k..]. */
  predicate SpaceFrom(c: char, k: nat)
    decreases |Whitespace| - k
  {
    k < |Whitespace| && (Whitespace[k] == c || SpaceFrom(c, k + 1))
  }

  /** Lower-casing of one character (ASCII letters only). */
  function LowerChar(c: char): char {
    if 'A' <= c <= 'Z' then (c as int + 32) as char else c
  }

  /** `s.lower()`, character by character. */
  function Lower(s: string): string {
    seq(|s|, i requires 0 <= i < |s| => LowerChar(s[i]))
  }

  /** Lower-casing commutes with concatenation. */
  lemma LowerAppend(a: string, b: string)
    ensures Lower(a + b) == Lower(a) + Lower(b)
  {
    assert forall i :: 0 <= i < |a + b| ==> Lower(a + b)[i] == (Lower(a) + Lower(b))[i];
  }

  /** Lower-casing twice is lower-casing once. */
  lemma LowerIdempotent(s: string)
    ensures Lower(Lower(s)) == Lower(s)
  {
  }

  /** The string k occurs in t starting at index i. */
  predicate OccursAt(k: string, t: string, i: int) {
    0 <= i && i + |k| <= |t| && t[i..i + |k|] == k
  }

  /** Python's `k in t` for two strings, searching from the left. */
  predicate Occurs(k: string, t: string)
    decreases |t|
  {
    || (|k| <= |t| && t[..|k|] == k)
    || (t != [] && Occurs(k, t[1..]))
  }

  /** Moving the search start one character to the right. */
  lemma OccursAtShift(k: string, t: string, i: int)
    requires t != [] && 1 <= i
    ensures OccursAt(k, t, i) <==> OccursAt(k, t[1..], i - 1)
  {
    if i + |k| <= |t| {
      assert t[1..][i - 1..i - 1 + |k|] == t[i..i + |k|];
    }
  }

  /** The search finds k exactly when k is a substring of t at some index. */
  lemma {:induction false} OccursIff(k: string, t: string)
    ensures Occurs(k, t) <==> exists i :: OccursAt(k, t, i)
    decreases |t|
  {
    if t != [] {
      OccursIff(k, t[1..]);
    }
    if Occurs(k, t) {
      if |k| <= |t| && t[..|k|] == k {
        assert OccursAt(k, t, 0);
      } else {
        var j :| OccursAt(k, t[1..], j);
        OccursAtShift(k, t, j + 1);
      }
    }
    if exists i :: OccursAt(k, t, i) {
      var i :| OccursAt(k, t, i);
      if i > 0 {
        OccursAtShift(k, t, i);
      }
    }
  }

  /** `s.lstrip()`: s without its leading whitespace. */
  function DropSpaces(s: string): (r: string)
    ensures |r| <= |s| && r == s[|s| - |r|..]
    ensures forall i {:trigger IsSpace(s[i])} :: 0 <= i < |s| - |r| ==> IsSpace(s[i])
    ensures r == [] || !IsSpace(r[0])
  {
    if s != [] && IsSpace(s[0]) then
      var r := DropSpaces(s[1..]);
      assert s[1..][|s| - 1 - |r|..] == s[|s| - |r|..];
      assert forall i :: 1 <= i < |s| - |r| ==> s[i] == s[1..][i - 1];
      r
    else s
  }

  /** `s.rstrip()`: s without its trailing whitespace. */
  function TrimEnd(s: string): (r: string)
    ensures |r| <= |s| && r == s[..|r|]
    ensures forall i {:trigger IsSpace(s[i])} :: |r| <= i < |s| ==> IsSpace(s[i])
    ensures r == [] || !IsSpace(r[|r| - 1])
  {
    if s != [] && IsSpace(s[|s| - 1]) then
      var r := TrimEnd(s[..|s| - 1]);
      assert s[..|s| - 1][..|r|] == s[..|r|];
      assert forall i :: |r| <= i < |s| - 1 ==> s[i] == s[..|s| - 1][i];
      r
    else s
  }

  /** `s.strip()`. */
  function Strip(s: string): string {
    TrimEnd(DropSpaces(s))
  }

  /** `re.sub(r'\s+', ' ', s)`: each maximal run of whitespace becomes one space. */
  function Collapse(s: string): string
    decreases |s|
  {
    if s == [] then ""
    else if IsSpace(s[0]) then " " + Collapse(DropSpaces(s[1..]))
    else [s[0]] + Collapse(s[1..])
  }

  /** `re.sub(r'\s+', ' ', s.strip())`, the clean-up applied to every body. */
  function Normalize(s: string): string {
    Collapse(Strip(s))
  }

  // ---------------------------------------------------------------------
  // A word-level reference: split on whitespace, join with single spaces.

  /** Length of the run of non-whitespace characters that starts s. */
  function WordLength(s: string): (n: nat)
    ensures n <= |s|
    ensures forall i {:trigger IsSpace(s[i])} :: 0 <= i < n ==> !IsSpace(s[i])
    ensures n == |s| || IsSpace(s[n])
  {
    if s == [] || IsSpace(s[0]) then 0 else 1 + WordLength(s[1..])
  }

  /** The whitespace-separated words of s, in order (Python's `s.split()`). */
  function Words(s: string): seq<string>
    decreases |s|
  {
    var t := DropSpaces(s);
    if t == [] then []
    else
      var n := WordLength(t);
      [t[..n]] + Words(t[n..])
  }

  /** The words joined by single spaces (Python's `' '.join(ws)`). */
  function Join(ws: seq<string>): string {
    if ws == [] then ""
    else if |ws| == 1 then ws[0]
    else ws[0] + " " + Join(ws[1..])
  }

  /** A non-empty string without whitespace. */
  predicate IsWord(w: string) {
    w != [] && forall i {:trigger IsSpace(w[i])} :: 0 <= i < |w| ==> !IsSpace(w[i])
  }

  predicate AllSpace(s: string) {
    forall i {:trigger IsSpace(s[i])} :: 0 <= i < |s| ==> IsSpace(s[i])
  }

  /** A normalised string: no whitespace at either end, the only whitespace
      character is the plain space, and no two whitespace characters are
      adjacent. */
  predicate IsNormal(r: string) {
    && (r == [] || (!IsSpace(r[0]) && !IsSpace(r[|r| - 1])))
    && (forall i :: 0 <= i < |r| && IsSpace(r[i]) ==> r[i] == ' ')
    && (forall i :: 0 <= i < |r| - 1 ==> !IsSpace(r[i]) || !IsSpace(r[i + 1]))
  }

  /** Every element of ws is a word. */
  predicate AllWords(ws: seq<string>) {
    forall j :: 0 <= j < |ws| ==> IsWord(ws[j])
  }

  lemma AllWordsCons(w: string, ws: seq<string>)
    requires IsWord(w) && AllWords(ws)
    ensures AllWords([w] + ws)
  {
    assert forall j :: 1 <= j <= |ws| ==> ([w] + ws)[j] == ws[j - 1];
  }

  /** Every element of Words(s) is a word. */
  lemma {:induction false} WordsAreWords(s: string)
    ensures AllWords(Words(s))
    decreases |s|
  {
    var t := DropSpaces(s);
    if t != [] {
      var n := WordLength(t);
      WordsUnfold(s);
      WordsAreWords(t[n..]);
      assert IsWord(t[..n]);
      AllWordsCons(t[..n], Words(t[n..]));
    }
  }

  /** The first word of s and the rest of s after it. */
  lemma WordsUnfold(s: string)
    requires DropSpaces(s) != []
    ensures var t := DropSpaces(s); var n := WordLength(t);
      && 0 < n <= |t|
      && Words(s) == [t[..n]] + Words(t[n..])
  {
  }

  /** Collapse copies a leading word unchanged. */
  lemma {:induction false} CollapseWord(w: string, r: string)
    requires forall i {:trigger IsSpace(w[i])} :: 0 <= i < |w| ==> !IsSpace(w[i])
    ensures Collapse(w + r) == w + Collapse(r)
    decreases |w|
  {
    if w != [] {
      assert (w + r)[1..] == w[1..] + r;
      CollapseWord(w[1..], r);
    } else {
      assert w + r == r;
    }
  }

  /** A run of whitespace at the front becomes one space and separates no word. */
  lemma CollapseSpaceRun(r: string)
    requires r != [] && IsSpace(r[0])
    ensures Collapse(r) == " " + Collapse(DropSpaces(r))
  {
    assert DropSpaces(r) == DropSpaces(r[1..]);
  }

  /** A run of whitespace at the front separates no word. */
  lemma WordsSpaceRun(r: string)
    requires r != [] && IsSpace(r[0])
    ensures Words(r) == Words(DropSpaces(r))
  {
    assert DropSpaces(DropSpaces(r)) == DropSpaces(r);
  }

  /** Slicing a concatenation inside its first operand. */
  lemma SliceAppend<T>(a: seq<T>, b: seq<T>, n: nat)
    requires n <= |a|
    ensures (a + b)[..n] == a[..n]
    ensures (a + b)[n..] == a[n..] + b
  {
  }

  lemma SeqAssoc<T>(a: seq<T>, b: seq<T>, c: seq<T>)
    ensures a + (b + c) == a + b + c
  {
  }

  /** Leading whitespace removal keeps a non-space last character. */
  lemma DropSpacesKeepsLast(r: string)
    requires r != [] && !IsSpace(r[|r| - 1])
    ensures DropSpaces(r) != [] && DropSpaces(r)[|DropSpaces(r)| - 1] == r[|r| - 1]
  {
    var r' := DropSpaces(r);
  }

  /** Joining a word in front of a non-empty list puts one space between. */
  lemma JoinCons(w: string, ws: seq<string>)
    requires ws != []
    ensures Join([w] + ws) == w + " " + Join(ws)
  {
    assert ([w] + ws)[1..] == ws;
  }

  /** Collapse copies the first word of s and continues after it. */
  lemma CollapseSplit(s: string)
    ensures Collapse(s) == s[..WordLength(s)] + Collapse(s[WordLength(s)..])
  {
    var n := WordLength(s);
    assert s == s[..n] + s[n..];
    CollapseWord(s[..n], s[n..]);
  }

  /** One step of CollapseTrimmed: a run of whitespace, then a rest on which
      Collapse already joins the words. */
  lemma CollapseStep(w: string, r: string)
    requires r != [] && IsSpace(r[0]) && DropSpaces(r) != []
    requires Collapse(DropSpaces(r)) == Join(Words(DropSpaces(r)))
    ensures w + Collapse(r) == Join([w] + Words(r))
  {
    var r' := DropSpaces(r);
    CollapseSpaceRun(r);
    WordsSpaceRun(r);
    assert DropSpaces(r') == r';
    WordsUnfold(r');
    JoinCons(w, Words(r'));
    SeqAssoc(w, " ", Collapse(r'));
  }

  /** The inductive step of CollapseTrimmed, with the induction hypothesis
      about the rest after the first word and its whitespace as a requirement. */
  lemma CollapseTrimmedStep(t: string)
    requires t != [] && !IsSpace(t[0])
    requires var r := t[WordLength(t)..];
      r == [] || (DropSpaces(r) != [] && Collapse(DropSpaces(r)) == Join(Words(DropSpaces(r))))
    ensures Collapse(t) == Join(Words(t))
  {
    var n := WordLength(t);
    CollapseSplit(t);
    assert DropSpaces(t) == t;
    WordsUnfold(t);
    var r := t[n..];
    if r == [] {
      assert Words(r) == [];
      assert Collapse(r) == [];
    } else {
      CollapseStep(t[..n], r);
    }
  }

  /** On a string with no whitespace at either end, Collapse joins its words. */
  lemma {:induction false} CollapseTrimmed(t: string)
    requires t == [] || (!IsSpace(t[0]) && !IsSpace(t[|t| - 1]))
    ensures Collapse(t) == Join(Words(t))
    decreases |t|
  {
    if t != [] {
      var r := t[WordLength(t)..];
      if r != [] {
        assert r[|r| - 1] == t[|t| - 1];
        DropSpacesKeepsLast(r);
        CollapseTrimmed(DropSpaces(r));
      }
      CollapseTrimmedStep(t);
    }
  }

  /** Trailing whitespace does not change where leading whitespace ends. */
  lemma {:induction false} DropSpacesAppend(t: string, sp: string)
    requires AllSpace(sp)
    ensures DropSpaces(t + sp) == if DropSpaces(t) == [] then [] else DropSpaces(t) + sp
    decreases |t|
  {
    if t == [] {
      assert t + sp == sp;
      DropSpacesAllSpace(sp);
    } else {
      SliceAppend(t, sp, 1);
      assert (t + sp)[0] == t[0];
      if IsSpace(t[0]) {
        DropSpacesAppend(t[1..], sp);
      }
    }
  }

  lemma {:induction false} DropSpacesAllSpace(sp: string)
    requires AllSpace(sp)
    ensures DropSpaces(sp) == []
  {
  }

  /** Trailing whitespace does not lengthen the first word. */
  lemma {:induction false} WordLengthAppend(d: string, sp: string)
    requires AllSpace(sp)
    ensures WordLength(d + sp) == WordLength(d)
    decreases |d|
  {
    if d == [] {
      assert d + sp == sp;
    } else if !IsSpace(d[0]) {
      assert (d + sp)[1..] == d[1..] + sp;
      WordLengthAppend(d[1..], sp);
    }
  }

  /** Trailing whitespace adds no word. */
  lemma {:induction false} WordsAppendSpaces(t: string, sp: string)
    requires AllSpace(sp)
    ensures Words(t + sp) == Words(t)
    decreases |t|
  {
    DropSpacesAppend(t, sp);
    var d := DropSpaces(t);
    if d != [] {
      var n := WordLength(d);
      WordLengthAppend(d, sp);
      SliceAppend(d, sp, n);
      WordsAppendSpaces(d[n..], sp);
    }
  }

  /** Leading whitespace adds no word. */
  lemma WordsDropSpaces(s: string)
    ensures Words(DropSpaces(s)) == Words(s)
  {
    var d := DropSpaces(s);
    assert DropSpaces(d) == d;
  }

  /** A string is its right-stripped part followed by whitespace. */
  lemma TrimEndSplit(d: string)
    ensures var u := TrimEnd(d); d == u + d[|u|..] && AllSpace(d[|u|..])
  {
    var u := TrimEnd(d);
    var sp := d[|u|..];
    forall i | 0 <= i < |sp|
      ensures IsSpace(sp[i])
    {
      assert sp[i] == d[|u| + i];
    }
  }

  /** Stripping a string keeps its words. */
  lemma WordsStrip(s: string)
    ensures Words(Strip(s)) == Words(s)
  {
    var d := DropSpaces(s);
    var u := TrimEnd(d);
    TrimEndSplit(d);
    WordsAppendSpaces(u, d[|u|..]);
    WordsDropSpaces(s);
  }

  /** The clean-up is exactly "split into words, join with single spaces". */
  lemma NormalizeIsJoinWords(s: string)
    ensures Normalize(s) == Join(Words(s))
  {
    var u := Strip(s);
    if u != [] {
      var d := DropSpaces(s);
      assert u[0] == d[0];
    }
    CollapseTrimmed(u);
    WordsStrip(s);
  }

  // ---------------------------------------------------------------------
  // Shape of a normalised body, and the round trip between Words and Join.

  /** The plain space is whitespace. */
  lemma SpaceIsSpace()
    ensures IsSpace(' ')
  {
    SpaceFromListed(' ', 0, 9);
  }

  /** A character listed at or after position k is found by SpaceFrom(c, k). */
  lemma {:induction false} SpaceFromListed(c: char, k: nat, i: nat)
    requires k <= i < |Whitespace| && Whitespace[i] == c
    ensures SpaceFrom(c, k)
    decreases i - k
  {
    if k < i {
      SpaceFromListed(c, k + 1, i);
    }
  }

  /** A string of non-whitespace characters is a single word. */
  lemma {:induction false} WordLengthWord(w: string, rest: string)
    requires forall i {:trigger IsSpace(w[i])} :: 0 <= i < |w| ==> !IsSpace(w[i])
    requires rest == [] || IsSpace(rest[0])
    ensures WordLength(w + rest) == |w|
    decreases |w|
  {
    if w == [] {
      assert w + rest == rest;
    } else {
      SliceAppend(w, rest, 1);
      assert (w + rest)[0] == w[0];
      WordLengthWord(w[1..], rest);
    }
  }

  /** Joining words never gives the empty string. */
  lemma JoinNonEmpty(ws: seq<string>)
    requires ws != [] && AllWords(ws)
    ensures Join(ws) != [] && Join(ws)[0] == ws[0][0]
  {
  }

  /** The characters of w + " " + j by position. */
  lemma ConsAt(w: string, j: string, i: int)
    requires 0 <= i < |w| + 1 + |j|
    ensures (w + " " + j)[i] == if i < |w| then w[i] else if i == |w| then ' ' else j[i - |w| - 1]
  {
  }

  /** A word, a space and a normalised non-empty string form a normalised string. */
  lemma NormalCons(w: string, j: string)
    requires IsWord(w) && IsNormal(j) && j != []
    ensures IsNormal(w + " " + j)
  {
    SpaceIsSpace();
    var x := w + " " + j;
    var n := |w|;
    ConsAt(w, j, 0);
    ConsAt(w, j, |x| - 1);
    forall i | 0 <= i < |x| && IsSpace(x[i])
      ensures x[i] == ' '
    {
      ConsAt(w, j, i);
    }
    forall i | 0 <= i < |x| - 1
      ensures !IsSpace(x[i]) || !IsSpace(x[i + 1])
    {
      ConsAt(w, j, i);
      ConsAt(w, j, i + 1);
      if i < n - 1 {
        assert !IsSpace(w[i]);
      } else if i == n - 1 {
        assert !IsSpace(w[i]);
      } else if i == n {
        assert x[i + 1] == j[0];
      } else {
        assert x[i] == j[i - n - 1] && x[i + 1] == j[i - n];
      }
    }
  }

  /** Joining words with single spaces gives a normalised string. */
  lemma {:induction false} JoinNormal(ws: seq<string>)
    requires AllWords(ws)
    ensures IsNormal(Join(ws))
    decreases |ws|
  {
    if |ws| == 1 {
      assert IsWord(ws[0]);
    } else if |ws| > 1 {
      assert IsWord(ws[0]);
      assert AllWords(ws[1..]);
      JoinNormal(ws[1..]);
      JoinNonEmpty(ws[1..]);
      NormalCons(ws[0], Join(ws[1..]));
    }
  }

  /** Every body that comes out of Normalize is normalised: no whitespace at
      either end, only plain spaces, never two in a row. */
  lemma NormalizeShape(s: string)
    ensures IsNormal(Normalize(s))
  {
    NormalizeIsJoinWords(s);
    WordsAreWords(s);
    JoinNormal(Words(s));
  }

  /** A single word splits into itself. */
  lemma WordsOfWord(w: string)
    requires IsWord(w)
    ensures Words(w) == [w]
  {
    assert w + [] == w;
    WordLengthWord(w, []);
    assert DropSpaces(w) == w;
    WordsUnfold(w);
    assert w[..|w|] == w;
    assert Words(w[|w|..]) == [];
  }

  /** A word, a space and a normalised rest split into the word and the
      words of the rest. */
  lemma WordsOfCons(w: string, j: string)
    requires IsWord(w) && j != [] && !IsSpace(j[0])
    ensures Words(w + " " + j) == [w] + Words(j)
  {
    var rest := " " + j;
    var x := w + rest;
    assert w + " " + j == x;
    assert IsSpace(rest[0]) by { SpaceIsSpace(); }
    assert DropSpaces(x) == x by {
      assert x[0] == w[0];
    }
    assert WordLength(x) == |w| by {
      WordLengthWord(w, rest);
    }
    assert x[..|w|] == w && x[|w|..] == rest by {
      SliceAppend(w, rest, |w|);
    }
    assert Words(x) == [w] + Words(rest) by {
      WordsUnfold(x);
    }
    assert Words(rest) == Words(j) by {
      WordsSpaceRun(rest);
      assert rest[1..] == j;
      assert DropSpaces(rest) == j;
    }
  }

  /** The inductive step of WordsJoin, with the induction hypothesis about
      the tail as a requirement. */
  lemma WordsJoinStep(w: string, rest: seq<string>)
    requires IsWord(w) && rest != []
    requires Join(rest) != [] && !IsSpace(Join(rest)[0])
    requires Words(Join(rest)) == rest
    ensures Words(Join([w] + rest)) == [w] + rest
  {
    JoinCons(w, rest);
    WordsOfCons(w, Join(rest));
  }

  /** Splitting a joined list of words gives the list back. */
  lemma {:induction false} WordsJoin(ws: seq<string>)
    requires AllWords(ws)
    ensures Words(Join(ws)) == ws
    decreases |ws|
  {
    if ws == [] {
      assert Words("") == [];
    } else if |ws| == 1 {
      WordsOfWord(ws[0]);
    } else {
      var rest := ws[1..];
      assert ws == [ws[0]] + rest;
      assert AllWords(rest);
      assert IsWord(ws[0]) && IsWord(rest[0]);
      JoinNonEmpty(rest);
      WordsJoin(rest);
      WordsJoinStep(ws[0], rest);
    }
  }

  /** Normalising twice is normalising once. */
  lemma NormalizeIdempotent(s: string)
    ensures Normalize(Normalize(s)) == Normalize(s)
  {
    NormalizeIsJoinWords(s);
    NormalizeIsJoinWords(Normalize(s));
    WordsAreWords(s);
    WordsJoin(Words(s));
  }
}
