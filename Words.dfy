/** Python's `str.split()` with no argument and `' '.join(words)`, the two
    string operations the tweet splitter is built from. */
module Words {

  /** `c.isspace()`: the characters `str.split()` treats as separators. */
  predicate IsSpace(c: char)
  {
    var n := c as int;
    (0x09 <= n <= 0x0D) || (0x1C <= n <= 0x20) || n == 0x85 || n == 0xA0 || n == 0x1680
    || (0x2000 <= n <= 0x200A) || n == 0x2028 || n == 0x2029 || n == 0x202F || n == 0x205F
    || n == 0x3000
  }

  /** A word as `str.split()` yields it: non-empty and free of whitespace. */
  predicate IsWord(w: string)
  {
    |w| > 0 && forall i :: 0 <= i < |w| ==> !IsSpace(w[i])
  }

  predicate AllWords(ws: seq<string>)
  {
    forall i :: 0 <= i < |ws| ==> IsWord(ws[i])
  }

  predicate AllSpace(s: string)
  {
    forall i :: 0 <= i < |s| ==> IsSpace(s[i])
  }

  /** The length of the longest whitespace-free prefix of `s`. */
  function WordLength(s: string): (n: nat)
    ensures n <= |s|
    ensures forall i :: 0 <= i < n ==> !IsSpace(s[i])
    ensures n < |s| ==> IsSpace(s[n])
  {
    if s == [] || IsSpace(s[0]) then 0 else 1 + WordLength(s[1..])
  }

  /** `s.split()`: the maximal runs of non-whitespace, left to right. */
  function Split(s: string): (ws: seq<string>)
    ensures AllWords(ws)
    decreases |s|
  {
    if s == [] then []
    else if IsSpace(s[0]) then Split(s[1..])
    else
      var n := WordLength(s);
      [s[..n]] + Split(s[n..])
  }

  /** `' '.join(ws)`. */
  function Join(ws: seq<string>): string
  {
    if ws == [] then ""
    else if |ws| == 1 then ws[0]
    else Join(ws[..|ws| - 1]) + " " + ws[|ws| - 1]
  }

  /** The words of each chunk, concatenated in chunk order. */
  function WordsOf(chunks: seq<string>): seq<string>
  {
    if chunks == [] then []
    else WordsOf(chunks[..|chunks| - 1]) + Split(chunks[|chunks| - 1])
  }

  lemma WordsOfAppend(chunks: seq<string>, c: string)
    ensures WordsOf(chunks + [c]) == WordsOf(chunks) + Split(c)
  {
    assert (chunks + [c])[..|chunks|] == chunks;
  }

  /** Joining a non-empty run of words and a further word adds one space. */
  lemma JoinAppend(ws: seq<string>, w: string)
    requires ws != []
    ensures Join(ws + [w]) == Join(ws) + " " + w
  {
    assert (ws + [w])[..|ws|] == ws;
  }

  lemma JoinNonEmpty(ws: seq<string>)
    requires AllWords(ws) && ws != []
    ensures |Join(ws)| > 0
  {
    if |ws| == 1 {
      assert IsWord(ws[0]);
    }
  }

  lemma {:induction false} WordLengthConcat(a: string, c: string)
    ensures WordLength(a + c) == if WordLength(a) < |a| then WordLength(a) else |a| + WordLength(c)
  {
    if a == [] {
      assert a + c == c;
    } else if IsSpace(a[0]) {
    } else {
      assert (a + c)[1..] == a[1..] + c;
      WordLengthConcat(a[1..], c);
    }
  }

  /** Splitting around one separating space splits each side on its own. */
  lemma {:induction false} SplitAroundSpace(a: string, b: string)
    ensures Split(a + " " + b) == Split(a) + Split(b)
    decreases |a|
  {
    var s := a + " " + b;
    if a == [] {
      assert s[1..] == b;
    } else if IsSpace(a[0]) {
      assert s[1..] == a[1..] + " " + b;
      SplitAroundSpace(a[1..], b);
    } else {
      WordLengthConcat(a, " " + b);
      assert a + (" " + b) == s;
      var n := WordLength(a);
      if n == |a| {
        assert WordLength(" " + b) == 0;
      }
      assert WordLength(s) == n;
      assert s[..n] == a[..n];
      assert s[n..] == a[n..] + " " + b;
      SplitAroundSpace(a[n..], b);
    }
  }

  lemma WordsTail(words: seq<string>)
    requires AllWords(words) && words != []
    ensures IsWord(words[0]) && AllWords(words[1..])
  {
    forall i | 0 <= i < |words[1..]| ensures IsWord(words[1..][i]) { assert words[1..][i] == words[i + 1]; }
  }

  lemma WordsAppend(ws: seq<string>, w: string)
    requires AllWords(ws) && IsWord(w)
    ensures AllWords(ws + [w])
  {
    forall i | 0 <= i < |ws + [w]| ensures IsWord((ws + [w])[i]) {
      if i < |ws| { assert (ws + [w])[i] == ws[i]; }
    }
  }

  /** Text followed by a part that starts with a space splits as the two
      parts do on their own. */
  lemma SplitBeforeSpace(a: string, b: string)
    requires |b| > 0 && b[0] == ' '
    ensures Split(a + b) == Split(a) + Split(b)
  {
    var r := b[1..];
    assert b == "" + " " + r;
    assert a + b == a + " " + r;
    SplitAroundSpace(a, r);
    SplitAroundSpace("", r);
  }

  lemma SplitWord(w: string)
    requires IsWord(w)
    ensures Split(w) == [w]
  {
    assert WordLength(w) == |w|;
    assert w[..|w|] == w;
    assert w[|w|..] == [];
  }

  /** Splitting words joined by single spaces gives those words back. */
  lemma {:induction false} SplitJoin(ws: seq<string>)
    requires AllWords(ws)
    ensures Split(Join(ws)) == ws
  {
    if ws == [] {
    } else if |ws| == 1 {
      SplitWord(ws[0]);
    } else {
      var init := ws[..|ws| - 1];
      assert AllWords(init) by {
        forall i | 0 <= i < |init| ensures IsWord(init[i]) { assert init[i] == ws[i]; }
      }
      SplitJoin(init);
      SplitAroundSpace(Join(init), ws[|ws| - 1]);
      SplitWord(ws[|ws| - 1]);
      assert init + [ws[|ws| - 1]] == ws;
    }
  }

  /** `s.split()` is empty exactly when `s` consists of whitespace only. */
  lemma {:induction false} SplitEmptyIff(s: string)
    ensures Split(s) == [] <==> AllSpace(s)
    decreases |s|
  {
    if s == [] {
    } else if IsSpace(s[0]) {
      SplitEmptyIff(s[1..]);
      if AllSpace(s[1..]) {
        forall i | 0 <= i < |s| ensures IsSpace(s[i]) {
          if i > 0 { assert s[i] == s[1..][i - 1]; }
        }
      }
      if AllSpace(s) {
        forall i | 0 <= i < |s[1..]| ensures IsSpace(s[1..][i]) { assert s[1..][i] == s[i + 1]; }
      }
    } else {
      assert !IsSpace(s[0]);
    }
  }
}
