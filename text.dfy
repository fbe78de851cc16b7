/** Python's string primitives that the service relies on: `str.split()` with no
    argument, `str.split('\n')`, `sep.join(parts)` and `str.strip()`. */
module Text {

  /** `str.isspace()` for one character: the characters that `split()` and
      `strip()` treat as whitespace. */
  predicate IsSpace(c: char) {
    c == ' ' || ('\t' <= c <= '\r') || ('\U{1C}' <= c <= '\U{1F}')
    || c == '\U{85}' || c == '\U{A0}' || c == '\U{1680}'
    || ('\U{2000}' <= c <= '\U{200A}') || c == '\U{2028}' || c == '\U{2029}'
    || c == '\U{202F}' || c == '\U{205F}' || c == '\U{3000}'
  }

  /** A token of `split()`: non-empty and free of whitespace. */
  predicate IsWord(w: string) {
    |w| > 0 && forall i :: 0 <= i < |w| ==> !IsSpace(w[i])
  }

  predicate AllWords(ws: seq<string>) {
    forall i :: 0 <= i < |ws| ==> IsWord(ws[i])
  }

  /** Length of the longest whitespace-free prefix of `s`. */
  function WordLen(s: string): (n: nat)
    ensures n <= |s|
    ensures forall i :: 0 <= i < n ==> !IsSpace(s[i])
    ensures n < |s| ==> IsSpace(s[n])
  {
    if s == [] || IsSpace(s[0]) then 0 else 1 + WordLen(s[1..])
  }

  /** `s.split()`: the maximal runs of non-whitespace characters, in order. */
  function Split(s: string): (ws: seq<string>)
    ensures AllWords(ws)
    decreases |s|
  {
    if s == [] then []
    else if IsSpace(s[0]) then Split(s[1..])
    else
      var n := WordLen(s);
      [s[..n]] + Split(s[n..])
  }

  /** `sep.join(parts)`. */
  function Join(sep: string, parts: seq<string>): string
  {
    if |parts| == 0 then ""
    else if |parts| == 1 then parts[0]
    else parts[0] + sep + Join(sep, parts[1..])
  }

  /** The tokens of every part, in order. */
  function SplitAll(parts: seq<string>): seq<string>
  {
    if parts == [] then [] else Split(parts[0]) + SplitAll(parts[1..])
  }

  function Flatten<T>(xss: seq<seq<T>>): seq<T>
  {
    if xss == [] then [] else xss[0] + Flatten(xss[1..])
  }

  function TrimStart(s: string): string
  {
    if s != [] && IsSpace(s[0]) then TrimStart(s[1..]) else s
  }

  function TrimEnd(s: string): string
  {
    if s != [] && IsSpace(s[|s| - 1]) then TrimEnd(s[..|s| - 1]) else s
  }

  /** `s.strip()`. */
  function Strip(s: string): string
  {
    TrimEnd(TrimStart(s))
  }

  /** `s.split(sep)` for a one-character separator: always at least one part,
      empty parts kept, no part contains the separator. */
  function SplitOn(s: string, sep: char): (parts: seq<string>)
    ensures |parts| >= 1
    ensures forall i :: 0 <= i < |parts| ==> sep !in parts[i]
  {
    if s == [] then [""]
    else
      var rest := SplitOn(s[1..], sep);
      if s[0] == sep then [""] + rest
      else [[s[0]] + rest[0]] + rest[1..]
  }

  lemma {:induction false} WordLenConcat(a: string, b: string)
    requires b == [] || IsSpace(b[0]) || (a != [] && IsSpace(a[|a| - 1]))
    ensures WordLen(a + b) == WordLen(a)
    decreases |a|
  {
    if a == [] {
      assert a + b == b;
    } else if !IsSpace(a[0]) {
      assert (a + b)[1..] == a[1..] + b;
      WordLenConcat(a[1..], b);
    }
  }

  /** The seam of `a + b` is whitespace or one side is empty. */
  predicate SpaceSeam(a: string, b: string)
  {
    a == [] || b == [] || IsSpace(a[|a| - 1]) || IsSpace(b[0])
  }

  /** Splitting distributes over a concatenation whose seam is whitespace. */
  lemma {:induction false} SplitConcat(a: string, b: string)
    requires SpaceSeam(a, b)
    ensures Split(a + b) == Split(a) + Split(b)
    decreases |a|, 1
  {
    if a == [] {
      assert a + b == b;
    } else if IsSpace(a[0]) {
      assert (a + b)[1..] == a[1..] + b;
      SplitConcat(a[1..], b);
    } else {
      SplitConcatWord(a, b);
    }
  }

  lemma {:induction false} AppendAssoc<T>(a: seq<T>, b: seq<T>, c: seq<T>)
    ensures a + (b + c) == (a + b) + c
  {
  }

  /** A token followed by whitespace (or nothing) splits off as one word. */
  lemma {:induction false} SplitPrefixWord(w: string, r: string)
    requires IsWord(w) && (r == [] || IsSpace(r[0]))
    ensures Split(w + r) == [w] + Split(r)
  {
    var s := w + r;
    assert WordLen(w) == |w|;
    WordLenConcat(w, r);
    assert s[0] == w[0];
    assert s[..|w|] == w && s[|w|..] == r;
  }

  /** The case of `SplitConcat` where `a` starts with a token. */
  lemma {:induction false} SplitConcatWord(a: string, b: string)
    requires a != [] && !IsSpace(a[0]) && SpaceSeam(a, b)
    ensures Split(a + b) == Split(a) + Split(b)
    decreases |a|, 0
  {
    var n := WordLen(a);
    var w, rest := a[..n], a[n..];
    assert a == w + rest;
    assert IsWord(w);
    SplitPrefixWord(w, rest);
    assert a + b == w + (rest + b);
    assert rest != [] ==> rest[|rest| - 1] == a[|a| - 1] && (rest + b)[0] == rest[0];
    SplitPrefixWord(w, rest + b);
    SplitConcat(rest, b);
    AppendAssoc([w], Split(rest), Split(b));
  }

  lemma {:induction false} SplitWord(w: string)
    requires IsWord(w)
    ensures Split(w) == [w]
  {
    assert WordLen(w) == |w|;
    assert w[..|w|] == w;
  }

  /** Joining with one whitespace character and splitting again yields the
      tokens of every part, in order. */
  lemma {:induction false} SplitJoin(sep: char, parts: seq<string>)
    requires IsSpace(sep)
    ensures Split(Join([sep], parts)) == SplitAll(parts)
  {
    if |parts| == 0 {
    } else if |parts| == 1 {
      assert SplitAll(parts) == Split(parts[0]) + SplitAll([]);
    } else {
      var rest := Join([sep], parts[1..]);
      assert Join([sep], parts) == parts[0] + ([sep] + rest);
      SplitConcat(parts[0], [sep] + rest);
      assert ([sep] + rest)[1..] == rest;
      SplitJoin(sep, parts[1..]);
    }
  }

  lemma {:induction false} SplitAllWords(ws: seq<string>)
    requires AllWords(ws)
    ensures SplitAll(ws) == ws
  {
    if ws != [] {
      SplitWord(ws[0]);
      SplitAllWords(ws[1..]);
    }
  }

  /** `' '.join(ws).split() == ws` for tokens `ws`. */
  lemma {:induction false} SplitJoinWords(ws: seq<string>)
    requires AllWords(ws)
    ensures Split(Join(" ", ws)) == ws
  {
    SplitJoin(' ', ws);
    SplitAllWords(ws);
  }

  /** `sep.join(s.split(sep)) == s`. */
  lemma {:induction false} JoinSplitOn(s: string, sep: char)
    ensures Join([sep], SplitOn(s, sep)) == s
  {
    if s != [] {
      var rest := SplitOn(s[1..], sep);
      JoinSplitOn(s[1..], sep);
      if s[0] == sep {
        assert ([""] + rest)[1..] == rest;
        assert s == [sep] + s[1..];
      } else {
        var parts := [[s[0]] + rest[0]] + rest[1..];
        if |rest| == 1 {
          assert s == [s[0]] + s[1..];
        } else {
          assert parts[1..] == rest[1..];
          assert s == [s[0]] + s[1..];
        }
      }
    }
  }

  /** A non-empty list of tokens joined by single spaces neither starts nor
      ends with whitespace. */
  lemma {:induction false} JoinWordsEnds(ws: seq<string>)
    requires AllWords(ws) && ws != []
    ensures var j := Join(" ", ws); |j| > 0 && !IsSpace(j[0]) && !IsSpace(j[|j| - 1])
  {
    if |ws| > 1 {
      JoinWordsEnds(ws[1..]);
      assert ws[0][0] == Join(" ", ws)[0];
    }
  }

  lemma {:induction false} StripUntouched(s: string)
    requires |s| > 0 && !IsSpace(s[0]) && !IsSpace(s[|s| - 1])
    ensures Strip(s) == s
  {
  }
}
