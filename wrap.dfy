/** Greedy wrapping of a caption into lines that fit a pixel width. The font is
    a width oracle `width`: the rendered pixel width of a string. */
module Wrap {
  import opened Text

  /** The width check's copy of a word: halved (keeping the first
      `len / 2` characters) until it is no wider than `maxWidth`. */
  function Halve(word: string, width: string -> nat, maxWidth: int): (h: string)
    requires width("") <= maxWidth
    ensures width(h) <= maxWidth
    ensures h <= word
    ensures width(word) <= maxWidth ==> h == word
    decreases |word|
  {
    if width(word) <= maxWidth then word
    else Halve(word[..|word| / 2], width, maxWidth)
  }

  /** `n` halved `k` times with floor division: the length of the word's
      `k`-th halving. */
  function Cut(n: nat, k: nat): (m: nat)
    ensures m <= n
    ensures k > 0 && n > 0 ==> m < n
  {
    if k == 0 then n else Cut(n / 2, k - 1)
  }

  /** How many times the halving loop cuts `word` before it fits. */
  function Halvings(word: string, width: string -> nat, maxWidth: int): nat
    requires width("") <= maxWidth
    decreases |word|
  {
    if width(word) <= maxWidth then 0 else 1 + Halvings(word[..|word| / 2], width, maxWidth)
  }

  /** The checked copy is the first of the word's successive halvings
      `word[..Cut(|word|, k)]` that fits: every earlier halving was too wide. */
  lemma {:induction false} HalveFirstFit(word: string, width: string -> nat, maxWidth: int)
    requires width("") <= maxWidth
    ensures var k := Halvings(word, width, maxWidth);
      && Halve(word, width, maxWidth) == word[..Cut(|word|, k)]
      && forall j: nat :: j < k ==> width(word[..Cut(|word|, j)]) > maxWidth
    decreases |word|
  {
    if width(word) <= maxWidth {
      assert word[..Cut(|word|, 0)] == word;
    } else {
      var w' := word[..|word| / 2];
      var k' := Halvings(w', width, maxWidth);
      HalveFirstFit(w', width, maxWidth);
      forall j: nat | j < k' + 1
        ensures width(word[..Cut(|word|, j)]) > maxWidth
      {
        if j == 0 {
          assert word[..Cut(|word|, 0)] == word;
        } else {
          assert w'[..Cut(|w'|, j - 1)] == word[..Cut(|word|, j)];
        }
      }
      assert w'[..Cut(|w'|, k')] == word[..Cut(|word|, k' + 1)];
    }
  }

  /** The line accumulator after appending the words `ws`, each followed by a
      space. */
  function Terminated(ws: seq<string>): string
  {
    if ws == [] then "" else ws[0] + " " + Terminated(ws[1..])
  }

  /** The test that lets the next word onto a line already holding `line`:
      the line so far followed by the halved copy of the word fits. */
  predicate Fits(line: seq<string>, word: string, width: string -> nat, maxWidth: int)
    requires width("") <= maxWidth
  {
    width(Terminated(line) + Halve(word, width, maxWidth)) <= maxWidth
  }

  /** How many of the pending words `rest` join a line already holding `line`. */
  function Take(line: seq<string>, rest: seq<string>, width: string -> nat, maxWidth: int): (k: nat)
    requires width("") <= maxWidth
    ensures k <= |rest|
    decreases |rest|
  {
    if rest == [] || !Fits(line, rest[0], width, maxWidth) then 0
    else 1 + Take(line + [rest[0]], rest[1..], width, maxWidth)
  }

  /** The words of each output line, in order. */
  function Lines(words: seq<string>, width: string -> nat, maxWidth: int): (lines: seq<seq<string>>)
    requires width("") <= maxWidth
    ensures |lines| <= |words|
    ensures forall i :: 0 <= i < |lines| ==> lines[i] != []
    ensures Flatten(lines) == words
    decreases |words|
  {
    if words == [] then []
    else
      var k := Take([], words, width, maxWidth);
      assert k >= 1 by {
        assert Terminated([]) + Halve(words[0], width, maxWidth) == Halve(words[0], width, maxWidth);
      }
      var rest := Lines(words[k..], width, maxWidth);
      assert words[..k] + words[k..] == words;
      assert ([words[..k]] + rest)[1..] == rest;
      [words[..k]] + rest
  }

  /** The first line takes at least one word, and the remaining lines wrap
      the words after it. */
  lemma {:induction false} LinesUnfold(words: seq<string>, width: string -> nat, maxWidth: int)
    requires width("") <= maxWidth
    requires words != []
    ensures var k := Take([], words, width, maxWidth);
      k >= 1 && Lines(words, width, maxWidth) == [words[..k]] + Lines(words[k..], width, maxWidth)
  {
    assert Terminated([]) + Halve(words[0], width, maxWidth) == Halve(words[0], width, maxWidth);
  }

  /** The text of each line: its words separated by single spaces. */
  function Render(lines: seq<seq<string>>): seq<string>
  {
    seq(|lines|, i requires 0 <= i < |lines| => Join(" ", lines[i]))
  }

  /** The wrapped caption: the rendered lines separated by newlines. */
  function Wrapped(text: string, width: string -> nat, maxWidth: int): string
    requires width("") <= maxWidth
  {
    Join("\n", Render(Lines(Split(text), width, maxWidth)))
  }

  lemma {:induction false} TerminatedSnoc(ws: seq<string>, w: string)
    ensures Terminated(ws + [w]) == Terminated(ws) + (w + " ")
  {
    if ws != [] {
      assert (ws + [w])[1..] == ws[1..] + [w];
      TerminatedSnoc(ws[1..], w);
    }
  }

  lemma {:induction false} TerminatedJoin(ws: seq<string>)
    requires ws != []
    ensures Terminated(ws) == Join(" ", ws) + " "
  {
    if |ws| > 1 {
      TerminatedJoin(ws[1..]);
    }
  }

  /** Stripping the accumulator gives the words joined by single spaces. */
  lemma {:induction false} StripTerminated(ws: seq<string>)
    requires AllWords(ws) && ws != []
    ensures Strip(Terminated(ws)) == Join(" ", ws)
  {
    var j := Join(" ", ws);
    TerminatedJoin(ws);
    JoinWordsEnds(ws);
    var t := j + " ";
    assert TrimStart(t) == t;
    assert t[..|t| - 1] == j;
    assert TrimEnd(t) == TrimEnd(j);
    StripUntouched(j);
  }

  /** A line with its last word appended (unhalved) is the rendered line. */
  lemma {:induction false} TerminatedLast(g: seq<string>)
    requires g != []
    ensures Terminated(g[..|g| - 1]) + g[|g| - 1] == Join(" ", g)
  {
    var n := |g| - 1;
    var p, w := g[..n], g[n];
    if n == 0 {
      assert Terminated(p) == "";
      assert Join(" ", g) == w;
    } else {
      TerminatedJoin(p);
      JoinSnoc(p, w);
      assert p + [w] == g;
    }
  }

  lemma {:induction false} JoinSnoc(ws: seq<string>, w: string)
    requires ws != []
    ensures Join(" ", ws + [w]) == Join(" ", ws) + " " + w
  {
    if |ws| > 1 {
      assert (ws + [w])[1..] == ws[1..] + [w];
      JoinSnoc(ws[1..], w);
    }
  }

  /** Every word that `Take` lets onto the line passed the width check, and
      the word after them, if any, failed it. */
  lemma {:induction false} TakeSpec(line: seq<string>, rest: seq<string>, width: string -> nat, maxWidth: int)
    requires width("") <= maxWidth
    ensures var k := Take(line, rest, width, maxWidth);
      && (forall j :: 0 <= j < k ==> Fits(line + rest[..j], rest[j], width, maxWidth))
      && (k < |rest| ==> !Fits(line + rest[..k], rest[k], width, maxWidth))
    decreases |rest|
  {
    var k := Take(line, rest, width, maxWidth);
    if rest == [] || !Fits(line, rest[0], width, maxWidth) {
      assert rest != [] ==> line + rest[..0] == line;
    } else {
      var line', rest' := line + [rest[0]], rest[1..];
      TakeSpec(line', rest', width, maxWidth);
      forall j | 0 <= j < k
        ensures Fits(line + rest[..j], rest[j], width, maxWidth)
      {
        TakeShift(line, rest, j);
      }
      if k < |rest| {
        TakeShift(line, rest, k);
      }
    }
  }

  lemma {:induction false} TakeShift(line: seq<string>, rest: seq<string>, j: nat)
    requires j <= |rest| && rest != []
    ensures j == 0 ==> line + rest[..j] == line
    ensures j > 0 ==> line + rest[..j] == (line + [rest[0]]) + rest[1..][..j - 1]
  {
    if j > 0 {
      assert rest[..j] == [rest[0]] + rest[1..][..j - 1];
    }
  }

  /** Every word of the line `g` passed the width check against the words
      before it on the line. */
  predicate FilledGreedily(g: seq<string>, width: string -> nat, maxWidth: int)
    requires width("") <= maxWidth
  {
    forall j :: 0 <= j < |g| ==> Fits(g[..j], g[j], width, maxWidth)
  }

  /** The greedy rule, line by line: every word of a line passed the width
      check against the words before it on that line, and a line was closed
      only because the first word of the next line failed it. */
  lemma {:induction false} LinesGreedy(words: seq<string>, width: string -> nat, maxWidth: int)
    requires width("") <= maxWidth
    ensures var lines := Lines(words, width, maxWidth);
      && (forall i :: 0 <= i < |lines| ==> FilledGreedily(lines[i], width, maxWidth))
      && (forall i :: 0 <= i < |lines| - 1 ==> !Fits(lines[i], lines[i + 1][0], width, maxWidth))
    decreases |words|
  {
    if words != [] {
      var lines := Lines(words, width, maxWidth);
      var k := Take([], words, width, maxWidth);
      var rest := Lines(words[k..], width, maxWidth);
      LinesUnfold(words, width, maxWidth);
      LinesGreedy(words[k..], width, maxWidth);
      FirstLineGreedy(words, width, maxWidth);
      forall i | 0 <= i < |lines|
        ensures FilledGreedily(lines[i], width, maxWidth)
      {
        if i > 0 {
          assert lines[i] == rest[i - 1];
        }
      }
      forall i | 0 <= i < |lines| - 1
        ensures !Fits(lines[i], lines[i + 1][0], width, maxWidth)
      {
        if i > 0 {
          assert lines[i] == rest[i - 1] && lines[i + 1] == rest[i];
        }
      }
    }
  }

  /** The first line of `Lines(words)` is filled greedily, and, when words
      remain, the first of them failed the check against it. */
  lemma {:induction false} FirstLineGreedy(words: seq<string>, width: string -> nat, maxWidth: int)
    requires width("") <= maxWidth
    requires words != []
    ensures var k := Take([], words, width, maxWidth);
      && FilledGreedily(words[..k], width, maxWidth)
      && (k < |words| ==> !Fits(words[..k], words[k], width, maxWidth))
      && (k < |words| ==> Lines(words[k..], width, maxWidth)[0][0] == words[k])
  {
    var k := Take([], words, width, maxWidth);
    TakeSpec([], words, width, maxWidth);
    forall j | 0 <= j < k
      ensures Fits(words[..k][..j], words[..k][j], width, maxWidth)
    {
      assert [] + words[..j] == words[..k][..j];
    }
    if k < |words| {
      assert [] + words[..k] == words[..k];
      var rest := Lines(words[k..], width, maxWidth);
      assert rest != [] && rest[0] != [];
      assert Flatten(rest) == rest[0] + Flatten(rest[1..]);
    }
  }

  /** A greedily filled line whose last word is no wider than `maxWidth` is
      no wider than `maxWidth`: that word passed the check unhalved. */
  lemma {:induction false} GreedyLineFits(g: seq<string>, width: string -> nat, maxWidth: int)
    requires width("") <= maxWidth
    requires g != [] && FilledGreedily(g, width, maxWidth)
    requires width(g[|g| - 1]) <= maxWidth
    ensures width(Join(" ", g)) <= maxWidth
  {
    var n := |g| - 1;
    assert Fits(g[..n], g[n], width, maxWidth);
    TerminatedLast(g);
  }

  /** The width budget: a line whose last word is itself no wider than
      `maxWidth` is no wider than `maxWidth`. Only a line ending in an
      oversized word can overflow, since that word is appended whole. */
  lemma {:induction false} LinesFitWidth(words: seq<string>, width: string -> nat, maxWidth: int, i: nat)
    requires width("") <= maxWidth
    requires i < |Lines(words, width, maxWidth)|
    requires var line := Lines(words, width, maxWidth)[i]; width(line[|line| - 1]) <= maxWidth
    ensures width(Join(" ", Lines(words, width, maxWidth)[i])) <= maxWidth
  {
    LinesGreedy(words, width, maxWidth);
    GreedyLineFits(Lines(words, width, maxWidth)[i], width, maxWidth);
  }

  lemma {:induction false} SplitRenderedLines(lines: seq<seq<string>>)
    requires forall i :: 0 <= i < |lines| ==> AllWords(lines[i])
    ensures SplitAll(Render(lines)) == Flatten(lines)
  {
    if lines != [] {
      SplitJoinWords(lines[0]);
      assert Render(lines)[1..] == Render(lines[1..]);
      SplitRenderedLines(lines[1..]);
    }
  }

  lemma {:induction false} FlattenWords(lines: seq<seq<string>>, words: seq<string>)
    requires Flatten(lines) == words && AllWords(words)
    ensures forall i :: 0 <= i < |lines| ==> AllWords(lines[i])
  {
    if lines != [] {
      assert forall j :: 0 <= j < |lines[0]| ==> lines[0][j] == words[j];
      assert Flatten(lines[1..]) == words[|lines[0]|..];
      FlattenWords(lines[1..], words[|lines[0]|..]);
      forall i | 0 <= i < |lines| ensures AllWords(lines[i]) {
        if i > 0 { assert lines[i] == lines[1..][i - 1]; }
      }
    }
  }

  /** No word is lost or altered: splitting the wrapped caption again gives
      exactly the words of the original caption, in order. */
  lemma {:induction false} WrappedKeepsWords(text: string, width: string -> nat, maxWidth: int)
    requires width("") <= maxWidth
    ensures Split(Wrapped(text, width, maxWidth)) == Split(text)
  {
    var lines := Lines(Split(text), width, maxWidth);
    FlattenWords(lines, Split(text));
    SplitJoin('\n', Render(lines));
    SplitRenderedLines(lines);
  }

  /** Wrapping already wrapped text with the same width reproduces it. */
  lemma {:induction false} WrappedIdempotent(text: string, width: string -> nat, maxWidth: int)
    requires width("") <= maxWidth
    ensures Wrapped(Wrapped(text, width, maxWidth), width, maxWidth) == Wrapped(text, width, maxWidth)
  {
    WrappedKeepsWords(text, width, maxWidth);
  }

  /** Empty or whitespace-only text wraps to the empty string; any other text
      gives no more lines than words, none of them empty. */
  lemma {:induction false} WrappedShape(text: string, width: string -> nat, maxWidth: int)
    requires width("") <= maxWidth
    ensures Split(text) == [] ==> Wrapped(text, width, maxWidth) == ""
    ensures var out := Render(Lines(Split(text), width, maxWidth));
      && |out| <= |Split(text)|
      && forall i :: 0 <= i < |out| ==> out[i] != "" && !IsSpace(out[i][0]) && !IsSpace(out[i][|out[i]| - 1])
  {
    var lines := Lines(Split(text), width, maxWidth);
    FlattenWords(lines, Split(text));
    forall i | 0 <= i < |lines|
      ensures var s := Join(" ", lines[i]); s != "" && !IsSpace(s[0]) && !IsSpace(s[|s| - 1])
    {
      JoinWordsEnds(lines[i]);
    }
  }

  lemma {:induction false} MoveFirst(a: seq<string>, b: seq<string>)
    requires b != []
    ensures (a + [b[0]]) + b[1..] == a + b
  {
    assert b == [b[0]] + b[1..];
  }

  /** The halving loop of `wrap_text`: cuts the word to its first half until
      it is no wider than `maxWidth`. */
  method HalveWord(word: string, width: string -> nat, maxWidth: int) returns (h: string)
    requires width("") <= maxWidth
    ensures h == Halve(word, width, maxWidth)
  {
    h := word;
    while width(h) > maxWidth
      invariant Halve(h, width, maxWidth) == Halve(word, width, maxWidth)
      decreases |h|
    {
      h := h[..|h| / 2];
    }
  }

  /** When a line is closed, the words it took are exactly the first line of
      `Lines(start)` and the words left over wrap into the remaining lines. */
  lemma {:induction false} LineClosed(start: seq<string>, lineWords: seq<string>, words: seq<string>,
                   width: string -> nat, maxWidth: int)
    requires width("") <= maxWidth
    requires start != [] && start == lineWords + words
    requires |lineWords| == Take([], start, width, maxWidth)
    ensures lineWords != [] && |words| < |start|
    ensures Lines(start, width, maxWidth) == [lineWords] + Lines(words, width, maxWidth)
  {
    var k := Take([], start, width, maxWidth);
    LinesUnfold(start, width, maxWidth);
    assert lineWords == start[..k] && words == start[k..];
  }

  lemma {:induction false} RenderSnoc(groups: seq<seq<string>>, g: seq<string>)
    ensures Render(groups + [g]) == Render(groups) + [Join(" ", g)]
  {
  }

  lemma {:induction false} AppendLine(groups: seq<seq<string>>, g: seq<string>, tail: seq<seq<string>>,
                                      all: seq<seq<string>>)
    requires groups + ([g] + tail) == all
    ensures (groups + [g]) + tail == all
  {
  }

  /** The inner loop of `wrap_text`: pops words off the front of `words` onto
      the line while the line plus the halved next word fits. Returns the line
      (each word followed by a space) and the words left. */
  method FillLine(words: seq<string>, width: string -> nat, maxWidth: int) returns (line: string, rest: seq<string>)
    requires width("") <= maxWidth
    ensures var k := Take([], words, width, maxWidth);
      line == Terminated(words[..k]) && rest == words[k..]
  {
    line := "";
    rest := words;
    ghost var lineWords: seq<string> := [];
    while rest != []
      invariant words == lineWords + rest
      invariant line == Terminated(lineWords)
      invariant |lineWords| + Take(lineWords, rest, width, maxWidth) == Take([], words, width, maxWidth)
      decreases |rest|
    {
      var word := HalveWord(rest[0], width, maxWidth);
      var lineWidth := width(line + word);
      if lineWidth <= maxWidth {
        TerminatedSnoc(lineWords, rest[0]);
        MoveFirst(lineWords, rest);
        line := line + (rest[0] + " ");
        lineWords := lineWords + [rest[0]];
        rest := rest[1..];
      } else {
        break;
      }
    }
    assert lineWords == words[..|lineWords|];
  }

  /** `wrap_text`: fills lines greedily until no word is left; each finished
      line is stripped and kept, and the lines are joined by newlines. */
  method WrapText(text: string, width: string -> nat, maxWidth: int) returns (r: string)
    requires width("") <= maxWidth
    ensures r == Wrapped(text, width, maxWidth)
  {
    var lines: seq<string> := [];
    var words := Split(text);
    ghost var groups: seq<seq<string>> := [];
    while words != []
      invariant AllWords(words)
      invariant lines == Render(groups)
      invariant groups + Lines(words, width, maxWidth) == Lines(Split(text), width, maxWidth)
      decreases |words|
    {
      var line, rest := FillLine(words, width, maxWidth);
      ghost var g := words[..Take([], words, width, maxWidth)];
      LineClosed(words, g, rest, width, maxWidth);
      AppendLine(groups, g, Lines(rest, width, maxWidth), Lines(Split(text), width, maxWidth));
      assert AllWords(g) && AllWords(rest);
      StripTerminated(g);
      RenderSnoc(groups, g);
      lines := lines + [Strip(line)];
      groups := groups + [g];
      words := rest;
    }
    assert groups == Lines(Split(text), width, maxWidth);
    r := Join("\n", lines);
  }
}
