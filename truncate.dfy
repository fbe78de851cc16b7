/** Cutting a wrapped caption down to a pixel height. The font is a height
    oracle `height`: the rendered pixel height of a (multi-line) string. */
module Truncate {
  import opened Text

  /** The first `k` lines, joined by newlines. */
  function Prefix(lines: seq<string>, k: nat): string
    requires k <= |lines|
  {
    Join("\n", lines[..k])
  }

  /** `k` is the largest number of leading lines (at least one) whose block
      fits `maxHeight`, or 0 when no such prefix fits. */
  predicate LongestFit(lines: seq<string>, k: nat, height: string -> nat, maxHeight: int)
    requires k <= |lines|
  {
    && (k > 0 ==> height(Prefix(lines, k)) <= maxHeight)
    && forall j :: k < j <= |lines| ==> height(Prefix(lines, j)) > maxHeight
  }

  /** `truncate_text`: drops trailing lines until the block fits; the empty
      string when not even the first line fits. */
  method TruncateText(text: string, maxHeight: int, height: string -> nat) returns (r: string)
    ensures var lines := SplitOn(text, '\n');
      exists k :: 0 <= k <= |lines| && LongestFit(lines, k, height, maxHeight) &&
        r == Prefix(lines, k)
    ensures height(text) <= maxHeight ==> r == text
  {
    var lines := SplitOn(text, '\n');
    ghost var all := lines;
    JoinSplitOn(text, '\n');
    assert all[..|all|] == all;
    while lines != []
      invariant |lines| <= |all| && lines == all[..|lines|]
      invariant forall j :: |lines| < j <= |all| ==> height(Prefix(all, j)) > maxHeight
      invariant |lines| < |all| ==> height(text) > maxHeight
      decreases |lines|
    {
      var block := Join("\n", lines);
      if height(block) <= maxHeight {
        assert LongestFit(all, |lines|, height, maxHeight);
        return block;
      }
      assert all[..|lines| - 1] == lines[..|lines| - 1];
      lines := lines[..|lines| - 1];
    }
    assert LongestFit(all, 0, height, maxHeight);
    return "";
  }
}
