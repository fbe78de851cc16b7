/** The post-processing of a generated caption: at most twenty words. */
module Caption {
  import opened Text

  const MaxWords: nat := 20

  /** A caption of more than twenty whitespace-separated words is cut to its
      first twenty, joined by single spaces; a shorter one is returned exactly
      as it came. */
  function CapWords(text: string): (r: string)
    ensures |Split(r)| <= MaxWords
    ensures |Split(text)| <= MaxWords ==> r == text
    ensures |Split(text)| > MaxWords ==> Split(r) == Split(text)[..MaxWords] && r == Join(" ", Split(r))
  {
    var words := Split(text);
    if |words| > MaxWords then
      SplitJoinWords(words[..MaxWords]);
      Join(" ", words[..MaxWords])
    else
      text
  }

  /** Capping a capped caption changes nothing. */
  lemma CapWordsIdempotent(text: string)
    ensures CapWords(CapWords(text)) == CapWords(text)
  {
  }
}
