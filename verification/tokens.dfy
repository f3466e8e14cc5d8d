/** The token filter applied to every message (`preprocess`). Splitting the
    raw text into words is done by a tokenizer library and is an input here:
    `words` is what the tokenizer returned and `stop` the stop-word list. */
module Tokens {
  import opened Strings

  predicate IsAlnumChar(c: char)
  {
    'a' <= c <= 'z' || 'A' <= c <= 'Z' || '0' <= c <= '9'
  }

  /** `w.isalnum()` for ASCII: non-empty, letters and digits only. */
  predicate IsAlnum(w: string)
  {
    |w| > 0 && forall i :: 0 <= i < |w| ==> IsAlnumChar(w[i])
  }

  lemma LowerKeepsAlnum(w: string)
    requires IsAlnum(w)
    ensures IsAlnum(Lower(w))
  {
  }

  /** Keep the alphanumeric words, lower-cased, that are not stop words.
      Every token is alphanumeric, lower-case and not a stop word, every
      such word of the input survives as a token, and every token is the
      lower-cased form of an alphanumeric input word. */
  function Preprocess(words: seq<string>, stop: set<string>): (tokens: seq<string>)
    ensures |tokens| <= |words|
    ensures forall tok :: tok in tokens ==> IsAlnum(tok) && Lower(tok) == tok && tok !in stop
    ensures forall w :: w in words && IsAlnum(w) && Lower(w) !in stop ==> Lower(w) in tokens
    ensures forall tok :: tok in tokens ==> exists w :: w in words && IsAlnum(w) && Lower(w) == tok
  {
    if |words| == 0 then []
    else
      var rest := Preprocess(words[1..], stop);
      var w := words[0];
      assert forall v :: v in words ==> v == w || v in words[1..];
      if IsAlnum(w) && Lower(w) !in stop then
        LowerKeepsAlnum(w);
        LowerIdempotent(w);
        [Lower(w)] + rest
      else rest
  }

  /** The filter works word by word and keeps the words' order: the tokens
      of two pieces of text, one after the other, are the tokens of the
      whole. */
  lemma {:induction false} PreprocessAppend(a: seq<string>, b: seq<string>, stop: set<string>)
    ensures Preprocess(a + b, stop) == Preprocess(a, stop) + Preprocess(b, stop)
    decreases |a|
  {
    if |a| == 0 {
      assert a + b == b;
    } else {
      assert (a + b)[1..] == a[1..] + b;
      assert (a + b)[0] == a[0];
      PreprocessAppend(a[1..], b, stop);
    }
  }

  /** One word gives one token, its lower-cased form, when it is
      alphanumeric and not a stop word, and no token otherwise. */
  lemma PreprocessWord(w: string, stop: set<string>)
    ensures Preprocess([w], stop) == if IsAlnum(w) && Lower(w) !in stop then [Lower(w)] else []
  {
    assert [w][1..] == [];
  }

  /** No token ever contains a blank, so a two-word phrase such as
      "fun fact" is never a token. */
  lemma {:induction false} NoPhraseIsAToken(words: seq<string>, stop: set<string>, phrase: string)
    requires exists i :: 0 <= i < |phrase| && phrase[i] == ' '
    ensures phrase !in Preprocess(words, stop)
  {
    var i :| 0 <= i < |phrase| && phrase[i] == ' ';
    assert !IsAlnumChar(phrase[i]);
  }
}
