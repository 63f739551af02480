/** BaseTokenizer and CharacterTokenizer. The class hierarchy becomes a
    kind tag: the base class refuses to tokenize, the character tokenizer
    maps each character to its own token. */
module Tokenizers {
  import opened Results
  import opened Text

  datatype Kind = Base | Character

  datatype Tokenizer = Tokenizer(kind: Kind, vocabSize: int, vocab: set<string>)

  /** BaseTokenizer.__init__(vocab_size) (shared by every subclass). */
  function NewTokenizer(kind: Kind, vocabSize: int): (r: Result<Tokenizer>)
    ensures r.Failure? <==> vocabSize <= 0
    ensures r.Failure? ==> r.error == InvalidInput
    ensures r.Success? ==> r.value.kind == kind && r.value.vocabSize == vocabSize && r.value.vocab == {}
  {
    if vocabSize <= 0 then Failure(InvalidInput) else Success(Tokenizer(kind, vocabSize, {}))
  }

  /** tokenize(text) */
  function Tokenize(t: Tokenizer, text: string): (r: Result<seq<string>>)
    ensures r.Failure? <==> t.kind == Base
    ensures r.Failure? ==> r.error == NotImplemented
    ensures r.Success? ==> |r.value| == |text| && forall i :: 0 <= i < |text| ==> r.value[i] == [text[i]]
  {
    match t.kind
    case Base => Failure(NotImplemented)
    case Character => Success(Chars(text))
  }

  /** detokenize(tokens) */
  function Detokenize(t: Tokenizer, tokens: seq<string>): (r: Result<string>)
    ensures r.Failure? <==> t.kind == Base
    ensures r.Failure? ==> r.error == NotImplemented
  {
    match t.kind
    case Base => Failure(NotImplemented)
    case Character => Success(Concat(tokens))
  }

  /** The character tokenizer's detokenize is ''.join for any tokens: the
      empty list gives the empty string, one token gives itself, and the
      join of two lists is the join of the first followed by that of the
      second. */
  lemma DetokenizeJoins(t: Tokenizer, a: seq<string>, b: seq<string>, x: string)
    requires t.kind == Character
    ensures Detokenize(t, []) == Success("")
    ensures Detokenize(t, [x]) == Success(x)
    ensures Detokenize(t, a + b).value == Detokenize(t, a).value + Detokenize(t, b).value
  {
    assert Concat([x]) == x + Concat([x][1..]);
    assert [x][1..] == [];
    assert x + "" == x;
    ConcatAppend(a, b);
  }

  /** Character tokenization is lossless: detokenize(tokenize(text)) == text. */
  lemma DetokenizeTokenize(t: Tokenizer, text: string)
    requires t.kind == Character
    ensures Detokenize(t, Tokenize(t, text).value) == Success(text)
  {
    ConcatChars(text);
  }

  /** And the other way round for single-character tokens. */
  lemma {:induction false} TokenizeDetokenize(t: Tokenizer, tokens: seq<string>)
    requires t.kind == Character
    requires forall i :: 0 <= i < |tokens| ==> |tokens[i]| == 1
    ensures Tokenize(t, Detokenize(t, tokens).value) == Success(tokens)
    decreases |tokens|
  {
    if |tokens| > 0 {
      TokenizeDetokenize(t, tokens[1..]);
      var s := Concat(tokens);
      var s1 := Concat(tokens[1..]);
      assert s == tokens[0] + s1;
      assert Chars(s1) == tokens[1..];
      assert tokens[0] == [s[0]];
      assert |Chars(s)| == |tokens|;
      forall i | 0 <= i < |tokens|
        ensures Chars(s)[i] == tokens[i]
      {
        if i > 0 {
          assert s[i] == s1[i - 1];
          assert Chars(s1)[i - 1] == tokens[1..][i - 1];
        }
      }
      assert Chars(s) == tokens;
    }
  }
}
