/** The token interface of the Japanese morphological analyser (fugashi over
    UniDic). The analyser is an oracle: a `Tokenizer` is any function from a
    string to its tokens. */
module JaTokens {
  import opened Text

  /** One morphological unit: its surface, its hiragana reading and its
      part of speech (UniDic pos1). */
  datatype Token = Token(surface: string, reading: string, pos: string)

  type Tokenizer = string -> seq<Token>

  function Surfaces(tokens: seq<Token>): (r: seq<string>)
    ensures |r| == |tokens|
    ensures forall i :: 0 <= i < |r| ==> r[i] == tokens[i].surface
  {
    seq(|tokens|, i requires 0 <= i < |tokens| => tokens[i].surface)
  }

  function Readings(tokens: seq<Token>): (r: seq<string>)
    ensures |r| == |tokens|
    ensures forall i :: 0 <= i < |r| ==> r[i] == tokens[i].reading
  {
    seq(|tokens|, i requires 0 <= i < |tokens| => tokens[i].reading)
  }

  /** `''.join(token['reading'] for token in tokens)`. */
  function JoinedReading(tokens: seq<Token>): string
  {
    Concat(Readings(tokens))
  }
}
