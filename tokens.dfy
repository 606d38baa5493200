/**
 * The token stream the parser reads.  The tokenizer itself is not part of this
 * model: its output is an arbitrary sequence of tokens, and its lookahead and
 * pull operations become functions of the tokens that remain.
 *
 * Whitespace stays visible: `SpaceOrTab` is a run of blanks on the current line
 * (the source appends it to a value being concatenated), `NewLine` is any
 * whitespace that crosses a line break, or a comment; it ends a value.
 */
module Tokens {

  datatype Token =
    | Key(name: string)
    | Dot
    | Assign
    | ObjectStart
    | ObjectEnd
    | ArrayStart
    | ArrayEnd
    | Comma
    | Literal(text: string)
    | SpaceOrTab(text: string)
    | NewLine
    | EoF

  predicate IsBlank(t: Token) {
    t.SpaceOrTab? || t.NewLine?
  }

  /** `r` is what remains of `ts` after some tokens were taken from its front. */
  predicate IsSuffix(r: seq<Token>, ts: seq<Token>) {
    |r| <= |ts| && r == ts[|ts| - |r|..]
  }

  /** PullWhitespaceAndComments: drops every blank token at the front. */
  function SkipBlank(ts: seq<Token>): (r: seq<Token>)
    ensures |r| <= |ts|
    ensures r == [] || !IsBlank(r[0])
  {
    if ts != [] && IsBlank(ts[0]) then SkipBlank(ts[1..]) else ts
  }

  predicate AllBlank(ts: seq<Token>) {
    forall i :: 0 <= i < |ts| ==> IsBlank(ts[i])
  }

  /** Blanks in front of `ts` are skipped as if they were not there. */
  lemma {:induction false} SkipBlankAppend(b: seq<Token>, ts: seq<Token>)
    requires AllBlank(b)
    ensures SkipBlank(b + ts) == SkipBlank(ts)
    decreases |b|
  {
    if b == [] {
      assert b + ts == ts;
    } else {
      assert (b + ts)[0] == b[0];
      assert (b + ts)[1..] == b[1..] + ts;
      SkipBlankAppend(b[1..], ts);
    }
  }

  /**
   * PullNext: the next significant token and what follows it; `EoF` once only
   * blanks remain.  Unless the stream is already exhausted, at least one token
   * is consumed.
   */
  function PullNext(ts: seq<Token>): (r: (Token, seq<Token>))
    ensures ts != [] ==> |r.1| < |ts|
    ensures SkipBlank(ts) == [] ==> r == (EoF, [])
    ensures SkipBlank(ts) != [] ==> [r.0] + r.1 == SkipBlank(ts)
  {
    var u := SkipBlank(ts);
    if u == [] then (EoF, []) else (u[0], u[1..])
  }

  /** IsValue: the next token starts a value (a literal, an object or an array). */
  predicate IsValue(ts: seq<Token>) {
    ts != [] && (ts[0].Literal? || ts[0].ObjectStart? || ts[0].ArrayStart?)
  }

  predicate IsSpaceOrTab(ts: seq<Token>) {
    ts != [] && ts[0].SpaceOrTab?
  }

  predicate IsComma(ts: seq<Token>) {
    ts != [] && ts[0].Comma?
  }

  predicate IsArrayEnd(ts: seq<Token>) {
    ts != [] && ts[0].ArrayEnd?
  }
}
