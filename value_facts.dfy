/**
 * What ParseValue and ParseArray do with commas, same-line blanks and line
 * breaks: a value ends at one comma at most, a literal replaces an object
 * while `{` merges into it, blanks between literals on one line join them
 * into a single value, and each comma- or line-separated element of an
 * array gets a node of its own.
 */
module ValueFacts {
  import opened Wrappers
  import opened Errors
  import opened Tokens
  import opened Values
  import opened Grammar
  import opened GrammarFacts

  // ---- one value ----

  /**
   * A literal followed by a comma: the comma ends the value and is consumed,
   * and nothing after it is looked at, not even a second comma.
   */
  lemma OneComma(s: Store, owner: NodeId, v: string, rest: seq<Token>)
    requires ValidStore(s) && owner < |s| && !IsObject(s[owner])
    ensures ParseValue(s, [Literal(v), Comma] + rest, owner)
         == Success(Parsed(s[owner := Concat(PiecesOf(s[owner]) + [Lit(v)])], rest))
  {
    var after := [Comma] + rest;
    var s2 := AppendValue(s, owner, Lit(v));
    assert ParseValue(s, [Literal(v), Comma] + rest, owner) == ValueLoop(s2, after, owner) by {
      assert [Literal(v), Comma] + rest == [Literal(v)] + after;
      assert !IsSpaceOrTab(after);
      ValueLiteral(s, owner, v, after);
    }
    assert ValueLoop(s2, after, owner) == Success(Parsed(s2, rest)) by {
      ValueLoopEnd(s2, after, owner);
      assert after[1..] == rest;
    }
  }

  /** A literal value replaces an object the owner held: the object's keys are gone. */
  lemma LiteralReplacesObject(s: Store, owner: NodeId, v: string, rest: seq<Token>)
    requires ValidStore(s) && owner < |s| && IsObject(s[owner]) && EndsValue(rest)
    ensures ParseValue(s, [Literal(v)] + rest, owner)
         == Success(Parsed(s[owner := Concat([Lit(v)])], rest))
  {
    ValueLiteral(s, owner, v, rest);
    var s2 := AppendValue(Clear(s, owner), owner, Lit(v));
    assert s2 == s[owner := Concat([Lit(v)])];
    ValueLoopEnd(s2, rest, owner);
  }

  /**
   * `{ k = v }` as a value: the key is put into the object the owner holds,
   * so an object already there keeps every key it had (the two merge).
   */
  lemma ObjectMerges(s: Store, owner: NodeId, k: string, v: string, rest: seq<Token>)
    requires ValidStore(s) && owner < |s| && EndsValue(rest)
    ensures var r := ParseValue(s, [ObjectStart, Key(k), Assign, Literal(v), ObjectEnd] + rest, owner);
            && r == Success(Parsed(Put(s, owner, [k], Concat([Lit(v)])), rest))
            && (IsObject(s[owner]) ==> Extends(s[owner], r.value.store[owner]))
  {
    var body := [Key(k), Assign, Literal(v), ObjectEnd] + rest;
    assert [ObjectStart, Key(k), Assign, Literal(v), ObjectEnd] + rest == [ObjectStart] + body;
    var s2 := Put(s, owner, [k], Concat([Lit(v)]));
    OneKeyBody(s, owner, k, v, rest);
    ValueObject(s, owner, body, Parsed(s2, rest));
    ValueLoopEnd(s2, rest, owner);
  }

  /** An object that starts a value is parsed into the owner, and reading the value goes on after it. */
  lemma ValueObject(s: Store, owner: NodeId, body: seq<Token>, p: Parsed)
    requires ValidStore(s) && owner < |s|
    requires ParseObject(s, body, owner, true) == Success(p)
    ensures ValidStore(p.store) && owner < |p.store|
    ensures var q := AfterPiece(p, owner);
            ParseValue(s, [ObjectStart] + body, owner) == ValueLoop(q.store, q.rest, owner)
  {
    var all := [ObjectStart] + body;
    assert SkipBlank(all) == all;
    assert all[1..] == body;
    assert PullValue(s, all, owner) == Success(p);
  }

  /** The body `k = v }` of an object value. */
  lemma OneKeyBody(s: Store, owner: NodeId, k: string, v: string, rest: seq<Token>)
    requires ValidStore(s) && owner < |s|
    ensures ParseObject(s, [Key(k), Assign, Literal(v), ObjectEnd] + rest, owner, true)
         == Success(Parsed(Put(s, owner, [k], Concat([Lit(v)])), rest))
  {
    var s0 := EnsureObject(s, owner);
    var (s1, c) := GetOrCreateKey(s0, owner, k);
    var s2 := s1[c := Concat([Lit(v)])];
    assert s2 == Put(s, owner, [k], Concat([Lit(v)])) by {
      PutOneKey(s, owner, k, v);
    }
    var content := [Assign, Literal(v)] + ([ObjectEnd] + rest);
    assert ObjectBody(s0, [Key(k)] + content, owner, true) == ObjectBody(s2, [ObjectEnd] + rest, owner, true) by {
      assert KeyContent(s1, content, c) == Success(Parsed(s2, [ObjectEnd] + rest)) by {
        ScalarAssign(s1, c, v, [ObjectEnd] + rest);
      }
      BodyKey(s0, owner, k, content, true, Parsed(s2, [ObjectEnd] + rest));
    }
    assert [Key(k), Assign, Literal(v), ObjectEnd] + rest == [Key(k)] + content;
    BodyEnd(s2, owner, rest, true);
  }

  /** Putting a scalar under one key sets the key's child, found or made, to it. */
  lemma PutOneKey(s: Store, owner: NodeId, k: string, v: string)
    requires ValidStore(s) && owner < |s|
    ensures var (s1, c) := GetOrCreateKey(EnsureObject(s, owner), owner, k);
            s1[c := Concat([Lit(v)])] == Put(s, owner, [k], Concat([Lit(v)]))
  {
    assert [k][1..] == [];
  }

  // ---- values on one line ----

  /** Literals separated by same-line blank runs of text `w`: one value. */
  function Spaced(xs: seq<string>, w: string): seq<Token>
    requires xs != []
  {
    if |xs| == 1 then [Literal(xs[0])]
    else [Literal(xs[0]), SpaceOrTab(w)] + Spaced(xs[1..], w)
  }

  /** The pieces such a value leaves: each literal, and each blank run between two. */
  function SpacedPieces(xs: seq<string>, w: string): (ps: seq<Piece>)
    requires xs != []
    ensures AllText(ps) && |ps| == 2 * |xs| - 1
  {
    if |xs| == 1 then [Lit(xs[0])]
    else [Lit(xs[0]), Lit(w)] + SpacedPieces(xs[1..], w)
  }

  /** A literal that starts the value loop becomes a piece of the owner, replacing an object. */
  lemma LoopLiteral(s: Store, owner: NodeId, v: string, after: seq<Token>)
    requires ValidStore(s) && owner < |s|
    ensures var s2 := AppendValue(if IsObject(s[owner]) then Clear(s, owner) else s, owner, Lit(v));
            var q := AfterPiece(Parsed(s2, after), owner);
            ValueLoop(s, [Literal(v)] + after, owner) == ValueLoop(q.store, q.rest, owner)
  {
    var ts := [Literal(v)] + after;
    assert ts[1..] == after;
    var s2 := AppendValue(if IsObject(s[owner]) then Clear(s, owner) else s, owner, Lit(v));
    assert PullValue(s, ts, owner) == Success(Parsed(s2, after));
  }

  /**
   * Literals separated by non-empty same-line blank runs make one value: each
   * literal and each blank run between two becomes a piece, in order.
   */
  lemma {:induction false} SpacedValue(s: Store, owner: NodeId, xs: seq<string>, w: string, tail: seq<Token>)
    requires ValidStore(s) && owner < |s| && !IsObject(s[owner])
    requires xs != [] && w != "" && !IsValue(tail) && !IsSpaceOrTab(tail)
    ensures ValueLoop(s, Spaced(xs, w) + tail, owner)
         == Success(Parsed(s[owner := Concat(PiecesOf(s[owner]) + SpacedPieces(xs, w))], IgnoreComma(tail)))
    decreases |xs|
  {
    var ps := PiecesOf(s[owner]);
    if |xs| == 1 {
      var s1 := AppendValue(s, owner, Lit(xs[0]));
      assert s1 == s[owner := Concat(ps + SpacedPieces(xs, w))];
      assert Spaced(xs, w) + tail == [Literal(xs[0])] + tail;
      LoopLiteral(s, owner, xs[0], tail);
      ValueLoopEnd(s1, tail, owner);
    } else {
      var s2 := s[owner := Concat(ps + [Lit(xs[0]), Lit(w)])];
      SpacedStep(s, owner, xs, w, tail);
      SpacedValue(s2, owner, xs[1..], w, tail);
      SpacedStore(s, owner, ps, xs, w);
    }
  }

  lemma SpacedStore(s: Store, owner: NodeId, ps: seq<Piece>, xs: seq<string>, w: string)
    requires owner < |s| && |xs| > 1
    ensures var s2 := s[owner := Concat(ps + [Lit(xs[0]), Lit(w)])];
            s2[owner := Concat(ps + [Lit(xs[0]), Lit(w)] + SpacedPieces(xs[1..], w))]
              == s[owner := Concat(ps + SpacedPieces(xs, w))]
  {
    assert ps + [Lit(xs[0]), Lit(w)] + SpacedPieces(xs[1..], w) == ps + SpacedPieces(xs, w);
  }

  /** A literal and the blank run after it, when more literals follow. */
  lemma SpacedStep(s: Store, owner: NodeId, xs: seq<string>, w: string, tail: seq<Token>)
    requires ValidStore(s) && owner < |s| && !IsObject(s[owner])
    requires |xs| > 1 && w != ""
    ensures var s2 := s[owner := Concat(PiecesOf(s[owner]) + [Lit(xs[0]), Lit(w)])];
            && ValidStore(s2) && !IsObject(s2[owner])
            && ValueLoop(s, Spaced(xs, w) + tail, owner) == ValueLoop(s2, Spaced(xs[1..], w) + tail, owner)
  {
    var ps := PiecesOf(s[owner]);
    var s1 := AppendValue(s, owner, Lit(xs[0]));
    assert s1 == s[owner := Concat(ps + [Lit(xs[0])])];
    var more := Spaced(xs[1..], w) + tail;
    assert Spaced(xs, w) + tail == [Literal(xs[0])] + ([SpaceOrTab(w)] + more) by {
      assert Spaced(xs, w) == [Literal(xs[0]), SpaceOrTab(w)] + Spaced(xs[1..], w);
      SeqAssoc([Literal(xs[0]), SpaceOrTab(w)], Spaced(xs[1..], w), tail);
      assert [Literal(xs[0]), SpaceOrTab(w)] == [Literal(xs[0])] + [SpaceOrTab(w)];
      SeqAssoc([Literal(xs[0])], [SpaceOrTab(w)], more);
    }
    LoopLiteral(s, owner, xs[0], [SpaceOrTab(w)] + more);
    var q := AfterPiece(Parsed(s1, [SpaceOrTab(w)] + more), owner);
    assert q == Parsed(s[owner := Concat(ps + [Lit(xs[0]), Lit(w)])], more) by {
      assert ([SpaceOrTab(w)] + more)[1..] == more;
      assert ps + [Lit(xs[0])] + [Lit(w)] == ps + [Lit(xs[0]), Lit(w)];
    }
  }

  // ---- arrays ----

  /** Literals each followed by the separator `t`, the last by `close`. */
  function Items(xs: seq<string>, t: Token, close: seq<Token>): seq<Token>
    requires xs != []
  {
    if |xs| == 1 then [Literal(xs[0])] + close
    else [Literal(xs[0]), t] + Items(xs[1..], t, close)
  }

  /** One node per literal, holding that literal alone. */
  function Scalars(xs: seq<string>): (r: seq<Node>)
    ensures |r| == |xs|
  {
    if xs == [] then [] else [Concat([Lit(xs[0])])] + Scalars(xs[1..])
  }

  /** The ids lo, lo + 1, ..., lo + n - 1. */
  function Ids(lo: nat, n: nat): (r: seq<NodeId>)
    ensures |r| == n
    decreases n
  {
    if n == 0 then [] else [lo] + Ids(lo + 1, n - 1)
  }

  /**
   * One array element that is a single literal followed by a comma, a line
   * break, or nothing before `]`: a new node holding the literal, and the
   * separator is consumed.
   */
  lemma ItemElement(s: Store, lead: seq<Token>, x: string, sep: seq<Token>, more: seq<Token>)
    requires ValidStore(s) && AllBlank(lead)
    requires sep == [Comma] || sep == [NewLine] || (sep == [] && IsArrayEnd(more))
    requires more == [] || more[0].Literal? || more[0].ArrayEnd?
    ensures ArrayElement(s, lead + ([Literal(x)] + (sep + more))) == Success(Parsed(s + [Concat([Lit(x)])], more))
  {
    var after := sep + more;
    var ts := lead + ([Literal(x)] + after);
    var s2 := s + [Concat([Lit(x)])];
    assert ParseValue(NewNode(s), ts, |s|) == Success(Parsed(s2, IgnoreComma(after))) by {
      ElementValue(s, lead, x, after);
    }
    SeparatorSkipped(sep, more);
    assert |more| < |ts|;
  }

  /** The separator after an element is consumed: an optional comma, then blanks. */
  lemma SeparatorSkipped(sep: seq<Token>, more: seq<Token>)
    requires sep == [Comma] || sep == [NewLine] || sep == []
    requires more == [] || more[0].Literal? || more[0].ArrayEnd?
    ensures SkipBlank(IgnoreComma(sep + more)) == more
  {
    if sep == [NewLine] {
      assert !IsComma(sep + more);
      SkipBlankAppend([NewLine], more);
    } else if sep == [Comma] {
      assert (sep + more)[1..] == more;
    } else {
      assert sep + more == more;
    }
  }

  /** The value of an element that is one literal followed by no further piece. */
  lemma ElementValue(s: Store, lead: seq<Token>, x: string, after: seq<Token>)
    requires ValidStore(s) && AllBlank(lead) && !IsSpaceOrTab(after) && !IsValue(after)
    ensures ParseValue(NewNode(s), lead + ([Literal(x)] + after), |s|)
         == Success(Parsed(s + [Concat([Lit(x)])], IgnoreComma(after)))
  {
    var n := NewNode(s);
    var s2 := AppendValue(n, |s|, Lit(x));
    assert s2 == s + [Concat([Lit(x)])];
    assert ParseValue(n, lead + ([Literal(x)] + after), |s|) == ParseValue(n, [Literal(x)] + after, |s|) by {
      SkipBlankAppend(lead, [Literal(x)] + after);
      assert SkipBlank([Literal(x)] + after) == [Literal(x)] + after;
    }
    ValueLiteral(n, |s|, x, after);
    ValueLoopEnd(s2, after, |s|);
  }

  /** The separator after the first of such literals. */
  function Sep(xs: seq<string>, t: Token, close: seq<Token>): seq<Token>
    requires xs != []
  {
    if |xs| == 1 then close else [t]
  }

  /** What follows the first of such literals and its separator. */
  function After(xs: seq<string>, t: Token, close: seq<Token>, tail: seq<Token>): seq<Token>
    requires xs != []
  {
    if |xs| == 1 then tail else Items(xs[1..], t, close) + tail
  }

  /**
   * Comma- or line-separated literals up to `]`: the element loop makes one
   * new node per literal, numbered in order after the nodes that existed.
   */
  lemma {:induction false} ItemsLoop(s: Store, lead: seq<Token>, xs: seq<string>, t: Token,
                                     close: seq<Token>, tail: seq<Token>)
    requires ValidStore(s) && AllBlank(lead) && xs != [] && IsArrayEnd(tail)
    requires (t == Comma || t == NewLine) && (close == [] || close == [t])
    ensures ArrayLoop(s, lead + Items(xs, t, close) + tail)
         == Success(ParsedArray(s + Scalars(xs), tail, Ids(|s|, |xs|)))
    decreases |xs|, 1
  {
    ItemsStep(s, lead, xs, t, close, tail);
    ItemsRest(s, xs, t, close, tail);
    assert Ids(|s|, |xs|) == [|s|] + Ids(|s| + 1, |xs| - 1);
  }

  /** The turns of the element loop after the first. */
  lemma {:induction false} ItemsRest(s: Store, xs: seq<string>, t: Token, close: seq<Token>, tail: seq<Token>)
    requires ValidStore(s) && xs != [] && IsArrayEnd(tail)
    requires (t == Comma || t == NewLine) && (close == [] || close == [t])
    ensures ValidStore(s + [Concat([Lit(xs[0])])])
    ensures ArrayLoop(s + [Concat([Lit(xs[0])])], After(xs, t, close, tail))
         == Success(ParsedArray(s + Scalars(xs), tail, Ids(|s| + 1, |xs| - 1)))
    decreases |xs|, 0
  {
    var s1 := s + [Concat([Lit(xs[0])])];
    ScalarNodeValid(s, xs[0]);
    assert s1 + Scalars(xs[1..]) == s + Scalars(xs) by {
      ScalarsCons(s, xs);
    }
    if |xs| == 1 {
      assert s1 + Scalars(xs[1..]) == s1 by {
        assert Scalars(xs[1..]) == [];
      }
      assert After(xs, t, close, tail) == tail;
      LoopEnd(s1, tail);
    } else {
      assert After(xs, t, close, tail) == [] + Items(xs[1..], t, close) + tail;
      ItemsLoop(s1, [], xs[1..], t, close, tail);
    }
  }

  /** A new node holding one literal keeps the store valid. */
  lemma ScalarNodeValid(s: Store, x: string)
    requires ValidStore(s)
    ensures ValidStore(s + [Concat([Lit(x)])])
  {
    var r := s + [Concat([Lit(x)])];
    forall i | 0 <= i < |r| ensures NodeOk(r[i], i, |r|) {
      if i < |s| { NodeOkGrows(s[i], i, |s|, |r|); }
    }
  }

  /** The first turn of the element loop over such literals. */
  lemma ItemsStep(s: Store, lead: seq<Token>, xs: seq<string>, t: Token, close: seq<Token>, tail: seq<Token>)
    requires ValidStore(s) && AllBlank(lead) && xs != [] && IsArrayEnd(tail)
    requires (t == Comma || t == NewLine) && (close == [] || close == [t])
    ensures ValidStore(s + [Concat([Lit(xs[0])])])
    ensures ArrayLoop(s, lead + Items(xs, t, close) + tail)
         == Prepend([|s|], ArrayLoop(s + [Concat([Lit(xs[0])])], After(xs, t, close, tail)))
  {
    var ts := lead + Items(xs, t, close) + tail;
    var more := After(xs, t, close, tail);
    var p := Parsed(s + [Concat([Lit(xs[0])])], more);
    assert ArrayElement(s, ts) == Success(p) by {
      ItemsSplit(lead, xs, t, close, tail);
      ItemElement(s, lead, xs[0], Sep(xs, t, close), more);
    }
    assert ts != [] && !IsArrayEnd(ts) by {
      ItemsStart(lead, xs, t, close, tail);
    }
    LoopStep(s, ts, p);
  }

  /** Such literals split into the first, its separator, and what follows. */
  lemma ItemsSplit(lead: seq<Token>, xs: seq<string>, t: Token, close: seq<Token>, tail: seq<Token>)
    requires xs != []
    requires (t == Comma || t == NewLine) && (close == [] || close == [t])
    ensures lead + Items(xs, t, close) + tail
         == lead + ([Literal(xs[0])] + (Sep(xs, t, close) + After(xs, t, close, tail)))
  {
    var more := After(xs, t, close, tail);
    assert Items(xs, t, close) + tail == [Literal(xs[0])] + (Sep(xs, t, close) + more) by {
      if |xs| == 1 {
        SeqAssoc([Literal(xs[0])], close, tail);
      } else {
        SeqAssoc([Literal(xs[0]), t], Items(xs[1..], t, close), tail);
        assert [Literal(xs[0]), t] == [Literal(xs[0])] + [t];
        SeqAssoc([Literal(xs[0])], [t], more);
      }
    }
    SeqAssoc(lead, Items(xs, t, close), tail);
  }

  /** Such literals, after blanks, do not start with `]`. */
  lemma ItemsStart(lead: seq<Token>, xs: seq<string>, t: Token, close: seq<Token>, tail: seq<Token>)
    requires AllBlank(lead) && xs != []
    requires (t == Comma || t == NewLine) && (close == [] || close == [t])
    ensures var ts := lead + Items(xs, t, close) + tail; ts != [] && !IsArrayEnd(ts)
  {
    var ts := lead + Items(xs, t, close) + tail;
    assert Items(xs, t, close)[0] == Literal(xs[0]);
    if lead == [] { assert ts[0] == Literal(xs[0]); } else { assert IsBlank(ts[0]); }
  }

  lemma ScalarsCons(s: Store, xs: seq<string>)
    requires xs != []
    ensures s + [Concat([Lit(xs[0])])] + Scalars(xs[1..]) == s + Scalars(xs)
  {
    var h := [Concat([Lit(xs[0])])];
    assert Scalars(xs) == h + Scalars(xs[1..]);
    SeqAssoc(s, h, Scalars(xs[1..]));
  }

  /** One turn of the element loop of ParseArray. */
  lemma LoopStep(s: Store, ts: seq<Token>, p: Parsed)
    requires ValidStore(s) && ts != [] && !IsArrayEnd(ts)
    requires ArrayElement(s, ts) == Success(p)
    ensures ValidStore(p.store)
    ensures ArrayLoop(s, ts) == Prepend([|s|], ArrayLoop(p.store, p.rest))
  {
  }

  lemma LoopEnd(s: Store, ts: seq<Token>)
    requires ValidStore(s) && IsArrayEnd(ts)
    ensures ArrayLoop(s, ts) == Success(ParsedArray(s, ts, []))
  {
  }

  /** The closing `]` after the element loop. */
  lemma ArrayClose(s: Store, ts: seq<Token>, a: ParsedArray)
    requires ValidStore(s) && ArrayLoop(s, ts) == Success(a) && IsArrayEnd(a.rest)
    ensures ParseArray(s, ts) == Success(ParsedArray(a.store, a.rest[1..], a.elements))
  {
  }

  /**
   * `[1,2,3,4]` and the same literals one per line: ParseArray returns one
   * element per literal, each a new node holding that literal, and reading
   * goes on after the `]`.
   */
  lemma ItemsArray(s: Store, lead: seq<Token>, xs: seq<string>, t: Token, close: seq<Token>, rest: seq<Token>)
    requires ValidStore(s) && AllBlank(lead) && xs != []
    requires (t == Comma || t == NewLine) && (close == [] || close == [t])
    ensures var r := ParseArray(s, lead + Items(xs, t, close) + [ArrayEnd] + rest);
            && r == Success(ParsedArray(s + Scalars(xs), rest, Ids(|s|, |xs|)))
            && |r.value.elements| == |xs|
  {
    var tail := [ArrayEnd] + rest;
    assert lead + Items(xs, t, close) + [ArrayEnd] + rest == lead + Items(xs, t, close) + tail;
    ItemsLoop(s, lead, xs, t, close, tail);
    assert tail[1..] == rest;
    ArrayClose(s, lead + Items(xs, t, close) + tail, ParsedArray(s + Scalars(xs), tail, Ids(|s|, |xs|)));
  }

  /**
   * `[1 2 3 4]`: literals separated only by same-line blanks are one value, so
   * ParseArray returns a single element, whose pieces are all of them.
   */
  lemma SpacedArray(s: Store, lead: seq<Token>, xs: seq<string>, w: string, rest: seq<Token>)
    requires ValidStore(s) && AllBlank(lead) && xs != [] && w != ""
    ensures ParseArray(s, lead + Spaced(xs, w) + [ArrayEnd] + rest)
         == Success(ParsedArray(s + [Concat(SpacedPieces(xs, w))], rest, [|s|]))
  {
    var tail := [ArrayEnd] + rest;
    var ts := lead + (Spaced(xs, w) + tail);
    assert lead + Spaced(xs, w) + [ArrayEnd] + rest == ts;
    var s1 := s + [Concat(SpacedPieces(xs, w))];
    SpacedLoop(s, lead, xs, w, tail);
    assert tail[1..] == rest;
    ArrayClose(s, ts, ParsedArray(s1, tail, [|s|]));
  }

  /** The element loop over such literals reads exactly one element. */
  lemma SpacedLoop(s: Store, lead: seq<Token>, xs: seq<string>, w: string, tail: seq<Token>)
    requires ValidStore(s) && AllBlank(lead) && xs != [] && w != "" && IsArrayEnd(tail)
    ensures ArrayLoop(s, lead + (Spaced(xs, w) + tail))
         == Success(ParsedArray(s + [Concat(SpacedPieces(xs, w))], tail, [|s|]))
  {
    var ts := lead + (Spaced(xs, w) + tail);
    var s1 := s + [Concat(SpacedPieces(xs, w))];
    SpacedElement(s, lead, xs, w, tail);
    assert ts != [] && !IsArrayEnd(ts) by {
      assert Spaced(xs, w)[0] == Literal(xs[0]);
      if lead == [] { assert ts[0] == Literal(xs[0]); } else { assert IsBlank(ts[0]); }
    }
    LoopStep(s, ts, Parsed(s1, tail));
    LoopEnd(s1, tail);
    assert [|s|] + [] == [|s|];
  }

  /** The one element of such an array: a new node holding every piece. */
  lemma SpacedElement(s: Store, lead: seq<Token>, xs: seq<string>, w: string, tail: seq<Token>)
    requires ValidStore(s) && AllBlank(lead) && xs != [] && w != "" && IsArrayEnd(tail)
    ensures ArrayElement(s, lead + (Spaced(xs, w) + tail))
         == Success(Parsed(s + [Concat(SpacedPieces(xs, w))], tail))
  {
    var ts := lead + (Spaced(xs, w) + tail);
    var n := NewNode(s);
    assert Spaced(xs, w)[0] == Literal(xs[0]);
    assert ParseValue(n, ts, |s|) == ValueLoop(n, Spaced(xs, w) + tail, |s|) by {
      SkipBlankAppend(lead, Spaced(xs, w) + tail);
    }
    SpacedValue(n, |s|, xs, w, tail);
    NewNodeSet(s, SpacedPieces(xs, w));
  }

  /** The pieces put into a new node are all it holds. */
  lemma NewNodeSet(s: Store, ps: seq<Piece>)
    requires ValidStore(s)
    ensures NewNode(s)[|s| := Concat(PiecesOf(NewNode(s)[|s|]) + ps)] == s + [Concat(ps)]
  {
    assert [] + ps == ps;
  }

  /** The literals with `w` between each two. */
  function JoinWith(xs: seq<string>, w: string): string
    requires xs != []
  {
    if |xs| == 1 then xs[0] else xs[0] + w + JoinWith(xs[1..], w)
  }

  lemma JoinedSnoc(ps: seq<Piece>, x: string)
    requires AllText(ps)
    ensures AllText(ps + [Lit(x)]) && Joined(ps + [Lit(x)]) == Joined(ps) + x
  {
    assert (ps + [Lit(x)])[..|ps|] == ps;
  }

  lemma {:induction false} JoinedAppend(a: seq<Piece>, b: seq<Piece>)
    requires AllText(a) && AllText(b)
    ensures AllText(a + b) && Joined(a + b) == Joined(a) + Joined(b)
    decreases |b|
  {
    if b == [] {
      assert a + b == a;
    } else {
      var b' := b[..|b| - 1];
      JoinedAppend(a, b');
      assert (a + b)[..|a + b| - 1] == a + b';
      assert (a + b)[|a + b| - 1] == b[|b| - 1];
    }
  }

  /** The string a same-line value reads as: its literals joined by the blank runs between them. */
  lemma {:induction false} SpacedJoined(xs: seq<string>, w: string)
    requires xs != []
    ensures Joined(SpacedPieces(xs, w)) == JoinWith(xs, w)
    decreases |xs|
  {
    if |xs| == 1 {
      assert SpacedPieces(xs, w)[..0] == [];
    } else {
      var h := [Lit(xs[0]), Lit(w)];
      JoinedSnoc([], xs[0]);
      assert [] + [Lit(xs[0])] == [Lit(xs[0])];
      JoinedSnoc([Lit(xs[0])], w);
      assert [Lit(xs[0])] + [Lit(w)] == h;
      assert Joined(h) == xs[0] + w;
      JoinedAppend(h, SpacedPieces(xs[1..], w));
      SpacedJoined(xs[1..], w);
    }
  }

  /** A same-line value reads as its literals joined by the blank runs, trimmed. */
  lemma SpacedRender(xs: seq<string>, w: string)
    requires xs != [] && Trim(JoinWith(xs, w)) != "null"
    ensures Render(Concat(SpacedPieces(xs, w))) == Some(Trim(JoinWith(xs, w)))
  {
    SpacedJoined(xs, w);
  }
}
