/**
 * The recursive-descent parser.  As in the source, one Parser object holds the
 * token reader (the tokens and a cursor) and the nodes being built, and its
 * productions advance the cursor and update nodes in place.  Every production
 * is proved to leave exactly the store and the cursor that the corresponding
 * function of module Grammar computes, or to raise the same error.
 */
module HoconParser {
  import opened Wrappers
  import opened Errors
  import opened Tokens
  import opened Values
  import Grammar

  /** The method's outcome and final state are those of the production `spec`. */
  ghost predicate Agrees(spec: Result<Grammar.Parsed, Error>, o: Outcome<Error>, s: Store, rest: seq<Token>) {
    match spec
    case Success(p) => o == Pass && p == Grammar.Parsed(s, rest)
    case Failure(e) => o == Fail(e)
  }

  ghost predicate AgreesArray(spec: Result<Grammar.ParsedArray, Error>, o: Outcome<Error>,
                              s: Store, rest: seq<Token>, elements: seq<NodeId>) {
    match spec
    case Success(a) => o == Pass && a == Grammar.ParsedArray(s, rest, elements)
    case Failure(e) => o == Fail(e)
  }

  lemma PrependStep(es: seq<NodeId>, v: NodeId, r: Result<Grammar.ParsedArray, Error>)
    ensures Grammar.Prepend(es + [v], r) == Grammar.Prepend(es, Grammar.Prepend([v], r))
  {
    if r.Success? {
      assert (es + [v]) + r.value.elements == es + ([v] + r.value.elements);
    }
  }

  /** One turn of the element loop: the element read, then the rest of the loop. */
  lemma LoopTurn(s: Store, ts: seq<Token>, p: Grammar.Parsed)
    requires ValidStore(s) && ts != [] && !IsArrayEnd(ts)
    requires Grammar.ArrayElement(s, ts) == Success(p)
    ensures ValidStore(p.store)
    ensures Grammar.ArrayLoop(s, ts) == Grammar.Prepend([|s|], Grammar.ArrayLoop(p.store, p.rest))
  {
  }

  /** The root that Parse returns for a parse that ends with store `r`. */
  function RootOf(r: Result<Store, Error>): Result<HoconRoot, Error> {
    match r
    case Success(s) => Success(HoconRoot(Some(Handle(s, 0))))
    case Failure(e) => Failure(e)
  }

  class Parser {
    const tokens: seq<Token>
    var pos: nat
    var nodes: Store
    var root: NodeId

    ghost predicate Valid()
      reads this
    {
      pos <= |tokens| && ValidStore(nodes) && root < |nodes|
    }

    /** The tokens the reader has not consumed yet. */
    function Rest(): seq<Token>
      reads this
      requires pos <= |tokens|
    {
      tokens[pos..]
    }

    constructor (tokens: seq<Token>)
      ensures this.tokens == tokens && pos == 0 && Valid()
    {
      this.tokens := tokens;
      pos := 0;
      nodes := NewNode([]);
      root := 0;
    }

    /** Parser.Parse: a new parser reads the whole token stream. */
    static method Parse(tokens: seq<Token>) returns (r: Result<HoconRoot, Error>)
      ensures r == RootOf(Grammar.ParseText(tokens))
    {
      var p := new Parser(tokens);
      r := p.ParseText();
    }

    /** ParseText: a fresh root node receives the top-level object body. */
    method ParseText() returns (r: Result<HoconRoot, Error>)
      modifies this
      ensures r == RootOf(Grammar.ParseText(tokens))
      ensures r.Success? ==> Valid() && r.value == HoconRoot(Some(Handle(nodes, root)))
    {
      nodes := NewNode([]);
      root := 0;
      pos := 0;
      PullWhitespaceAndComments();
      var o := ParseObject(root, true);
      if o.Fail? {
        return Failure(o.error);
      }
      r := Success(HoconRoot(Some(Handle(nodes, root))));
    }

    method PullWhitespaceAndComments()
      requires Valid()
      modifies this`pos
      ensures Valid() && old(pos) <= pos
      ensures Rest() == SkipBlank(old(Rest()))
    {
      ghost var goal := SkipBlank(tokens[pos..]);
      while pos < |tokens| && IsBlank(tokens[pos])
        invariant old(pos) <= pos <= |tokens|
        invariant SkipBlank(tokens[pos..]) == goal
        decreases |tokens| - pos
      {
        assert tokens[pos..][1..] == tokens[pos + 1..];
        pos := pos + 1;
      }
    }

    method PullNext() returns (t: Token)
      requires Valid()
      modifies this`pos
      ensures Valid() && old(pos) <= pos
      ensures (t, Rest()) == Tokens.PullNext(old(Rest()))
    {
      PullWhitespaceAndComments();
      if pos == |tokens| {
        return EoF;
      }
      t := tokens[pos];
      pos := pos + 1;
    }

    method IgnoreComma()
      requires Valid()
      modifies this`pos
      ensures Valid() && old(pos) <= pos
      ensures Rest() == Grammar.IgnoreComma(old(Rest()))
    {
      if IsComma(Rest()) {
        pos := pos + 1;
      }
    }

    method ParseObject(owner: NodeId, isRoot: bool) returns (o: Outcome<Error>)
      requires Valid() && owner < |nodes|
      modifies this`pos, this`nodes
      ensures Valid() && old(pos) <= pos
      ensures Agrees(Grammar.ParseObject(old(nodes), old(Rest()), owner, isRoot), o, nodes, Rest())
      decreases |tokens| - pos, 1
    {
      if !IsObject(nodes[owner]) {
        nodes := NewObject(nodes, owner);
      }
      while pos < |tokens|
        invariant Valid() && old(pos) <= pos && owner < |nodes| && IsObject(nodes[owner])
        invariant Grammar.ObjectBody(nodes, Rest(), owner, isRoot)
               == Grammar.ParseObject(old(nodes), old(Rest()), owner, isRoot)
        decreases |tokens| - pos
      {
        var t := PullNext();
        if t.Key? {
          var created := GetOrCreateKey(nodes, owner, t.name);
          nodes := created.0;
          o := ParseKeyContent(created.1);
          if o.Fail? || !isRoot {
            return;
          }
        } else if t.ObjectEnd? {
          return Pass;
        }
      }
      o := Pass;
    }

    method ParseKeyContent(node: NodeId) returns (o: Outcome<Error>)
      requires Valid() && node < |nodes|
      modifies this`pos, this`nodes
      ensures Valid() && old(pos) <= pos
      ensures Agrees(Grammar.KeyContent(old(nodes), old(Rest()), node), o, nodes, Rest())
      decreases |tokens| - pos, 0
    {
      while pos < |tokens|
        invariant Valid() && old(pos) <= pos && nodes == old(nodes)
        invariant Grammar.KeyContent(nodes, Rest(), node) == Grammar.KeyContent(old(nodes), old(Rest()), node)
        decreases |tokens| - pos
      {
        var t := PullNext();
        if t.Dot? {
          o := ParseObject(node, false);
          return;
        } else if t.Assign? {
          if !IsObject(nodes[node]) {
            nodes := Clear(nodes, node);
          }
          o := ParseValue(node);
          return;
        } else if t.ObjectStart? {
          o := ParseObject(node, true);
          return;
        }
      }
      o := Pass;
    }

    method ParseValue(owner: NodeId) returns (o: Outcome<Error>)
      requires Valid() && owner < |nodes|
      modifies this`pos, this`nodes
      ensures Valid() && old(pos) <= pos
      ensures Agrees(Grammar.ParseValue(old(nodes), old(Rest()), owner), o, nodes, Rest())
      decreases |tokens| - pos, 3
    {
      if pos == |tokens| {
        return Fail(UnexpectedEndOfInput);
      }
      PullWhitespaceAndComments();
      while IsValue(Rest())
        invariant Valid() && old(pos) <= pos && owner < |nodes|
        invariant Grammar.ValueLoop(nodes, Rest(), owner) == Grammar.ParseValue(old(nodes), old(Rest()), owner)
        decreases |tokens| - pos
      {
        ghost var s0, ts0 := nodes, Rest();
        o := PullValue(owner);
        if o.Fail? {
          return;
        }
        ghost var p := Grammar.Parsed(nodes, Rest());
        assert Grammar.PullValue(s0, ts0, owner) == Success(p);
        if IsSpaceOrTab(Rest()) {
          ParseTrailingWhitespace(owner);
        }
        assert Grammar.ValueLoop(s0, ts0, owner) == Grammar.ValueLoop(nodes, Rest(), owner);
      }
      IgnoreComma();
      o := Pass;
    }

    /** The switch on the pulled value token in ParseValue. */
    method PullValue(owner: NodeId) returns (o: Outcome<Error>)
      requires Valid() && owner < |nodes| && IsValue(Rest())
      modifies this`pos, this`nodes
      ensures Valid() && old(pos) < pos
      ensures Agrees(Grammar.PullValue(old(nodes), old(Rest()), owner), o, nodes, Rest())
      decreases |tokens| - pos, 2
    {
      ghost var s0, r0 := nodes, Rest();
      var t := tokens[pos];
      assert r0[1..] == tokens[pos + 1..];
      pos := pos + 1;
      if t.Literal? {
        if IsObject(nodes[owner]) {
          nodes := Clear(nodes, owner);
        }
        nodes := AppendValue(nodes, owner, Lit(t.text));
        o := Pass;
        assert Grammar.PullValue(s0, r0, owner) == Success(Grammar.Parsed(nodes, Rest()));
      } else if t.ObjectStart? {
        assert Grammar.PullValue(s0, r0, owner) == Grammar.ParseObject(s0, Rest(), owner, true);
        o := ParseObject(owner, true);
      } else {
        assert Grammar.PullValue(s0, r0, owner) == Grammar.AppendArray(s0, Rest(), owner);
        var elements;
        o, elements := ParseArray();
        if o.Pass? {
          nodes := AppendValue(nodes, owner, Arr(elements));
        }
      }
    }

    method ParseTrailingWhitespace(owner: NodeId)
      requires Valid() && owner < |nodes| && IsSpaceOrTab(Rest())
      modifies this`pos, this`nodes
      ensures Valid() && old(pos) < pos
      ensures Grammar.TrailingWhitespace(old(nodes), old(Rest()), owner) == Grammar.Parsed(nodes, Rest())
    {
      var ws := tokens[pos];
      pos := pos + 1;
      if |ws.text| > 0 {
        nodes := AppendValue(nodes, owner, Lit(ws.text));
      }
    }

    /** The body of ParseArray's loop: a new node, one value into it, then the blanks after it. */
    method ParseElement() returns (o: Outcome<Error>, v: NodeId)
      requires Valid()
      modifies this`pos, this`nodes
      ensures Valid() && old(pos) <= pos && v == |old(nodes)|
      ensures Agrees(Grammar.ArrayElement(old(nodes), old(Rest())), o, nodes, Rest())
      decreases |tokens| - pos, 4
    {
      v := |nodes|;
      nodes := NewNode(nodes);
      var before := pos;
      o := ParseValue(v);
      if o.Fail? {
        return;
      }
      PullWhitespaceAndComments();
      if pos == before {
        // the source would run this iteration again forever
        o := Fail(Stalled);
      }
    }

    method ParseArray() returns (o: Outcome<Error>, elements: seq<NodeId>)
      requires Valid()
      modifies this`pos, this`nodes
      ensures Valid() && old(pos) <= pos
      ensures AgreesArray(Grammar.ParseArray(old(nodes), old(Rest())), o, nodes, Rest(), elements)
      decreases |tokens| - pos, 6
    {
      elements := [];
      assert Grammar.Prepend([], Grammar.ArrayLoop(nodes, Rest())) == Grammar.ArrayLoop(nodes, Rest()) by {
        var r := Grammar.ArrayLoop(nodes, Rest());
        if r.Success? { assert [] + r.value.elements == r.value.elements; }
      }
      while pos < |tokens| && !IsArrayEnd(Rest())
        invariant Valid() && old(pos) <= pos
        invariant Grammar.Prepend(elements, Grammar.ArrayLoop(nodes, Rest())) == Grammar.ArrayLoop(old(nodes), old(Rest()))
        decreases |tokens| - pos
      {
        ghost var s0, r0 := nodes, Rest();
        var v;
        o, v := ParseElement();
        if o.Fail? {
          return;
        }
        LoopTurn(s0, r0, Grammar.Parsed(nodes, Rest()));
        PrependStep(elements, v, Grammar.ArrayLoop(nodes, Rest()));
        elements := elements + [v];
      }
      if !IsArrayEnd(Rest()) {
        return Fail(ExpectedArrayEnd), elements;
      }
      pos := pos + 1;
      o := Pass;
    }
  }
}
