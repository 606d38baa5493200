/**
 * What the productions of module Grammar do on the shapes of input that the
 * HOCON format is about: a dotted path and the equivalent nested braces set
 * the same node, the last scalar assigned to a node wins whatever the node
 * held, an object value merges while a literal replaces, one comma at most
 * ends a value, and an array holds one node per element.
 */
module GrammarFacts {
  import opened Wrappers
  import opened Errors
  import opened Tokens
  import opened Values
  import opened Grammar

  /** A node that holds only text pieces: what assigning a scalar leaves behind. */
  predicate IsScalar(n: Node) {
    n.Concat? && AllText(n.pieces)
  }

  /** Tokens that end a value and are left for the enclosing object. */
  predicate EndsValue(ts: seq<Token>) {
    !IsValue(ts) && !IsSpaceOrTab(ts) && !IsComma(ts)
  }

  /** The node receives `n` in place of whatever it held. */
  function SetScalar(s: Store, node: NodeId, n: Node): (r: Store)
    requires ValidStore(s) && node < |s| && IsScalar(n)
    ensures ValidStore(r) && r == s[node := n]
  {
    var r := s[node := n];
    assert forall i :: 0 <= i < |r| ==> NodeOk(r[i], i, |r|) by {
      forall i | 0 <= i < |r| ensures NodeOk(r[i], i, |r|) {
        if i != node { assert r[i] == s[i]; }
      }
    }
    r
  }

  /**
   * The reference meaning of assigning `n` to the path `ks` below `node`: each
   * key in turn is looked up in, or added to, an object (a node that is not
   * an object first becomes an empty one), and the node that the last key
   * reaches receives `n`, whatever it held before.
   */
  function Put(s: Store, node: NodeId, ks: seq<string>, n: Node): (r: Store)
    requires ValidStore(s) && node < |s| && IsScalar(n)
    ensures ValidStore(r) && |s| <= |r|
    ensures forall i :: 0 <= i < node ==> r[i] == s[i]
    ensures ks != [] ==> IsObject(r[node])
    ensures ks != [] && IsObject(s[node]) ==> Extends(s[node], r[node])
    decreases |ks|
  {
    if ks == [] then
      SetScalar(s, node, n)
    else
      var (s2, c) := GetOrCreateKey(EnsureObject(s, node), node, ks[0]);
      Put(s2, c, ks[1..], n)
  }

  /** After a Put, the path leads from `node` to a node holding exactly `n`. */
  lemma {:induction false} PutThenDescend(s: Store, node: NodeId, ks: seq<string>, n: Node)
    requires ValidStore(s) && node < |s| && IsScalar(n)
    ensures var r := Put(s, node, ks, n);
            && Descend(Handle(r, node), ks).Some?
            && NodeAt(Descend(Handle(r, node), ks).value) == n
    decreases |ks|
  {
    if ks != [] {
      var (s2, c) := GetOrCreateKey(EnsureObject(s, node), node, ks[0]);
      var r := Put(s2, c, ks[1..], n);
      assert r[node] == s2[node];
      assert GetChildObject(Handle(r, node), ks[0]) == Some(Handle(r, c));
      PutThenDescend(s2, c, ks[1..], n);
    }
  }

  /**
   * A Put whose path adds a new key `k` to an existing object `o` changes no
   * node that existed before except `o`, which keeps every key it had.
   */
  lemma {:induction false} PutFresh(s: Store, node: NodeId, p: seq<string>, k: string, rest: seq<string>,
                                    n: Node, o: NodeId)
    requires ValidStore(s) && node < |s| && IsScalar(n)
    requires Descend(Handle(s, node), p) == Some(Handle(s, o))
    requires IsObject(s[o]) && k !in s[o].children
    ensures var r := Put(s, node, p + [k] + rest, n);
            && |s| < |r| && Extends(s[o], r[o])
            && forall i :: 0 <= i < |s| && i != o ==> r[i] == s[i]
    decreases |p|
  {
    var ks := p + [k] + rest;
    if p == [] {
      assert ks[0] == k && ks[1..] == rest;
      var (s2, c) := GetOrCreateKey(EnsureObject(s, node), node, k);
      assert c == |s| && Extends(s[o], s2[o]);
    } else {
      assert ks[0] == p[0] && ks[1..] == p[1..] + [k] + rest;
      var c := GetChildObject(Handle(s, node), p[0]).value;
      assert GetOrCreateKey(EnsureObject(s, node), node, p[0]) == (s, c.id);
      PutFresh(s, c.id, p[1..], k, rest, n, o);
    }
  }

  /**
   * A path that leads somewhere in `s` leads to the same node in a store that
   * changes no old node except one object, which it only extends.
   */
  lemma {:induction false} DescendKept(s: Store, r: Store, o: NodeId, y: NodeId, q: seq<string>)
    requires ValidStore(s) && ValidStore(r) && |s| <= |r| && o < |s| && y < |s|
    requires Extends(s[o], r[o]) && forall i :: 0 <= i < |s| && i != o ==> r[i] == s[i]
    requires Descend(Handle(s, y), q).Some?
    ensures Descend(Handle(r, y), q) == Some(Handle(r, Descend(Handle(s, y), q).value.id))
    decreases |q|
  {
    if q != [] {
      var c := GetChildObject(Handle(s, y), q[0]).value;
      assert GetChildObject(Handle(r, y), q[0]) == Some(Handle(r, c.id));
      DescendKept(s, r, o, c.id, q[1..]);
    }
  }

  /**
   * A Put that adds a new key below an existing object keeps every path found
   * before it: the path leads to the same node, which reads the same.
   */
  lemma PutKeepsPath(s: Store, node: NodeId, p: seq<string>, k: string, rest: seq<string>, n: Node, o: NodeId,
                     q: seq<string>)
    requires ValidStore(s) && node < |s| && IsScalar(n)
    requires Descend(Handle(s, node), p) == Some(Handle(s, o))
    requires IsObject(s[o]) && k !in s[o].children
    requires Descend(Handle(s, node), q).Some?
    ensures var r := Put(s, node, p + [k] + rest, n);
            var x := Descend(Handle(s, node), q).value.id;
            && Descend(Handle(r, node), q) == Some(Handle(r, x))
            && Render(r[x]) == Render(s[x])
  {
    var r := Put(s, node, p + [k] + rest, n);
    var x := Descend(Handle(s, node), q).value.id;
    PutFresh(s, node, p, k, rest, n, o);
    DescendKept(s, r, o, node, q);
    assert Render(r[x]) == Render(s[x]) by {
      if x == o {
        assert !r[x].Concat? && !s[x].Concat?;
      }
    }
  }

  // ---- assignments ----

  lemma PullNextHead(t: Token, ts: seq<Token>)
    requires !IsBlank(t)
    ensures PullNext([t] + ts) == (t, ts)
  {
    assert ([t] + ts)[1..] == ts;
  }

  /** A literal that starts a value becomes a piece of the owner, replacing an object. */
  lemma ValueLiteral(s: Store, owner: NodeId, v: string, after: seq<Token>)
    requires ValidStore(s) && owner < |s|
    ensures var s2 := AppendValue(if IsObject(s[owner]) then Clear(s, owner) else s, owner, Lit(v));
            var q := AfterPiece(Parsed(s2, after), owner);
            ParseValue(s, [Literal(v)] + after, owner) == ValueLoop(q.store, q.rest, owner)
  {
    var ts := [Literal(v)] + after;
    assert SkipBlank(ts) == ts;
    assert ParseValue(s, ts, owner) == ValueLoop(s, ts, owner);
    assert ts[1..] == after;
    var s2 := AppendValue(if IsObject(s[owner]) then Clear(s, owner) else s, owner, Lit(v));
    assert PullValue(s, ts, owner) == Success(Parsed(s2, after));
    var q := AfterPiece(Parsed(s2, after), owner);
    assert ValueLoop(s, ts, owner) == ValueLoop(q.store, q.rest, owner);
  }

  /**
   * `= v` read by ParseKeyContent: whatever the node held, a scalar or an
   * object alike, the literal `v` becomes its only piece, and reading the
   * value goes on after it.
   */
  lemma AssignLiteral(s: Store, node: NodeId, v: string, after: seq<Token>)
    requires ValidStore(s) && node < |s|
    ensures var q := AfterPiece(Parsed(SetScalar(s, node, Concat([Lit(v)])), after), node);
            KeyContent(s, [Assign, Literal(v)] + after, node) == ValueLoop(q.store, q.rest, node)
  {
    assert [Assign, Literal(v)] + after == [Assign] + ([Literal(v)] + after);
    PullNextHead(Assign, [Literal(v)] + after);
    var s1 := if IsObject(s[node]) then s else Clear(s, node);
    assert KeyContent(s, [Assign, Literal(v)] + after, node) == ParseValue(s1, [Literal(v)] + after, node);
    ValueLiteral(s1, node, v, after);
    var s2 := AppendValue(if IsObject(s1[node]) then Clear(s1, node) else s1, node, Lit(v));
    assert s2 == SetScalar(s, node, Concat([Lit(v)]));
  }

  /** A key in an object body: its content is read into the child the key selects. */
  lemma BodyKey(s: Store, obj: NodeId, k: string, ts: seq<Token>, root: bool, p: Parsed)
    requires ValidStore(s) && obj < |s| && IsObject(s[obj])
    requires var (s1, c) := GetOrCreateKey(s, obj, k); KeyContent(s1, ts, c) == Success(p)
    ensures ValidStore(p.store) && obj < |p.store| && IsObject(p.store[obj])
    ensures ObjectBody(s, [Key(k)] + ts, obj, root) == if root then ObjectBody(p.store, p.rest, obj, root) else Success(p)
  {
    PullNextHead(Key(k), ts);
    var (s1, c) := GetOrCreateKey(s, obj, k);
    assert Keeps(s1, p.store, c);
  }

  lemma BodyEnd(s: Store, obj: NodeId, ts: seq<Token>, root: bool)
    requires ValidStore(s) && obj < |s| && IsObject(s[obj])
    ensures ObjectBody(s, [ObjectEnd] + ts, obj, root) == Success(Parsed(s, ts))
  {
    PullNextHead(ObjectEnd, ts);
  }

  lemma ValueLoopEnd(s: Store, ts: seq<Token>, owner: NodeId)
    requires ValidStore(s) && owner < |s| && !IsValue(ts)
    ensures ValueLoop(s, ts, owner) == Success(Parsed(s, IgnoreComma(ts)))
  {
  }

  /** The last scalar assigned to a node wins: `= v` replaces what it held. */
  lemma ScalarAssign(s: Store, node: NodeId, v: string, rest: seq<Token>)
    requires ValidStore(s) && node < |s| && !IsValue(rest) && !IsSpaceOrTab(rest)
    ensures KeyContent(s, [Assign, Literal(v)] + rest, node)
         == Success(Parsed(s[node := Concat([Lit(v)])], IgnoreComma(rest)))
  {
    AssignLiteral(s, node, v, rest);
  }

  // ---- blanks between tokens ----

  /** PullNext passes over a blank run in front of the token it returns. */
  lemma PullNextAfter(b: seq<Token>, t: Token, ts: seq<Token>)
    requires AllBlank(b) && !IsBlank(t)
    ensures PullNext(b + [t] + ts) == (t, ts)
  {
    assert b + [t] + ts == b + ([t] + ts);
    SkipBlankAppend(b, [t] + ts);
    assert ([t] + ts)[1..] == ts;
  }

  /**
   * An object body pulls each of its tokens with PullNext, so blanks in front
   * of them are never seen; only blanks before the end of input are, and
   * they end the body just as the end of input does.
   */
  lemma BodyIgnoresBlank(s: Store, ts: seq<Token>, obj: NodeId, root: bool)
    requires ValidStore(s) && obj < |s| && IsObject(s[obj])
    ensures ObjectBody(s, ts, obj, root) == ObjectBody(s, SkipBlank(ts), obj, root)
  {
    var u := SkipBlank(ts);
    if u != [] {
      assert SkipBlank(u) == u;
    }
  }

  /** A blank run in front of an object body's tokens does not change what the body reads. */
  lemma BodySkipsBlank(s: Store, b: seq<Token>, ts: seq<Token>, obj: NodeId, root: bool)
    requires ValidStore(s) && obj < |s| && IsObject(s[obj]) && AllBlank(b)
    ensures ObjectBody(s, b + ts, obj, root) == ObjectBody(s, ts, obj, root)
  {
    SkipBlankAppend(b, ts);
    BodyIgnoresBlank(s, b + ts, obj, root);
    BodyIgnoresBlank(s, ts, obj, root);
  }

  /** Blank runs before `=` and between `=` and the value are passed over. */
  lemma AssignSkipsBlank(s: Store, node: NodeId, w0: seq<Token>, w1: seq<Token>, x: Token, after: seq<Token>)
    requires ValidStore(s) && node < |s| && AllBlank(w0) && AllBlank(w1) && !IsBlank(x)
    ensures KeyContent(s, w0 + [Assign] + w1 + [x] + after, node) == KeyContent(s, [Assign, x] + after, node)
  {
    var y := [x] + after;
    assert w0 + [Assign] + w1 + [x] + after == w0 + [Assign] + (w1 + y);
    assert [Assign, x] + after == [] + [Assign] + y;
    PullNextAfter(w0, Assign, w1 + y);
    PullNextAfter([], Assign, y);
    SkipBlankAppend(w1, y);
    assert SkipBlank(y) == y;
  }

  /** Every run in `w` is blank. */
  predicate Blanks(w: seq<seq<Token>>) {
    forall i :: 0 <= i < |w| ==> AllBlank(w[i])
  }

  // ---- paths ----

  /**
   * `.k1.k2 ... = v` after a key, with the blank run `w[i]` in front of each
   * `.`, key, `=` and the literal, in that order, and `gap` right after the
   * literal.
   */
  function DottedTail(ks: seq<string>, v: string, gap: seq<Token>, w: seq<seq<Token>>): seq<Token>
    requires |w| == 2 * |ks| + 2
  {
    if ks == [] then w[0] + [Assign] + w[1] + [Literal(v)] + gap
    else w[0] + [Dot] + w[1] + [Key(ks[0])] + DottedTail(ks[1..], v, gap, w[2..])
  }

  /** The piece a same-line blank run right after a literal adds to it. */
  function GapPieces(gap: seq<Token>): seq<Piece> {
    if IsSpaceOrTab(gap) && gap[0].text != "" then [Lit(gap[0].text)] else []
  }

  /** The scalar that `v` followed by `gap` leaves in a node. */
  function GapScalar(v: string, gap: seq<Token>): (n: Node)
    ensures IsScalar(n) && n.pieces != [] && n.pieces[0] == Lit(v)
  {
    Concat([Lit(v)] + GapPieces(gap))
  }

  /** What is left of the gap once ParseValue has read the value. */
  function GapRest(gap: seq<Token>): (r: seq<Token>)
    ensures AllBlank(gap) ==> AllBlank(r)
  {
    if IsSpaceOrTab(gap) then gap[1..] else gap
  }

  /** A non-empty blank run after the literal becomes a second piece of the scalar. */
  lemma TrailingScalar(s: Store, node: NodeId, v: string, gap: seq<Token>, rest: seq<Token>)
    requires ValidStore(s) && node < |s| && IsSpaceOrTab(gap)
    ensures TrailingWhitespace(SetScalar(s, node, Concat([Lit(v)])), gap + rest, node)
         == Parsed(s[node := GapScalar(v, gap)], gap[1..] + rest)
  {
    var s2 := SetScalar(s, node, Concat([Lit(v)]));
    assert (gap + rest)[0] == gap[0] && (gap + rest)[1..] == gap[1..] + rest;
    if gap[0].text != "" {
      assert AppendValue(s2, node, Lit(gap[0].text)) == s[node := Concat([Lit(v)] + [Lit(gap[0].text)])];
    } else {
      assert [Lit(v)] + GapPieces(gap) == [Lit(v)];
    }
  }

  lemma GapAssign(s: Store, node: NodeId, v: string, gap: seq<Token>, rest: seq<Token>)
    requires ValidStore(s) && node < |s| && AllBlank(gap) && EndsValue(rest)
    ensures KeyContent(s, [Assign, Literal(v)] + gap + rest, node)
         == Success(Parsed(s[node := GapScalar(v, gap)], GapRest(gap) + rest))
  {
    var after := gap + rest;
    assert [Assign, Literal(v)] + gap + rest == [Assign, Literal(v)] + after;
    AssignLiteral(s, node, v, after);
    var s2 := SetScalar(s, node, Concat([Lit(v)]));
    var q := AfterPiece(Parsed(s2, after), node);
    if IsSpaceOrTab(gap) {
      TrailingScalar(s, node, v, gap, rest);
      assert gap[1..] == [] || IsBlank(gap[1..][0]);
    } else {
      assert gap == [] || IsBlank(gap[0]);
      assert [Lit(v)] + GapPieces(gap) == [Lit(v)];
    }
    assert q.rest == GapRest(gap) + rest;
    assert q.store == s[node := GapScalar(v, gap)];
    ValueLoopEnd(q.store, q.rest, node);
  }

  /**
   * `= v` with blanks before and after `=`: whatever the node held, it
   * becomes the scalar of `v` (plus the first same-line blank run after it),
   * and reading stops in front of what ends the value.
   */
  lemma SpacedAssign(s: Store, node: NodeId, v: string, w0: seq<Token>, w1: seq<Token>, gap: seq<Token>,
                     rest: seq<Token>)
    requires ValidStore(s) && node < |s| && AllBlank(w0) && AllBlank(w1) && AllBlank(gap) && EndsValue(rest)
    ensures KeyContent(s, w0 + [Assign] + w1 + [Literal(v)] + gap + rest, node)
         == Success(Parsed(s[node := GapScalar(v, gap)], GapRest(gap) + rest))
  {
    assert w0 + [Assign] + w1 + [Literal(v)] + gap + rest == w0 + [Assign] + w1 + [Literal(v)] + (gap + rest);
    AssignSkipsBlank(s, node, w0, w1, Literal(v), gap + rest);
    assert [Assign, Literal(v)] + (gap + rest) == [Assign, Literal(v)] + gap + rest;
    GapAssign(s, node, v, gap, rest);
  }

  /**
   * A dotted path nests one key per dot: each level is an object body that
   * stops after its single key, so the whole path is one Put, wherever
   * blanks stand between its tokens.
   */
  lemma {:induction false} DottedAssign(s: Store, node: NodeId, ks: seq<string>, v: string, gap: seq<Token>,
                                        w: seq<seq<Token>>, rest: seq<Token>)
    requires ValidStore(s) && node < |s| && |w| == 2 * |ks| + 2 && Blanks(w)
    requires AllBlank(gap) && EndsValue(rest)
    ensures KeyContent(s, DottedTail(ks, v, gap, w) + rest, node)
         == Success(Parsed(Put(s, node, ks, GapScalar(v, gap)), GapRest(gap) + rest))
    decreases |ks|
  {
    if ks == [] {
      SpacedAssign(s, node, v, w[0], w[1], gap, rest);
    } else {
      var tail := DottedTail(ks[1..], v, gap, w[2..]) + rest;
      assert DottedTail(ks, v, gap, w) + rest == w[0] + [Dot] + (w[1] + ([Key(ks[0])] + tail));
      PullNextAfter(w[0], Dot, w[1] + ([Key(ks[0])] + tail));
      BodySkipsBlank(EnsureObject(s, node), w[1], [Key(ks[0])] + tail, node, false);
      var (s2, c) := GetOrCreateKey(EnsureObject(s, node), node, ks[0]);
      assert Blanks(w[2..]) by {
        forall i | 0 <= i < |w[2..]| ensures AllBlank(w[2..][i]) {
          assert w[2..][i] == w[i + 2];
        }
      }
      DottedAssign(s2, c, ks[1..], v, gap, w[2..], rest);
      BodyKey(EnsureObject(s, node), node, ks[0], tail, false,
              Parsed(Put(s2, c, ks[1..], GapScalar(v, gap)), GapRest(gap) + rest));
    }
  }

  /**
   * ` { k1 { k2 ... = v gap } }` after a key: an object opened before each
   * further key and closed after the value.  The blank runs `w[i]` stand, for
   * each level, before `{`, before the key and after the matching `}`; the
   * two innermost stand before `=` and before the literal, and `gap` between
   * the literal and the first `}`.
   */
  function BracedTail(ks: seq<string>, v: string, gap: seq<Token>, w: seq<seq<Token>>): seq<Token>
    requires |w| == 3 * |ks| + 2
  {
    if ks == [] then w[0] + [Assign] + w[1] + [Literal(v)] + gap
    else w[0] + [ObjectStart] + w[1] + [Key(ks[0])] + BracedTail(ks[1..], v, gap, w[2..|w| - 1])
         + [ObjectEnd] + w[|w| - 1]
  }

  /** The blanks a braced tail leaves unread: what is left of the gap, or the run after the last `}`. */
  function BracedLeft(ks: seq<string>, gap: seq<Token>, w: seq<seq<Token>>): seq<Token>
    requires |w| == 3 * |ks| + 2
  {
    if ks == [] then GapRest(gap) else w[|w| - 1]
  }

  /**
   * Nested braces reach the same node as the dotted path, by the same Put;
   * the same-line blank run before the first `}` is kept as a trailing piece.
   */
  lemma {:induction false} BracedAssign(s: Store, node: NodeId, ks: seq<string>, v: string, gap: seq<Token>,
                                        w: seq<seq<Token>>, rest: seq<Token>)
    requires ValidStore(s) && node < |s| && |w| == 3 * |ks| + 2 && Blanks(w)
    requires AllBlank(gap) && EndsValue(rest)
    ensures AllBlank(BracedLeft(ks, gap, w))
    ensures KeyContent(s, BracedTail(ks, v, gap, w) + rest, node)
         == Success(Parsed(Put(s, node, ks, GapScalar(v, gap)), BracedLeft(ks, gap, w) + rest))
    decreases |ks|
  {
    if ks == [] {
      SpacedAssign(s, node, v, w[0], w[1], gap, rest);
    } else {
      var w' := w[2..|w| - 1];
      var (s2, c) := GetOrCreateKey(EnsureObject(s, node), node, ks[0]);
      BracedUnfold(ks, v, gap, w);
      BracedAssign(s2, c, ks[1..], v, gap, w', [ObjectEnd] + (w[|w| - 1] + rest));
      BracedLevel(s, node, ks, v, gap, w, rest);
    }
  }

  /** BracedTail with at least one key is one level of braces around the tail of the rest. */
  lemma BracedUnfold(ks: seq<string>, v: string, gap: seq<Token>, w: seq<seq<Token>>)
    requires |w| == 3 * |ks| + 2 && ks != [] && Blanks(w)
    ensures Blanks(w[2..|w| - 1]) && AllBlank(w[0]) && AllBlank(w[1]) && AllBlank(w[|w| - 1])
  {
    var w' := w[2..|w| - 1];
    forall i | 0 <= i < |w'| ensures AllBlank(w'[i]) {
      assert w'[i] == w[i + 2];
    }
  }

  /** The step of BracedAssign: one level of braces around what the path's tail puts. */
  lemma BracedLevel(s: Store, node: NodeId, ks: seq<string>, v: string, gap: seq<Token>,
                    w: seq<seq<Token>>, rest: seq<Token>)
    requires ValidStore(s) && node < |s| && |w| == 3 * |ks| + 2 && ks != []
    requires AllBlank(w[0]) && AllBlank(w[1])
    requires var (s2, c) := GetOrCreateKey(EnsureObject(s, node), node, ks[0]);
             var w' := w[2..|w| - 1];
             var rest' := [ObjectEnd] + (w[|w| - 1] + rest);
             && AllBlank(BracedLeft(ks[1..], gap, w'))
             && KeyContent(s2, BracedTail(ks[1..], v, gap, w') + rest', c)
                == Success(Parsed(Put(s2, c, ks[1..], GapScalar(v, gap)), BracedLeft(ks[1..], gap, w') + rest'))
    ensures KeyContent(s, BracedTail(ks, v, gap, w) + rest, node)
         == Success(Parsed(Put(s, node, ks, GapScalar(v, gap)), w[|w| - 1] + rest))
  {
    var w' := w[2..|w| - 1];
    var after := w[|w| - 1];
    var (s2, c) := GetOrCreateKey(EnsureObject(s, node), node, ks[0]);
    var n := GapScalar(v, gap);
    var inner := BracedTail(ks[1..], v, gap, w');
    assert BracedTail(ks, v, gap, w) + rest
        == w[0] + [ObjectStart] + w[1] + [Key(ks[0])] + inner + [ObjectEnd] + (after + rest);
    assert Put(s, node, ks, n) == Put(s2, c, ks[1..], n);
    BraceLevel(s, node, w[0], w[1], ks[0], inner, BracedLeft(ks[1..], gap, w'), after + rest, Put(s2, c, ks[1..], n));
  }

  /**
   * One level of braces: `{ k ... }`, with blanks before `{` and before `k`,
   * around content that fills the child `k` selects.
   */
  /** `{` after a key, with blank runs before and after it, opens a body in the key's node, made an object. */
  lemma BraceOpen(s: Store, node: NodeId, w0: seq<Token>, w1: seq<Token>, body: seq<Token>)
    requires ValidStore(s) && node < |s| && AllBlank(w0) && AllBlank(w1)
    ensures KeyContent(s, w0 + [ObjectStart] + (w1 + body), node) == ObjectBody(EnsureObject(s, node), body, node, true)
  {
    PullNextAfter(w0, ObjectStart, w1 + body);
    BodySkipsBlank(EnsureObject(s, node), w1, body, node, true);
  }

  /** A blank run and then `}` end a body and change nothing. */
  lemma BraceClose(r: Store, node: NodeId, blanks: seq<Token>, rest: seq<Token>)
    requires ValidStore(r) && node < |r| && IsObject(r[node]) && AllBlank(blanks)
    ensures ObjectBody(r, blanks + ([ObjectEnd] + rest), node, true) == Success(Parsed(r, rest))
  {
    BodySkipsBlank(r, blanks, [ObjectEnd] + rest, node, true);
    BodyEnd(r, node, rest, true);
  }

  lemma BraceLevel(s: Store, node: NodeId, w0: seq<Token>, w1: seq<Token>, k: string, tail: seq<Token>,
                   blanks: seq<Token>, rest: seq<Token>, r: Store)
    requires ValidStore(s) && node < |s| && AllBlank(w0) && AllBlank(w1) && AllBlank(blanks)
    requires var (s2, c) := GetOrCreateKey(EnsureObject(s, node), node, k);
             KeyContent(s2, tail + ([ObjectEnd] + rest), c) == Success(Parsed(r, blanks + ([ObjectEnd] + rest)))
    ensures KeyContent(s, w0 + [ObjectStart] + w1 + [Key(k)] + tail + [ObjectEnd] + rest, node)
         == Success(Parsed(r, rest))
  {
    var inner := tail + ([ObjectEnd] + rest);
    assert w0 + [ObjectStart] + w1 + [Key(k)] + tail + [ObjectEnd] + rest == w0 + [ObjectStart] + (w1 + ([Key(k)] + inner));
    BraceOpen(s, node, w0, w1, [Key(k)] + inner);
    BodyKey(EnsureObject(s, node), node, k, inner, true, Parsed(r, blanks + ([ObjectEnd] + rest)));
    BraceClose(r, node, blanks, rest);
  }

  // ---- text reading of a scalar ----

  lemma {:induction false} TrimEndWhite(x: string, w: string)
    requires AllWhite(w)
    ensures TrimEnd(x + w) == TrimEnd(x)
    decreases |w|
  {
    if w != [] {
      assert (x + w)[..|x + w| - 1] == x + w[..|w| - 1];
      TrimEndWhite(x, w[..|w| - 1]);
    } else {
      assert x + w == x;
    }
  }

  lemma {:induction false} TrimStartAppend(v: string, w: string)
    ensures TrimStart(v) != [] ==> TrimStart(v + w) == TrimStart(v) + w
    ensures TrimStart(v) == [] ==> TrimStart(v + w) == TrimStart(w)
    decreases |v|
  {
    if v == [] {
      assert v + w == w;
    } else if IsWhiteSpace(v[0]) {
      assert (v + w)[1..] == v[1..] + w;
      TrimStartAppend(v[1..], w);
    }
  }

  /** Whitespace after a text does not change the text String.Trim gives. */
  lemma TrimWhiteSuffix(v: string, w: string)
    requires AllWhite(w)
    ensures Trim(v + w) == Trim(v)
  {
    TrimStartAppend(v, w);
    if TrimStart(v) != [] {
      TrimEndWhite(TrimStart(v), w);
    } else {
      TrimStartWhite(w);
    }
  }

  lemma {:induction false} TrimStartWhite(w: string)
    requires AllWhite(w)
    ensures TrimStart(w) == []
    decreases |w|
  {
    if w != [] {
      TrimStartWhite(w[1..]);
    }
  }

  /** A trailing whitespace piece changes nothing in the string a getter reads. */
  lemma GapInvisible(v: string, gap: seq<Token>)
    requires IsSpaceOrTab(gap) ==> AllWhite(gap[0].text)
    ensures Render(GapScalar(v, gap)) == Render(Concat([Lit(v)]))
  {
    var ps := [Lit(v)] + GapPieces(gap);
    assert AllText(ps);
    assert Joined([Lit(v)]) == v by {
      assert [Lit(v)][..0] == [];
    }
    if GapPieces(gap) != [] {
      assert ps[..1] == [Lit(v)];
      assert Joined(ps) == v + gap[0].text;
      TrimWhiteSuffix(v, gap[0].text);
    }
  }

  // ---- whole documents ----

  /**
   * One setting of a document: a path, dotted or written with nested braces,
   * assigned one literal.  `pads` holds the blank runs of its layout: the
   * first stands before the first key, the others are those of DottedTail or
   * BracedTail; `gap` is the blank run right after the literal.
   */
  datatype Setting =
    | DottedSetting(path: seq<string>, text: string, pads: seq<seq<Token>>, gap: seq<Token>)
    | BracedSetting(path: seq<string>, text: string, pads: seq<seq<Token>>, gap: seq<Token>)
  {
    predicate Valid() {
      && path != [] && Blanks(pads) && AllBlank(gap)
      && |pads| == 1 + (if DottedSetting? then 2 else 3) * (|path| - 1) + 2
    }

    function Tokens(): seq<Token>
      requires Valid()
    {
      pads[0] + [Key(path[0])] + Tail()
    }

    /** The tokens after the first key. */
    function Tail(): seq<Token>
      requires Valid()
    {
      if DottedSetting? then DottedTail(path[1..], text, gap, pads[1..])
      else BracedTail(path[1..], text, gap, pads[1..])
    }

    /** The blanks the key's content leaves unread in front of `sep`. */
    function Leftover(sep: seq<Token>): seq<Token>
      requires Valid()
    {
      (if DottedSetting? then GapRest(gap) else BracedLeft(path[1..], gap, pads[1..])) + sep
    }

    /** The node the setting leaves at the end of its path. */
    function Value(): (n: Node)
      ensures IsScalar(n)
    {
      GapScalar(text, gap)
    }
  }

  /** A same-line blank run right after a value holds only whitespace characters. */
  predicate WhiteGap(gap: seq<Token>) {
    IsSpaceOrTab(gap) ==> AllWhite(gap[0].text)
  }

  /** Settings one per line. */
  function Document(settings: seq<Setting>): seq<Token>
    requires forall i :: 0 <= i < |settings| ==> settings[i].Valid()
  {
    if settings == [] then []
    else
      assert settings[0].Valid();
      settings[0].Tokens() + Separator(settings[1..]) + Document(settings[1..])
  }

  /** The line break between a setting and the next one, if there is one. */
  function Separator(later: seq<Setting>): seq<Token> {
    if later == [] then [] else [NewLine]
  }

  /** Every setting applied in order, each a Put from the root. */
  function PutAll(s: Store, settings: seq<Setting>): (r: Store)
    requires ValidStore(s) && |s| >= 1
    ensures ValidStore(r) && |r| >= |s|
    decreases |settings|
  {
    if settings == [] then s
    else PutAll(Put(s, 0, settings[0].path, settings[0].Value()), settings[1..])
  }

  /** The root store a parse starts from, once ParseText has made the root an object. */
  const Start: Store := [EmptyObject]

  /**
   * A document of settings parses to the store that applying the settings
   * one after the other gives: keys met again are reused, so objects merge,
   * and a scalar assigned again replaces the earlier one.
   */
  lemma {:induction false} ParseDocument(s: Store, settings: seq<Setting>)
    requires ValidStore(s) && |s| >= 1 && IsObject(s[0])
    requires forall i :: 0 <= i < |settings| ==> settings[i].Valid()
    ensures ObjectBody(s, Document(settings), 0, true) == Success(Parsed(PutAll(s, settings), []))
    decreases |settings|
  {
    if settings != [] {
      SettingStep(s, settings[0], Separator(settings[1..]), Document(settings[1..]));
      ParseDocument(Put(s, 0, settings[0].path, settings[0].Value()), settings[1..]);
    }
  }

  /** One setting and the line break after it, read by the root object body. */
  lemma SettingStep(s: Store, st: Setting, sep: seq<Token>, later: seq<Token>)
    requires ValidStore(s) && |s| >= 1 && IsObject(s[0]) && st.Valid()
    requires sep == [NewLine] || (sep == [] && later == [])
    ensures ObjectBody(s, st.Tokens() + sep + later, 0, true)
         == ObjectBody(Put(s, 0, st.path, st.Value()), later, 0, true)
  {
    var k := st.path[0];
    var rest := sep + later;
    var r := Put(s, 0, st.path, st.Value());
    SettingContent(s, st, sep, later);
    assert st.Tokens() + sep + later == st.pads[0] + ([Key(k)] + (st.Tail() + rest)) by {
      SeqAssoc(st.Tokens(), sep, later);
      SeqAssoc(st.pads[0] + [Key(k)], st.Tail(), rest);
      SeqAssoc(st.pads[0], [Key(k)], st.Tail() + rest);
    }
    assert AllBlank(st.pads[0]);
    BodySkipsBlank(s, st.pads[0], [Key(k)] + (st.Tail() + rest), 0, true);
    KeyLine(s, k, st.Tail() + rest, r, st.Leftover(sep), later);
  }

  /** The content after a setting's first key puts its value at the rest of the path. */
  lemma SettingContent(s: Store, st: Setting, sep: seq<Token>, later: seq<Token>)
    requires ValidStore(s) && |s| >= 1 && IsObject(s[0]) && st.Valid()
    requires sep == [NewLine] || (sep == [] && later == [])
    ensures AllBlank(st.Leftover(sep))
    ensures var sc := GetOrCreateKey(s, 0, st.path[0]);
            KeyContent(sc.0, st.Tail() + (sep + later), sc.1)
              == Success(Parsed(Put(s, 0, st.path, st.Value()), st.Leftover(sep) + later))
  {
    var sc := GetOrCreateKey(s, 0, st.path[0]);
    var rest := sep + later;
    assert EndsValue(rest);
    assert Put(s, 0, st.path, st.Value()) == Put(sc.0, sc.1, st.path[1..], st.Value());
    var w := st.pads[1..];
    assert Blanks(w) by {
      forall i | 0 <= i < |w| ensures AllBlank(w[i]) {
        assert w[i] == st.pads[i + 1];
      }
    }
    var left := if st.DottedSetting? then GapRest(st.gap) else BracedLeft(st.path[1..], st.gap, w);
    if st.DottedSetting? {
      DottedAssign(sc.0, sc.1, st.path[1..], st.text, st.gap, w, rest);
    } else {
      BracedAssign(sc.0, sc.1, st.path[1..], st.text, st.gap, w, rest);
    }
    SeqAssoc(left, sep, later);
    BlankJoin(left, sep);
  }

  /** Two blank runs in a row are one blank run. */
  lemma BlankJoin(a: seq<Token>, b: seq<Token>)
    requires AllBlank(a) && AllBlank(b)
    ensures AllBlank(a + b)
  {
    forall i | 0 <= i < |a + b| ensures IsBlank((a + b)[i]) {
      if i >= |a| {
        assert (a + b)[i] == b[i - |a|];
      }
    }
  }

  lemma SeqAssoc<T>(a: seq<T>, b: seq<T>, c: seq<T>)
    ensures a + b + c == a + (b + c)
  {
  }

  /** A key at the top level, its content, then blanks up to what follows. */
  lemma KeyLine(s: Store, k: string, body: seq<Token>, r: Store, blanks: seq<Token>, later: seq<Token>)
    requires ValidStore(s) && |s| >= 1 && IsObject(s[0]) && AllBlank(blanks)
    requires var (s2, c) := GetOrCreateKey(s, 0, k);
             KeyContent(s2, body, c) == Success(Parsed(r, blanks + later))
    ensures ObjectBody(s, [Key(k)] + body, 0, true) == ObjectBody(r, later, 0, true)
  {
    assert ValidStore(r) && IsObject(r[0])
        && ObjectBody(s, [Key(k)] + body, 0, true) == ObjectBody(r, blanks + later, 0, true) by {
      BodyKey(s, 0, k, body, true, Parsed(r, blanks + later));
    }
    BodySkipsBlank(r, blanks, later, 0, true);
  }

  /** ParseText on a document is the settings applied to an empty root object. */
  lemma ParseTextDocument(settings: seq<Setting>)
    requires forall i :: 0 <= i < |settings| ==> settings[i].Valid()
    ensures ParseText(Document(settings)) == Success(PutAll(Start, settings))
  {
    ParseDocument(Start, settings);
    ParseTextBody(Document(settings), PutAll(Start, settings));
  }

  /** ParseText reads a stream with the body of a fresh root object, after any leading blanks. */
  lemma ParseTextBody(ts: seq<Token>, s: Store)
    requires ObjectBody(Start, ts, 0, true) == Success(Parsed(s, []))
    ensures ParseText(ts) == Success(s)
  {
    assert EnsureObject(NewNode([]), 0) == Start;
    BodyIgnoresBlank(Start, ts, 0, true);
  }

  /**
   * A dotted path and the same path written with nested braces, each with
   * any blanks the layout allows, parse to configurations that read the same
   * string at that path (Can_use_paths_as_keys).
   */
  lemma DottedEqualsBraced(d: Setting, b: Setting)
    requires d.DottedSetting? && b.BracedSetting? && d.Valid() && b.Valid()
    requires d.path == b.path && d.text == b.text && WhiteGap(d.gap) && WhiteGap(b.gap)
    ensures var dotted := ParseText(d.Tokens());
            var braced := ParseText(b.Tokens());
            && dotted.Success? && braced.Success?
            && Descend(Handle(dotted.value, 0), d.path).Some?
            && Descend(Handle(braced.value, 0), d.path).Some?
            && Render(NodeAt(Descend(Handle(dotted.value, 0), d.path).value))
               == Render(NodeAt(Descend(Handle(braced.value, 0), d.path).value))
               == Render(Concat([Lit(d.text)]))
  {
    assert Document([d]) == d.Tokens();
    assert Document([b]) == b.Tokens();
    ParseTextDocument([d]);
    ParseTextDocument([b]);
    assert PutAll(Start, [d]) == Put(Start, 0, d.path, d.Value());
    assert PutAll(Start, [b]) == Put(Start, 0, d.path, b.Value());
    PutThenDescend(Start, 0, d.path, d.Value());
    PutThenDescend(Start, 0, d.path, b.Value());
    GapInvisible(d.text, d.gap);
    GapInvisible(d.text, b.gap);
  }

  // ---- what a production consumes ----

  lemma SuffixTrans(a: seq<Token>, b: seq<Token>, c: seq<Token>)
    requires IsSuffix(a, b) && IsSuffix(b, c)
    ensures IsSuffix(a, c)
  {
    assert c[|c| - |b|..][|b| - |a|..] == c[|c| - |a|..];
  }

  lemma {:induction false} SkipBlankSuffix(ts: seq<Token>)
    ensures IsSuffix(SkipBlank(ts), ts)
    decreases |ts|
  {
    if ts != [] && IsBlank(ts[0]) {
      SkipBlankSuffix(ts[1..]);
      SuffixTrans(SkipBlank(ts[1..]), ts[1..], ts);
    }
  }

  lemma PullNextSuffix(ts: seq<Token>)
    ensures IsSuffix(PullNext(ts).1, ts)
  {
    var u := SkipBlank(ts);
    SkipBlankSuffix(ts);
    if u != [] {
      SuffixTrans(u[1..], u, ts);
    }
  }

  /** An object body only reads tokens from the front: what it leaves is a suffix of its input. */
  lemma {:induction false} ObjectBodyRest(s: Store, ts: seq<Token>, obj: NodeId, root: bool)
    requires ValidStore(s) && obj < |s| && IsObject(s[obj])
    ensures var r := ObjectBody(s, ts, obj, root); r.Success? ==> IsSuffix(r.value.rest, ts)
    decreases |ts|, 0
  {
    if ts != [] {
      var (t, ts1) := PullNext(ts);
      PullNextSuffix(ts);
      if t.Key? {
        var (s1, child) := GetOrCreateKey(s, obj, t.name);
        KeyContentRest(s1, ts1, child);
        var k := KeyContent(s1, ts1, child);
        if k.Success? {
          SuffixTrans(k.value.rest, ts1, ts);
          if root {
            ObjectBodyRest(k.value.store, k.value.rest, obj, root);
            var r := ObjectBody(k.value.store, k.value.rest, obj, root);
            if r.Success? {
              SuffixTrans(r.value.rest, k.value.rest, ts);
            }
          }
        }
      } else if !t.ObjectEnd? {
        ObjectBodyRest(s, ts1, obj, root);
        var r := ObjectBody(s, ts1, obj, root);
        if r.Success? {
          SuffixTrans(r.value.rest, ts1, ts);
        }
      }
    }
  }

  lemma {:induction false} ParseObjectRest(s: Store, ts: seq<Token>, owner: NodeId, root: bool)
    requires ValidStore(s) && owner < |s|
    ensures var r := ParseObject(s, ts, owner, root); r.Success? ==> IsSuffix(r.value.rest, ts)
    decreases |ts|, 1
  {
    ObjectBodyRest(EnsureObject(s, owner), ts, owner, root);
  }

  lemma {:induction false} KeyContentRest(s: Store, ts: seq<Token>, node: NodeId)
    requires ValidStore(s) && node < |s|
    ensures var r := KeyContent(s, ts, node); r.Success? ==> IsSuffix(r.value.rest, ts)
    decreases |ts|, 0
  {
    if ts != [] {
      var (t, ts1) := PullNext(ts);
      PullNextSuffix(ts);
      var r := KeyContent(s, ts, node);
      if t.Dot? {
        ParseObjectRest(s, ts1, node, false);
      } else if t.Assign? {
        ParseValueRest(if IsObject(s[node]) then s else Clear(s, node), ts1, node);
      } else if t.ObjectStart? {
        ParseObjectRest(s, ts1, node, true);
      } else {
        KeyContentRest(s, ts1, node);
      }
      if r.Success? {
        SuffixTrans(r.value.rest, ts1, ts);
      }
    }
  }

  lemma {:induction false} ParseValueRest(s: Store, ts: seq<Token>, owner: NodeId)
    requires ValidStore(s) && owner < |s|
    ensures var r := ParseValue(s, ts, owner); r.Success? ==> IsSuffix(r.value.rest, ts)
    decreases |ts|, 3
  {
    if ts != [] {
      SkipBlankSuffix(ts);
      ValueLoopRest(s, SkipBlank(ts), owner);
      var r := ValueLoop(s, SkipBlank(ts), owner);
      if r.Success? {
        SuffixTrans(r.value.rest, SkipBlank(ts), ts);
      }
    }
  }

  lemma {:induction false} ValueLoopRest(s: Store, ts: seq<Token>, owner: NodeId)
    requires ValidStore(s) && owner < |s|
    ensures var r := ValueLoop(s, ts, owner); r.Success? ==> IsSuffix(r.value.rest, ts)
    decreases |ts|, 2
  {
    if IsValue(ts) {
      PullValueRest(s, ts, owner);
      var p := PullValue(s, ts, owner);
      if p.Success? {
        var q := AfterPiece(p.value, owner);
        assert IsSuffix(q.rest, p.value.rest);
        SuffixTrans(q.rest, p.value.rest, ts);
        ValueLoopRest(q.store, q.rest, owner);
        var r := ValueLoop(q.store, q.rest, owner);
        if r.Success? {
          SuffixTrans(r.value.rest, q.rest, ts);
        }
      }
    }
  }

  lemma {:induction false} PullValueRest(s: Store, ts: seq<Token>, owner: NodeId)
    requires ValidStore(s) && owner < |s| && IsValue(ts)
    ensures var r := PullValue(s, ts, owner); r.Success? ==> IsSuffix(r.value.rest, ts)
    decreases |ts|, 1
  {
    var r := PullValue(s, ts, owner);
    if ts[0].ObjectStart? {
      ParseObjectRest(s, ts[1..], owner, true);
      if r.Success? {
        SuffixTrans(r.value.rest, ts[1..], ts);
      }
    } else if ts[0].ArrayStart? {
      ParseArrayRest(s, ts[1..]);
      var a := ParseArray(s, ts[1..]);
      if a.Success? {
        SuffixTrans(a.value.rest, [ArrayEnd] + a.value.rest, ts[1..]);
        SuffixTrans(a.value.rest, ts[1..], ts);
      }
    }
  }

  lemma {:induction false} ParseArrayRest(s: Store, ts: seq<Token>)
    requires ValidStore(s)
    ensures var r := ParseArray(s, ts); r.Success? ==> IsSuffix([ArrayEnd] + r.value.rest, ts)
    decreases |ts|, 6
  {
    ArrayLoopRest(s, ts);
    var a := ArrayLoop(s, ts);
    if a.Success? && IsArrayEnd(a.value.rest) {
      assert a.value.rest == [ArrayEnd] + a.value.rest[1..];
    }
  }

  lemma {:induction false} ArrayLoopRest(s: Store, ts: seq<Token>)
    requires ValidStore(s)
    ensures var r := ArrayLoop(s, ts); r.Success? ==> IsSuffix(r.value.rest, ts)
    decreases |ts|, 5
  {
    if ts != [] && !IsArrayEnd(ts) {
      ArrayElementRest(s, ts);
      var p := ArrayElement(s, ts);
      if p.Success? {
        ArrayLoopRest(p.value.store, p.value.rest);
        var r := ArrayLoop(p.value.store, p.value.rest);
        if r.Success? {
          SuffixTrans(r.value.rest, p.value.rest, ts);
        }
      }
    }
  }

  lemma {:induction false} ArrayElementRest(s: Store, ts: seq<Token>)
    requires ValidStore(s)
    ensures var r := ArrayElement(s, ts); r.Success? ==> IsSuffix(r.value.rest, ts)
    decreases |ts|, 4
  {
    ParseValueRest(NewNode(s), ts, |s|);
    var p := ParseValue(NewNode(s), ts, |s|);
    if p.Success? {
      SkipBlankSuffix(p.value.rest);
      SuffixTrans(SkipBlank(p.value.rest), p.value.rest, ts);
    }
  }

  /**
   * ParseArray ends on a `]`: on success the token it consumed last is `]`,
   * and what it leaves is everything after that `]`.
   */
  lemma ArrayEndsAtBracket(s: Store, ts: seq<Token>)
    requires ValidStore(s)
    ensures var r := ParseArray(s, ts);
            r.Success? ==> |r.value.rest| < |ts| && ts[|ts| - |r.value.rest| - 1] == ArrayEnd
                           && r.value.rest == ts[|ts| - |r.value.rest|..]
  {
    ParseArrayRest(s, ts);
    var r := ParseArray(s, ts);
    if r.Success? {
      var k := |ts| - |r.value.rest| - 1;
      assert ts[k..] == [ArrayEnd] + r.value.rest;
      assert ts[k..][0] == ts[k];
      assert ts[k..][1..] == ts[k + 1..];
    }
  }

  /**
   * Input that ends inside an array: with no `]` anywhere in the tokens the
   * array cannot succeed, and when its elements parse, ParseArray raises
   * ExpectedArrayEnd.
   */
  lemma UnclosedArray(s: Store, ts: seq<Token>)
    requires ValidStore(s) && forall i :: 0 <= i < |ts| ==> ts[i] != ArrayEnd
    ensures ParseArray(s, ts).Failure?
    ensures ArrayLoop(s, ts).Success? ==> ParseArray(s, ts) == Failure(ExpectedArrayEnd)
  {
    ArrayLoopRest(s, ts);
  }
}
