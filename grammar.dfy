/**
 * The parser's productions as functions: each takes the store of nodes and the
 * tokens not yet read, and gives the updated store and the tokens it leaves,
 * or the exception that aborts the parse.  The imperative parser in
 * parser.dfy is proved to agree with them call by call.
 */
module Grammar {
  import opened Wrappers
  import opened Errors
  import opened Tokens
  import opened Values

  /** The store after a production, and the tokens it left unread. */
  datatype Parsed = Parsed(store: Store, rest: seq<Token>)

  datatype ParsedArray = ParsedArray(store: Store, rest: seq<Token>, elements: seq<NodeId>)

  /** Nodes are only ever added, and the nodes below `bound` are untouched. */
  ghost predicate Keeps(s: Store, s': Store, bound: nat) {
    bound <= |s| <= |s'| && forall i :: 0 <= i < bound ==> s'[i] == s[i]
  }

  /** What every production guarantees about a successful parse. */
  ghost predicate Sound(s: Store, ts: seq<Token>, p: Parsed, bound: nat) {
    ValidStore(p.store) && Keeps(s, p.store, bound) && |p.rest| <= |ts|
  }

  /** Object `n'` still holds every key of `n`, in the same order and bound to the same child. */
  ghost predicate Extends(n: Node, n': Node) {
    && n.Obj? && n'.Obj?
    && n.keys <= n'.keys
    && forall k :: k in n.children ==> k in n'.children && n'.children[k] == n.children[k]
  }

  /** IgnoreComma: one optional comma ends a value. */
  function IgnoreComma(ts: seq<Token>): (r: seq<Token>)
    ensures r == ts || (ts != [] && r == ts[1..])
    ensures |r| < |ts| <==> IsComma(ts)
  {
    if IsComma(ts) then ts[1..] else ts
  }

  /**
   * ParseText: a fresh unset root node, leading blanks skipped, then the
   * top-level object body, which may hold many keys.
   */
  function ParseText(ts: seq<Token>): (r: Result<Store, Error>)
    ensures r.Success? ==> ValidStore(r.value) && |r.value| >= 1 && IsObject(r.value[0])
  {
    var p :- ParseObject(NewNode([]), SkipBlank(ts), 0, true);
    Success(p.store)
  }

  /**
   * ParseObject: the owner keeps the object it already holds (later keys merge
   * into it); anything else it held is replaced by an empty object.
   */
  function ParseObject(s: Store, ts: seq<Token>, owner: NodeId, root: bool): (r: Result<Parsed, Error>)
    requires ValidStore(s) && owner < |s|
    ensures r.Success? ==> Sound(s, ts, r.value, owner) && IsObject(r.value.store[owner])
    ensures r.Success? && IsObject(s[owner]) ==> Extends(s[owner], r.value.store[owner])
    ensures r.Success? && !root ==> |r.value.store[owner].keys| <= |PiecesOrKeys(s[owner])| + 1
    decreases |ts|, 1
  {
    ObjectBody(EnsureObject(s, owner), ts, owner, root)
  }

  /** The keys of an object node; no keys for any other node. */
  function PiecesOrKeys(n: Node): seq<string> {
    if n.Obj? then n.keys else []
  }

  /**
   * The loop of ParseObject: each Key is looked up or created and its content
   * parsed; a body that is not the root stops after its first key; `}` ends
   * the body; any other token is skipped.
   */
  function ObjectBody(s: Store, ts: seq<Token>, obj: NodeId, root: bool): (r: Result<Parsed, Error>)
    requires ValidStore(s) && obj < |s| && IsObject(s[obj])
    ensures r.Success? ==> Sound(s, ts, r.value, obj) && Extends(s[obj], r.value.store[obj])
    ensures r.Success? && !root ==> |r.value.store[obj].keys| <= |s[obj].keys| + 1
    decreases |ts|, 0
  {
    if ts == [] then
      Success(Parsed(s, ts))
    else
      var (t, ts1) := PullNext(ts);
      if t.Key? then
        var (s1, child) := GetOrCreateKey(s, obj, t.name);
        var p :- KeyContent(s1, ts1, child);
        if root then ObjectBody(p.store, p.rest, obj, root) else Success(p)
      else if t.ObjectEnd? then
        Success(Parsed(s, ts1))
      else
        ObjectBody(s, ts1, obj, root)
  }

  /**
   * ParseKeyContent: what follows a key.  A dot nests exactly one level (an
   * object body that stops after one key); `=` or `:` clears a node that does
   * not hold an object and reads a value into it; `{` opens a body that may
   * hold many keys.  Other tokens are skipped.
   */
  function KeyContent(s: Store, ts: seq<Token>, node: NodeId): (r: Result<Parsed, Error>)
    requires ValidStore(s) && node < |s|
    ensures r.Success? ==> Sound(s, ts, r.value, node)
    decreases |ts|, 0
  {
    if ts == [] then
      Success(Parsed(s, ts))
    else
      var (t, ts1) := PullNext(ts);
      if t.Dot? then ParseObject(s, ts1, node, false)
      else if t.Assign? then ParseValue(if IsObject(s[node]) then s else Clear(s, node), ts1, node)
      else if t.ObjectStart? then ParseObject(s, ts1, node, true)
      else KeyContent(s, ts1, node)
  }

  /**
   * ParseValue: raises at end of input; otherwise skips blanks and reads the
   * value's pieces.
   */
  function ParseValue(s: Store, ts: seq<Token>, owner: NodeId): (r: Result<Parsed, Error>)
    requires ValidStore(s) && owner < |s|
    ensures ts == [] ==> r == Failure(UnexpectedEndOfInput)
    ensures r.Success? ==> Sound(s, ts, r.value, owner)
    decreases |ts|, 3
  {
    if ts == [] then Failure(UnexpectedEndOfInput) else ValueLoop(s, SkipBlank(ts), owner)
  }

  /**
   * The loop of ParseValue: while a value token follows, a literal becomes a
   * piece (after clearing an object), `{` merges an object body into the
   * owner, `[` appends an array; a same-line blank run after a piece is kept
   * as a piece too.  Then one optional comma is consumed.
   */
  function ValueLoop(s: Store, ts: seq<Token>, owner: NodeId): (r: Result<Parsed, Error>)
    requires ValidStore(s) && owner < |s|
    ensures r.Success? ==> Sound(s, ts, r.value, owner)
    decreases |ts|, 2
  {
    if !IsValue(ts) then
      Success(Parsed(s, IgnoreComma(ts)))
    else
      var p :- PullValue(s, ts, owner);
      var q := AfterPiece(p, owner);
      ValueLoop(q.store, q.rest, owner)
  }

  /**
   * One piece of a value: a literal becomes a piece of the owner (which is
   * cleared first when it holds an object), `{` merges an object body into
   * the owner, `[` appends an array.
   */
  function PullValue(s: Store, ts: seq<Token>, owner: NodeId): (r: Result<Parsed, Error>)
    requires ValidStore(s) && owner < |s| && IsValue(ts)
    ensures r.Success? ==> Sound(s, ts, r.value, owner) && |r.value.rest| < |ts|
    decreases |ts|, 1
  {
    if ts[0].Literal? then
      Success(Parsed(AppendValue(if IsObject(s[owner]) then Clear(s, owner) else s, owner, Lit(ts[0].text)), ts[1..]))
    else if ts[0].ObjectStart? then
      ParseObject(s, ts[1..], owner, true)
    else
      AppendArray(s, ts[1..], owner)
  }

  /** The array branch of ParseValue: ParseArray, then the array is appended to the owner. */
  function AppendArray(s: Store, ts: seq<Token>, owner: NodeId): (r: Result<Parsed, Error>)
    requires ValidStore(s) && owner < |s|
    ensures r.Success? ==> Sound(s, ts, r.value, owner)
    decreases |ts|, 7
  {
    var a :- ParseArray(s, ts);
    Success(Parsed(AppendValue(a.store, owner, Arr(a.elements)), a.rest))
  }

  /** After each piece of a value, a same-line blank run that follows it is read too. */
  function AfterPiece(p: Parsed, owner: NodeId): (r: Parsed)
    requires ValidStore(p.store) && owner < |p.store|
    ensures ValidStore(r.store) && Keeps(p.store, r.store, owner) && |r.rest| <= |p.rest|
    ensures IsSpaceOrTab(p.rest) ==> r.rest == p.rest[1..]
    ensures !IsSpaceOrTab(p.rest) ==> r == p
  {
    if IsSpaceOrTab(p.rest) then TrailingWhitespace(p.store, p.rest, owner) else p
  }

  /** ParseTrailingWhitespace: a same-line blank run becomes a piece when it is not empty. */
  function TrailingWhitespace(s: Store, ts: seq<Token>, owner: NodeId): (r: Parsed)
    requires ValidStore(s) && owner < |s| && IsSpaceOrTab(ts)
    ensures Sound(s, ts, r, owner) && r.rest == ts[1..]
    ensures ts[0].text == "" ==> r.store == s
    ensures ts[0].text != "" && !IsObject(s[owner]) ==>
              r.store[owner] == Concat(PiecesOf(s[owner]) + [Lit(ts[0].text)])
  {
    var w := ts[0].text;
    Parsed(if |w| > 0 then AppendValue(s, owner, Lit(w)) else s, ts[1..])
  }

  /**
   * ParseArray: the element loop, then the closing `]`, which must be next.
   * Every element is a node created for it, in order.
   */
  function ParseArray(s: Store, ts: seq<Token>): (r: Result<ParsedArray, Error>)
    requires ValidStore(s)
    ensures r.Success? ==> ValidStore(r.value.store) && Keeps(s, r.value.store, |s|)
    ensures r.Success? ==> |r.value.rest| < |ts|
    ensures r.Success? ==> FreshElements(r.value.elements, |s|, |r.value.store|)
    decreases |ts|, 6
  {
    var a :- ArrayLoop(s, ts);
    if IsArrayEnd(a.rest) then Success(ParsedArray(a.store, a.rest[1..], a.elements))
    else Failure(ExpectedArrayEnd)
  }

  /** Strictly increasing node ids, all created after the first `lo` nodes. */
  ghost predicate FreshElements(es: seq<NodeId>, lo: nat, hi: nat) {
    && (forall i :: 0 <= i < |es| ==> lo <= es[i] < hi)
    && (forall i, j :: 0 <= i < j < |es| ==> es[i] < es[j])
  }

  /**
   * One element of an array: a fresh node (numbered |s|) receives one value,
   * and the blanks after it are skipped.  An element that consumes no token at
   * all is reported as Stalled.
   */
  function ArrayElement(s: Store, ts: seq<Token>): (r: Result<Parsed, Error>)
    requires ValidStore(s)
    ensures r.Success? ==> ValidStore(r.value.store) && Keeps(s, r.value.store, |s|)
    ensures r.Success? ==> |s| < |r.value.store| && |r.value.rest| < |ts|
    decreases |ts|, 4
  {
    var p :- ParseValue(NewNode(s), ts, |s|);
    var u := SkipBlank(p.rest);
    if |u| == |ts| then Failure(Stalled) else Success(Parsed(p.store, u))
  }

  lemma FreshCons(v: NodeId, es: seq<NodeId>, lo: nat, mid: nat, hi: nat)
    requires lo <= v < mid && FreshElements(es, mid, hi) && mid <= hi
    ensures FreshElements([v] + es, lo, hi)
  {
    var es' := [v] + es;
    forall i, j | 0 <= i < j < |es'| ensures es'[i] < es'[j] {
      if i > 0 { assert es'[i] == es[i - 1]; }
      assert es'[j] == es[j - 1];
    }
  }

  /**
   * The loop of ParseArray: until end of input or `]`, each element is read
   * by ArrayElement.  The source would repeat a Stalled iteration forever.
   */
  function ArrayLoop(s: Store, ts: seq<Token>): (r: Result<ParsedArray, Error>)
    requires ValidStore(s)
    ensures r.Success? ==> ValidStore(r.value.store) && Keeps(s, r.value.store, |s|)
    ensures r.Success? ==> |r.value.rest| <= |ts| && (r.value.rest == [] || IsArrayEnd(r.value.rest))
    ensures r.Success? ==> FreshElements(r.value.elements, |s|, |r.value.store|)
    decreases |ts|, 5
  {
    if ts == [] || IsArrayEnd(ts) then
      Success(ParsedArray(s, ts, []))
    else
      var p :- ArrayElement(s, ts);
      var a :- ArrayLoop(p.store, p.rest);
      FreshCons(|s|, a.elements, |s|, |p.store|, |a.store|);
      Success(ParsedArray(a.store, a.rest, [|s|] + a.elements))
  }

  /** The elements `es` put in front of those the rest of an array loop reads. */
  function Prepend(es: seq<NodeId>, r: Result<ParsedArray, Error>): Result<ParsedArray, Error> {
    match r
    case Success(a) => Success(ParsedArray(a.store, a.rest, es + a.elements))
    case Failure(e) => Failure(e)
  }
}
