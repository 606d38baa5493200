/**
 * The value model: every HoconValue node lives in a store (an arena indexed by
 * NodeId), so that nodes can be shared and updated in place as in the source.
 * A node is unset, a concatenation of pieces (literal text, whitespace runs and
 * arrays), or an object: an insertion-ordered key sequence with a map from key
 * to child node.
 */
module Values {
  import opened Wrappers

  type NodeId = nat

  datatype Piece = Lit(text: string) | Arr(elements: seq<NodeId>)

  datatype Node =
    | Unset
    | Concat(pieces: seq<Piece>)
    | Obj(keys: seq<string>, children: map<string, NodeId>)

  type Store = seq<Node>

  const EmptyObject: Node := Obj([], map[])

  ghost predicate Distinct(keys: seq<string>) {
    forall i, j :: 0 <= i < j < |keys| ==> keys[i] != keys[j]
  }

  ghost predicate PieceOk(p: Piece, i: nat, size: nat) {
    p.Arr? ==> forall e :: e in p.elements ==> i < e < size
  }

  /**
   * Node `i` of a store of `size` nodes: an object's keys are distinct and are
   * exactly its map's keys, and every node it refers to was created after it.
   */
  ghost predicate NodeOk(n: Node, i: nat, size: nat) {
    match n
    case Unset => true
    case Concat(ps) => forall p :: p in ps ==> PieceOk(p, i, size)
    case Obj(keys, children) =>
      && Distinct(keys)
      && (forall k :: k in keys <==> k in children)
      && (forall k :: k in children ==> i < children[k] < size)
  }

  ghost predicate ValidStore(s: Store) {
    forall i :: 0 <= i < |s| ==> NodeOk(s[i], i, |s|)
  }

  lemma NodeOkGrows(n: Node, i: nat, size: nat, size': nat)
    requires NodeOk(n, i, size) && size <= size'
    ensures NodeOk(n, i, size')
  {
    if n.Concat? {
      forall p | p in n.pieces ensures PieceOk(p, i, size') {
        assert PieceOk(p, i, size);
      }
    }
  }

  predicate IsObject(n: Node) {
    n.Obj?
  }

  /** The pieces a node holds; an object or an unset node holds none. */
  function PiecesOf(n: Node): seq<Piece> {
    if n.Concat? then n.pieces else []
  }

  /** `new HoconValue()`: a fresh unset node at the end of the store. */
  function NewNode(s: Store): (r: Store)
    requires ValidStore(s)
    ensures ValidStore(r) && |r| == |s| + 1
    ensures r[..|s|] == s && r[|s|] == Unset
  {
    var r := s + [Unset];
    forall i | 0 <= i < |r| ensures NodeOk(r[i], i, |r|) {
      if i < |s| { NodeOkGrows(s[i], i, |s|, |r|); }
    }
    r
  }

  /** NewValue(new HoconObject()): whatever the node held is replaced by an empty object. */
  function NewObject(s: Store, id: NodeId): (r: Store)
    requires ValidStore(s) && id < |s|
    ensures ValidStore(r) && |r| == |s|
    ensures IsObject(r[id]) && r[id].keys == []
    ensures forall i :: 0 <= i < |s| && i != id ==> r[i] == s[i]
  {
    s[id := EmptyObject]
  }

  /**
   * The first step of ParseObject: a node that holds an object keeps it (so
   * later keys merge into it); anything else is replaced by an empty object.
   */
  function EnsureObject(s: Store, id: NodeId): (r: Store)
    requires ValidStore(s) && id < |s|
    ensures ValidStore(r) && |r| == |s| && IsObject(r[id])
    ensures IsObject(s[id]) ==> r == s
    ensures !IsObject(s[id]) ==> r[id] == EmptyObject
    ensures forall i :: 0 <= i < |s| && i != id ==> r[i] == s[i]
  {
    if IsObject(s[id]) then s else NewObject(s, id)
  }

  /** Clear: the node loses all content and shape. */
  function Clear(s: Store, id: NodeId): (r: Store)
    requires ValidStore(s) && id < |s|
    ensures ValidStore(r) && |r| == |s|
    ensures !IsObject(r[id]) && PiecesOf(r[id]) == []
    ensures forall i :: 0 <= i < |s| && i != id ==> r[i] == s[i]
  {
    s[id := Unset]
  }

  /**
   * AppendValue: a piece is added after the node's pieces.  A node whose first
   * element is an object stays that object: the model drops the appended
   * piece (see the `Values.AppendValue` line under "Left out" in README.md).
   */
  function AppendValue(s: Store, id: NodeId, p: Piece): (r: Store)
    requires ValidStore(s) && id < |s| && PieceOk(p, id, |s|)
    ensures ValidStore(r) && |r| == |s|
    ensures IsObject(s[id]) ==> r == s
    ensures !IsObject(s[id]) ==> r[id] == Concat(PiecesOf(s[id]) + [p])
    ensures forall i :: 0 <= i < |s| && i != id ==> r[i] == s[i]
  {
    match s[id]
    case Obj(_, _) => s
    case Unset => s[id := Concat([p])]
    case Concat(ps) => s[id := Concat(ps + [p])]
  }

  /**
   * GetOrCreateKey on the object held by node `id`: a key already present
   * yields its existing child and changes nothing; a new key is appended to
   * the key order and bound to a fresh unset node.
   */
  function GetOrCreateKey(s: Store, id: NodeId, k: string): (r: (Store, NodeId))
    requires ValidStore(s) && id < |s| && IsObject(s[id])
    ensures ValidStore(r.0) && id < r.1 < |r.0|
    ensures IsObject(r.0[id]) && k in r.0[id].children && r.0[id].children[k] == r.1
    ensures k in s[id].children ==> r == (s, s[id].children[k])
    ensures k !in s[id].children ==>
              && r.1 == |s| && |r.0| == |s| + 1 && r.0[|s|] == Unset
              && r.0[id].keys == s[id].keys + [k]
              && r.0[id].children == s[id].children[k := |s|]
    ensures forall i :: 0 <= i < |s| && i != id ==> r.0[i] == s[i]
  {
    var n := s[id];
    if k in n.children then
      (s, n.children[k])
    else
      var s' := NewNode(s);
      var keys := n.keys + [k];
      assert k !in n.keys;
      var n' := Obj(keys, n.children[k := |s|]);
      var r := s'[id := n'];
      forall i | 0 <= i < |r| ensures NodeOk(r[i], i, |r|) {
        if i != id {
          assert r[i] == s'[i];
        } else {
          forall a, b | 0 <= a < b < |keys| ensures keys[a] != keys[b] {
            if b < |n.keys| { assert NodeOk(n, id, |s|); }
          }
        }
      }
      (r, |s|)
  }

  /** A reference to a node: the store that holds it and its index. */
  datatype Handle = Handle(store: Store, id: NodeId)

  /** HoconRoot: the holder of the top node of a parsed configuration. */
  datatype HoconRoot = HoconRoot(value: Option<Handle>)

  ghost predicate ValidHandle(h: Handle) {
    ValidStore(h.store) && h.id < |h.store|
  }

  function NodeAt(h: Handle): Node
    requires ValidHandle(h)
  {
    h.store[h.id]
  }

  /** GetChildObject: the child bound to `key` when the node is an object that has it. */
  function GetChildObject(h: Handle, key: string): (r: Option<Handle>)
    requires ValidHandle(h)
    ensures r.Some? <==> IsObject(NodeAt(h)) && key in NodeAt(h).children
    ensures r.Some? ==> ValidHandle(r.value) && r.value.store == h.store && h.id < r.value.id
    ensures r.Some? ==> r.value.id == NodeAt(h).children[key]
  {
    var n := NodeAt(h);
    if n.Obj? && key in n.children then Some(Handle(h.store, n.children[key])) else None
  }

  /**
   * The walk of GetNode through one tree: each key of the path in turn selects
   * a child of an object; a missing key or a node that is not an object ends
   * the walk with nothing.
   */
  function Descend(h: Handle, path: seq<string>): (r: Option<Handle>)
    requires ValidHandle(h)
    ensures r.Some? ==> ValidHandle(r.value) && r.value.store == h.store
    ensures path == [] ==> r == Some(h)
    decreases |path|
  {
    if path == [] then Some(h)
    else
      match GetChildObject(h, path[0])
      case None => None
      case Some(c) => Descend(c, path[1..])
  }

  // ---- reading a node as a scalar ----

  predicate IsWhiteSpace(c: char) {
    c == ' ' || c == '\t' || c == '\r' || c == '\n'
  }

  predicate AllWhite(s: string) {
    forall i :: 0 <= i < |s| ==> IsWhiteSpace(s[i])
  }

  function TrimStart(s: string): (r: string)
    ensures |r| <= |s|
    ensures r == [] || !IsWhiteSpace(r[0])
  {
    if s != [] && IsWhiteSpace(s[0]) then TrimStart(s[1..]) else s
  }

  function TrimEnd(s: string): (r: string)
    ensures |r| <= |s| && r == s[..|r|]
    ensures r == [] || !IsWhiteSpace(r[|r| - 1])
  {
    if s != [] && IsWhiteSpace(s[|s| - 1]) then TrimEnd(s[..|s| - 1]) else s
  }

  /** String.Trim: the text with the whitespace at both ends removed. */
  function Trim(s: string): (r: string)
    ensures r == [] || (!IsWhiteSpace(r[0]) && !IsWhiteSpace(r[|r| - 1]))
  {
    TrimEnd(TrimStart(s))
  }

  predicate AllText(ps: seq<Piece>) {
    forall p :: p in ps ==> p.Lit?
  }

  /** The texts of literal pieces, concatenated in order. */
  function Joined(ps: seq<Piece>): string
    requires AllText(ps)
  {
    if ps == [] then "" else Joined(ps[..|ps| - 1]) + ps[|ps| - 1].text
  }

  /**
   * The scalar string of a node: its literal and whitespace pieces joined and
   * trimmed.  A node that is unset, an object, holds an array, or reads as the
   * literal `null` has no string (the source returns null).
   */
  function Render(n: Node): (r: Option<string>)
    ensures r.Some? ==> n.Concat? && n.pieces != [] && AllText(n.pieces)
    ensures r.Some? ==> r.value != "null" && r.value == Trim(Joined(n.pieces))
  {
    if n.Concat? && n.pieces != [] && AllText(n.pieces) then
      var t := Trim(Joined(n.pieces));
      if t == "null" then None else Some(t)
    else
      None
  }

  /** The elements of every array piece of a node, in order (what a list getter reads). */
  function Elements(ps: seq<Piece>): seq<NodeId> {
    if ps == [] then []
    else Elements(ps[..|ps| - 1]) + (if ps[|ps| - 1].Arr? then ps[|ps| - 1].elements else [])
  }
}
