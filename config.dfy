/**
 * Config: read access to a parsed configuration.  A configuration holds a root
 * node (or none) and, optionally, a fallback configuration that answers the
 * paths it cannot.  Both fields are fixed at construction; the ghost `depth`
 * bounds the length of the fallback chain.
 */
module Configuration {
  import opened Wrappers
  import opened Errors
  import opened Values
  import opened Paths

  /** An entry of the root object: its key, verbatim, and its value node. */
  type Entry = (string, Handle)

  class Config {
    const root: Option<Handle>
    const fallback: Config?
    ghost const depth: nat

    ghost predicate Valid()
      decreases depth
    {
      && (root.Some? ==> ValidHandle(root.value))
      && (fallback != null ==> fallback.depth < depth && fallback.Valid())
    }

    /** `new Config()`: no root and no fallback. */
    constructor Empty()
      ensures Valid() && root == None && fallback == null
    {
      root := None;
      fallback := null;
      depth := 0;
    }

    /** `new Config(new HoconRoot(value))` with a value that is present. */
    constructor OfNode(h: Handle)
      requires ValidHandle(h)
      ensures Valid() && root == Some(h) && fallback == null
    {
      root := Some(h);
      fallback := null;
      depth := 0;
    }

    /** `new Config(source, fallback)` with a source that is present. */
    constructor Layered(source: Config, fallback: Config?)
      requires source.Valid()
      requires fallback != null ==> fallback.Valid()
      ensures Valid() && root == source.root && this.fallback == fallback
    {
      root := source.root;
      this.fallback := fallback;
      depth := if fallback == null then 0 else fallback.depth + 1;
    }

    /** `new Config(root)`: a root holder without a value is an ArgumentNullException. */
    static method FromRoot(r: HoconRoot) returns (c: Result<Config, Error>)
      requires r.value.Some? ==> ValidHandle(r.value.value)
      ensures r.value.None? ==> c == Failure(NullArgument)
      ensures r.value.Some? ==> c.Success? && fresh(c.value) && c.value.Valid()
      ensures r.value.Some? ==> c.value.root == r.value && c.value.fallback == null
    {
      if r.value.None? {
        return Failure(NullArgument);
      }
      var cfg := new Config.OfNode(r.value.value);
      return Success(cfg);
    }

    /**
     * `new Config(source, fallback)`: a missing source is an
     * ArgumentNullException; otherwise the source's root is shared and the
     * fallback (which may be missing) is kept as given.
     */
    static method FromSource(source: Config?, fallback: Config?) returns (c: Result<Config, Error>)
      requires source != null ==> source.Valid()
      requires fallback != null ==> fallback.Valid()
      ensures source == null ==> c == Failure(NullArgument)
      ensures source != null ==> c.Success? && fresh(c.value) && c.value.Valid()
      ensures source != null ==> c.value.root == source.root && c.value.fallback == fallback
    {
      if source == null {
        return Failure(NullArgument);
      }
      var cfg := new Config.Layered(source, fallback);
      return Success(cfg);
    }

    /** The configurations consulted in turn: this one, then its fallbacks. */
    ghost function Chain(): (r: seq<Config>)
      requires Valid()
      ensures |r| >= 1 && r[0] == this
      ensures forall i :: 0 <= i < |r| ==> r[i].Valid()
      ensures forall i :: 0 <= i < |r| - 1 ==> r[i].fallback == r[i + 1]
      ensures r[|r| - 1].fallback == null
      decreases depth
    {
      if fallback == null then [this] else [this] + fallback.Chain()
    }

    /**
     * The node GetNode finds for a split path: the whole path is walked from
     * this root; at the first key that is missing the walk starts over, with
     * the whole path, in the fallback; with no fallback there is no node.  A
     * configuration without a root raises InvalidOperationException, even for
     * the empty path.
     */
    function Find(keys: seq<string>): (r: Result<Option<Handle>, Error>)
      requires Valid()
      ensures root.None? ==> r == Failure(NullRoot)
      ensures root.Some? && keys == [] ==> r == Success(root)
      ensures r.Success? && r.value.Some? ==> ValidHandle(r.value.value)
      ensures r.Failure? ==> r.error == NullRoot
      decreases depth
    {
      if root.None? then Failure(NullRoot)
      else
        match Descend(root.value, keys)
        case Some(h) => Success(Some(h))
        case None => if fallback == null then Success(None) else fallback.Find(keys)
    }

    /** GetNode (and GetValue, which returns its result unchanged). */
    method GetNode(path: string) returns (r: Result<Option<Handle>, Error>)
      requires Valid()
      ensures r == Find(SplitDottedPathHonouringQuotes(path))
      decreases depth
    {
      var elements := SplitDottedPathHonouringQuotes(path);
      if root.None? {
        return Failure(NullRoot);
      }
      var current := root.value;
      var i := 0;
      while i < |elements|
        invariant 0 <= i <= |elements|
        invariant ValidHandle(current)
        invariant Descend(root.value, elements) == Descend(current, elements[i..])
      {
        var next := GetChildObject(current, elements[i]);
        if next.None? {
          if fallback != null {
            r := fallback.GetNode(path);
            return;
          }
          return Success(None);
        }
        assert elements[i..][1..] == elements[i + 1..];
        current := next.value;
        i := i + 1;
      }
      return Success(Some(current));
    }

    /** HasPath: whether GetNode finds a node. */
    function HasPath(path: string): (r: Result<bool, Error>)
      requires Valid()
      ensures r.Success? <==> Find(SplitDottedPathHonouringQuotes(path)).Success?
      ensures r.Success? ==> (r.value <==> Find(SplitDottedPathHonouringQuotes(path)).value.Some?)
    {
      var node :- Find(SplitDottedPathHonouringQuotes(path));
      Success(node.Some?)
    }

    /**
     * GetConfig: no configuration where GetNode finds no node; otherwise a
     * fresh configuration rooted at that node, with no fallback.
     */
    method GetConfig(path: string) returns (r: Result<Config?, Error>)
      requires Valid()
      ensures Find(SplitDottedPathHonouringQuotes(path)).Failure? ==> r == Failure(NullRoot)
      ensures Find(SplitDottedPathHonouringQuotes(path)) == Success(None) ==> r == Success(null)
      ensures Find(SplitDottedPathHonouringQuotes(path)).Success? && Find(SplitDottedPathHonouringQuotes(path)).value.Some? ==>
                && r.Success? && r.value != null && fresh(r.value) && r.value.Valid()
                && r.value.root == Find(SplitDottedPathHonouringQuotes(path)).value && r.value.fallback == null
    {
      var node := GetNode(path);
      if node.Failure? {
        return Failure(node.error);
      }
      if node.value.None? {
        return Success(null);
      }
      var cfg := new Config.OfNode(node.value.value);
      return Success(cfg);
    }

    /** GetString: the default when there is no node, else the node's string. */
    function GetString(path: string, default: Option<string>): (r: Result<Option<string>, Error>)
      requires Valid()
      ensures r.Failure? <==> Find(SplitDottedPathHonouringQuotes(path)).Failure?
      ensures Find(SplitDottedPathHonouringQuotes(path)) == Success(None) ==> r == Success(default)
      ensures Find(SplitDottedPathHonouringQuotes(path)).Success? && Find(SplitDottedPathHonouringQuotes(path)).value.Some? ==>
                r == Success(Render(NodeAt(Find(SplitDottedPathHonouringQuotes(path)).value.value)))
    {
      var node :- Find(SplitDottedPathHonouringQuotes(path));
      if node.None? then Success(default) else Success(Render(NodeAt(node.value)))
    }

    /**
     * GetInt: the default when there is no node, else the node's conversion.
     * The conversion belongs to the value type and is supplied by the caller.
     */
    function GetInt(path: string, default: int, toInt: Node -> Result<int, Error>): (r: Result<int, Error>)
      requires Valid()
      ensures Find(SplitDottedPathHonouringQuotes(path)).Failure? ==> r == Failure(NullRoot)
      ensures Find(SplitDottedPathHonouringQuotes(path)) == Success(None) ==> r == Success(default)
      ensures Find(SplitDottedPathHonouringQuotes(path)).Success? && Find(SplitDottedPathHonouringQuotes(path)).value.Some? ==>
                r == toInt(NodeAt(Find(SplitDottedPathHonouringQuotes(path)).value.value))
    {
      var node :- Find(SplitDottedPathHonouringQuotes(path));
      if node.None? then Success(default) else toInt(NodeAt(node.value))
    }

    /** GetBoolean: the default when there is no node, else the node's conversion. */
    function GetBoolean(path: string, default: bool, toBool: Node -> Result<bool, Error>): (r: Result<bool, Error>)
      requires Valid()
      ensures Find(SplitDottedPathHonouringQuotes(path)).Failure? ==> r == Failure(NullRoot)
      ensures Find(SplitDottedPathHonouringQuotes(path)) == Success(None) ==> r == Success(default)
      ensures Find(SplitDottedPathHonouringQuotes(path)).Success? && Find(SplitDottedPathHonouringQuotes(path)).value.Some? ==>
                r == toBool(NodeAt(Find(SplitDottedPathHonouringQuotes(path)).value.value))
    {
      var node :- Find(SplitDottedPathHonouringQuotes(path));
      if node.None? then Success(default) else toBool(NodeAt(node.value))
    }

    /** GetStringList: the empty list when there is no node, else the strings of its elements. */
    function GetStringList(path: string): (r: Result<seq<Option<string>>, Error>)
      requires Valid()
      ensures r.Failure? <==> Find(SplitDottedPathHonouringQuotes(path)).Failure?
      ensures Find(SplitDottedPathHonouringQuotes(path)) == Success(None) ==> r == Success([])
      ensures Find(SplitDottedPathHonouringQuotes(path)).Success? && Find(SplitDottedPathHonouringQuotes(path)).value.Some? ==>
                r == Success(StringList(Find(SplitDottedPathHonouringQuotes(path)).value.value))
    {
      var node :- Find(SplitDottedPathHonouringQuotes(path));
      if node.None? then Success([]) else Success(StringList(node.value))
    }

    /**
     * The entries AsEnumerable visits before it drops repeated keys: this
     * root object's entries, then the fallback's, and so on.  A root that is
     * missing or not an object raises.
     */
    function Entries(): (r: Result<seq<Entry>, Error>)
      requires Valid()
      ensures root.None? ==> r == Failure(NullRoot)
      ensures root.Some? && !IsObject(NodeAt(root.value)) ==> r == Failure(NotAnObject)
      decreases depth
    {
      if root.None? then Failure(NullRoot)
      else if !IsObject(NodeAt(root.value)) then Failure(NotAnObject)
      else if fallback == null then Success(Items(root.value))
      else
        var later :- fallback.Entries();
        Success(Items(root.value) + later)
    }

    /**
     * AsEnumerable: the entries of the chain in order, each key only the
     * first time it is met, so the nearest configuration wins.
     */
    method AsEnumerable() returns (r: Result<seq<Entry>, Error>)
      requires Valid()
      ensures r.Success? <==> Entries().Success?
      ensures r.Failure? ==> r.error == Entries().error
      ensures r.Success? ==> r.value == FirstWins(Entries().value, {})
    {
      var used: set<string> := {};
      var out: seq<Entry> := [];
      var current: Config? := this;
      while current != null
        invariant current != null ==> current.Valid()
        invariant Finish(out, used, EntriesFrom(current)) == Finish([], {}, Entries())
        decreases if current == null then 0 else current.depth + 1
      {
        if current.root.None? {
          return Failure(NullRoot);
        }
        var h := current.root.value;
        if !IsObject(NodeAt(h)) {
          return Failure(NotAnObject);
        }
        var items := Items(h);
        ghost var later := EntriesFrom(current.fallback);
        assert items + [] == items;
        assert EntriesFrom(current) == Prefixed(items, later);
        var j := 0;
        while j < |items|
          invariant 0 <= j <= |items|
          invariant Finish(out, used, Prefixed(items[j..], later)) == Finish([], {}, Entries())
        {
          var e := items[j];
          assert items[j..] == [e] + items[j + 1..];
          FinishStep(out, used, e, items[j + 1..], later);
          if e.0 !in used {
            out := out + [e];
            used := used + {e.0};
          }
          j := j + 1;
        }
        assert items[|items|..] == [];
        FinishEmpty(out, used, later);
        current := current.fallback;
      }
      assert [] + FirstWins(Entries().value, {}) == FirstWins(Entries().value, {});
      return Success(out);
    }
  }

  // ---- the entries of an object, and the first-wins rule ----

  /** The entries of an object node: its keys in insertion order with their value nodes. */
  function Items(h: Handle): (r: seq<Entry>)
    requires ValidHandle(h) && IsObject(NodeAt(h))
    ensures |r| == |NodeAt(h).keys|
    ensures forall i :: 0 <= i < |r| ==> r[i].0 == NodeAt(h).keys[i]
    ensures forall i :: 0 <= i < |r| ==> r[i].1 == Handle(h.store, NodeAt(h).children[r[i].0])
  {
    var n := NodeAt(h);
    assert NodeOk(n, h.id, |h.store|);
    seq(|n.keys|, i requires 0 <= i < |n.keys| => (n.keys[i], Handle(h.store, n.children[n.keys[i]])))
  }

  /** The strings of the elements of a node's arrays, as a string list getter reads them. */
  function StringList(h: Handle): (r: seq<Option<string>>)
    requires ValidHandle(h)
  {
    var n := NodeAt(h);
    var ids := Elements(PiecesOf(n));
    seq(|ids|, i requires 0 <= i < |ids| => if ids[i] < |h.store| then Render(h.store[ids[i]]) else None)
  }

  function KeysOf(xs: seq<Entry>): set<string> {
    set i | 0 <= i < |xs| :: xs[i].0
  }

  /** The entries of `xs` whose key is neither in `used` nor met earlier in `xs`. */
  function FirstWins(xs: seq<Entry>, used: set<string>): (r: seq<Entry>)
    decreases |xs|
  {
    if xs == [] then []
    else if xs[0].0 in used then FirstWins(xs[1..], used)
    else [xs[0]] + FirstWins(xs[1..], used + {xs[0].0})
  }

  /** The entries of the chain starting at `c` (none for a missing configuration). */
  function EntriesFrom(c: Config?): Result<seq<Entry>, Error>
    requires c != null ==> c.Valid()
  {
    if c == null then Success([]) else c.Entries()
  }

  function Prefixed(xs: seq<Entry>, later: Result<seq<Entry>, Error>): Result<seq<Entry>, Error> {
    if later.Failure? then later else Success(xs + later.value)
  }

  /** What the enumeration yields, given what it yielded so far and what it has still to visit. */
  function Finish(out: seq<Entry>, used: set<string>, rest: Result<seq<Entry>, Error>): Result<seq<Entry>, Error> {
    if rest.Failure? then rest else Success(out + FirstWins(rest.value, used))
  }

  lemma FinishStep(out: seq<Entry>, used: set<string>, e: Entry, xs: seq<Entry>, later: Result<seq<Entry>, Error>)
    ensures Finish(out, used, Prefixed([e] + xs, later))
         == if e.0 in used then Finish(out, used, Prefixed(xs, later))
            else Finish(out + [e], used + {e.0}, Prefixed(xs, later))
  {
    if later.Success? {
      var all := [e] + xs + later.value;
      assert all[0] == e && all[1..] == xs + later.value;
      if e.0 !in used {
        var tail := FirstWins(xs + later.value, used + {e.0});
        assert FirstWins(all, used) == [e] + tail;
        assert out + ([e] + tail) == out + [e] + tail;
      }
    }
  }

  lemma FinishEmpty(out: seq<Entry>, used: set<string>, later: Result<seq<Entry>, Error>)
    ensures Finish(out, used, Prefixed([], later)) == Finish(out, used, later)
  {
    if later.Success? {
      assert [] + later.value == later.value;
    }
  }
}
