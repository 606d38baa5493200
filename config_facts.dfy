/**
 * What the configuration accessor promises: where GetNode finds a node in a
 * fallback chain, what a sub-configuration sees, and which entries
 * AsEnumerable yields and in what order.
 */
module ConfigFacts {
  import opened Wrappers
  import opened Errors
  import opened Values
  import opened Configuration

  // ---- GetNode over the fallback chain ----

  /** A configuration of the chain has a root and the whole path is missing from it. */
  ghost predicate Misses(c: Config, keys: seq<string>)
    requires c.Valid()
  {
    c.root.Some? && Descend(c.root.value, keys).None?
  }

  ghost predicate AllValid(ch: seq<Config>) {
    forall i :: 0 <= i < |ch| ==> ch[i].Valid()
  }

  /** Every configuration of the chain before position `i` has a root and misses the path. */
  ghost predicate MissedBefore(ch: seq<Config>, i: nat, keys: seq<string>)
    requires AllValid(ch) && i <= |ch|
  {
    forall j :: 0 <= j < i ==> Misses(ch[j], keys)
  }

  /** Position `i` of the chain is the first whose tree holds the whole path, and it leads to `h`. */
  ghost predicate FirstHolder(ch: seq<Config>, i: nat, keys: seq<string>, h: Handle)
    requires AllValid(ch) && i < |ch|
  {
    ch[i].root.Some? && Descend(ch[i].root.value, keys) == Some(h) && MissedBefore(ch, i, keys)
  }

  /** Position `i` of the chain is the first that has no root, and the walk reaches it. */
  ghost predicate FirstRootless(ch: seq<Config>, i: nat, keys: seq<string>)
    requires AllValid(ch) && i < |ch|
  {
    ch[i].root.None? && MissedBefore(ch, i, keys)
  }

  /** The chain of a configuration with a fallback is that configuration in front of the fallback's chain. */
  lemma ChainShift(c: Config, i: nat, keys: seq<string>)
    requires c.Valid() && c.fallback != null && i <= |c.fallback.Chain()|
    ensures c.Chain() == [c] + c.fallback.Chain()
    ensures AllValid(c.Chain()) && AllValid(c.fallback.Chain())
    ensures MissedBefore(c.Chain(), i + 1, keys) <==> Misses(c, keys) && MissedBefore(c.fallback.Chain(), i, keys)
  {
    var ch := c.Chain();
    var fc := c.fallback.Chain();
    assert ch == [c] + fc;
    if MissedBefore(ch, i + 1, keys) {
      forall j | 0 <= j < i ensures Misses(fc[j], keys) {
        assert fc[j] == ch[j + 1];
      }
    }
    if Misses(c, keys) && MissedBefore(fc, i, keys) {
      forall j | 0 <= j < i + 1 ensures Misses(ch[j], keys) {
        if j > 0 {
          assert ch[j] == fc[j - 1];
        }
      }
    }
  }

  /**
   * A node found for a path comes from the first configuration of the chain
   * whose tree holds the whole path; every configuration before it has a root
   * and misses the path.
   */
  lemma {:induction false} FoundInFirstHolder(c: Config, keys: seq<string>, h: Handle)
    requires c.Valid() && c.Find(keys) == Success(Some(h))
    ensures AllValid(c.Chain()) && exists i :: 0 <= i < |c.Chain()| && FirstHolder(c.Chain(), i, keys, h)
    decreases c.depth
  {
    var ch := c.Chain();
    assert AllValid(ch);
    if Descend(c.root.value, keys) == Some(h) {
      assert MissedBefore(ch, 0, keys);
      assert FirstHolder(ch, 0, keys, h);
    } else {
      FoundInFirstHolder(c.fallback, keys, h);
      var fc := c.fallback.Chain();
      var i :| 0 <= i < |fc| && FirstHolder(fc, i, keys, h);
      ChainShift(c, i, keys);
      assert ch[i + 1] == fc[i];
      assert FirstHolder(ch, i + 1, keys, h);
    }
  }

  /** GetNode yields no node exactly when every configuration of the chain has a root and misses the path. */
  lemma {:induction false} MissingEverywhere(c: Config, keys: seq<string>)
    requires c.Valid()
    ensures AllValid(c.Chain())
    ensures c.Find(keys) == Success(None) <==> MissedBefore(c.Chain(), |c.Chain()|, keys)
    decreases c.depth
  {
    var ch := c.Chain();
    assert AllValid(ch);
    if c.fallback != null {
      MissingEverywhere(c.fallback, keys);
      ChainShift(c, |c.fallback.Chain()|, keys);
    } else {
      assert ch == [c];
      assert MissedBefore(ch, |ch|, keys) <==> Misses(c, keys) by {
        if Misses(c, keys) {
          forall j | 0 <= j < |ch| ensures Misses(ch[j], keys) {
            assert ch[j] == c;
          }
        }
      }
    }
  }

  /** When GetNode raises, the walk reached a configuration without a root. */
  lemma {:induction false} RaisesAtRootless(c: Config, keys: seq<string>)
    requires c.Valid() && c.Find(keys).Failure?
    ensures AllValid(c.Chain()) && exists i :: 0 <= i < |c.Chain()| && FirstRootless(c.Chain(), i, keys)
    decreases c.depth
  {
    var ch := c.Chain();
    assert AllValid(ch);
    if c.root.None? {
      assert MissedBefore(ch, 0, keys);
      assert FirstRootless(ch, 0, keys);
    } else {
      RaisesAtRootless(c.fallback, keys);
      var fc := c.fallback.Chain();
      var i :| 0 <= i < |fc| && FirstRootless(fc, i, keys);
      ChainShift(c, i, keys);
      assert ch[i + 1] == fc[i];
      assert FirstRootless(ch, i + 1, keys);
    }
  }

  /** When the walk reaches a configuration without a root, GetNode raises. */
  lemma {:induction false} RootlessRaises(c: Config, keys: seq<string>, i: nat)
    requires c.Valid() && AllValid(c.Chain()) && i < |c.Chain()| && FirstRootless(c.Chain(), i, keys)
    ensures c.Find(keys) == Failure(NullRoot)
    decreases c.depth
  {
    var ch := c.Chain();
    if i > 0 {
      assert Misses(ch[0], keys);
      assert c.fallback != null;
      var fc := c.fallback.Chain();
      ChainShift(c, i - 1, keys);
      assert fc[i - 1] == ch[i];
      RootlessRaises(c.fallback, keys, i - 1);
    }
  }

  /** A path that is found in the primary tree is never looked up in the fallback. */
  lemma PrimaryWins(c: Config, keys: seq<string>)
    requires c.Valid() && c.root.Some? && Descend(c.root.value, keys).Some?
    ensures c.Find(keys) == Success(Descend(c.root.value, keys))
  {
  }

  // ---- sub-configurations ----

  /** Walking `p + q` is walking `p` and then `q` from where `p` ends. */
  lemma {:induction false} DescendAppend(h: Handle, p: seq<string>, q: seq<string>)
    requires ValidHandle(h)
    ensures Descend(h, p + q) == if Descend(h, p).None? then None else Descend(Descend(h, p).value, q)
    decreases |p|
  {
    if p == [] {
      assert p + q == q;
    } else {
      assert (p + q)[0] == p[0] && (p + q)[1..] == p[1..] + q;
      match GetChildObject(h, p[0])
      case None =>
      case Some(c) => DescendAppend(c, p[1..], q);
    }
  }

  /**
   * GetConfig(p) followed by a lookup of `q` sees the subtree at `p` and
   * nothing else: it finds what the walk of `q` finds there, and where that
   * walk succeeds the original configuration finds the same node for `p + q`.
   */
  lemma SubConfig(c: Config, p: seq<string>, sub: Config, q: seq<string>)
    requires c.Valid() && c.root.Some? && Descend(c.root.value, p).Some?
    requires sub.Valid() && sub.root == Descend(c.root.value, p) && sub.fallback == null
    ensures sub.Find(q) == Success(Descend(sub.root.value, q))
    ensures Descend(sub.root.value, q).Some? ==> c.Find(p + q) == sub.Find(q)
  {
    DescendAppend(c.root.value, p, q);
  }

  // ---- AsEnumerable ----

  ghost predicate DistinctKeys(xs: seq<Entry>) {
    forall i, j :: 0 <= i < j < |xs| ==> xs[i].0 != xs[j].0
  }

  lemma KeysOfCons(xs: seq<Entry>)
    requires xs != []
    ensures KeysOf(xs) == {xs[0].0} + KeysOf(xs[1..])
  {
    forall k | k in KeysOf(xs) ensures k in {xs[0].0} + KeysOf(xs[1..]) {
      var i :| 0 <= i < |xs| && xs[i].0 == k;
      if i > 0 {
        assert xs[1..][i - 1] == xs[i];
      }
    }
    forall k | k in KeysOf(xs[1..]) ensures k in KeysOf(xs) {
      var i :| 0 <= i < |xs[1..]| && xs[1..][i].0 == k;
      assert xs[i + 1] == xs[1..][i];
    }
  }

  lemma DistinctCons(e: Entry, tail: seq<Entry>)
    requires DistinctKeys(tail) && e.0 !in KeysOf(tail)
    ensures DistinctKeys([e] + tail)
  {
    var r := [e] + tail;
    forall i, j | 0 <= i < j < |r| ensures r[i].0 != r[j].0 {
      assert r[j] == tail[j - 1];
      if i == 0 {
        assert r[j].0 in KeysOf(tail);
      } else {
        assert r[i] == tail[i - 1];
      }
    }
  }

  /** Each key is yielded once, and never one that was already used. */
  lemma {:induction false} FirstWinsUnique(xs: seq<Entry>, used: set<string>)
    ensures DistinctKeys(FirstWins(xs, used))
    ensures KeysOf(FirstWins(xs, used)) == KeysOf(xs) - used
    decreases |xs|
  {
    if xs == [] {
      assert KeysOf(xs) == {};
    } else {
      var e := xs[0];
      KeysOfCons(xs);
      if e.0 in used {
        FirstWinsUnique(xs[1..], used);
      } else {
        var tail := FirstWins(xs[1..], used + {e.0});
        FirstWinsUnique(xs[1..], used + {e.0});
        var r := [e] + tail;
        assert FirstWins(xs, used) == r;
        DistinctCons(e, tail);
        assert r[0] == e && r[1..] == tail;
        KeysOfCons(r);
      }
    }
  }

  /**
   * Every yielded entry is the first entry of `xs` with its key, and its key
   * was not already used: the nearest configuration's value wins.
   */
  lemma {:induction false} FirstWinsFirst(xs: seq<Entry>, used: set<string>)
    ensures forall e :: e in FirstWins(xs, used) ==>
              e.0 !in used && exists i :: 0 <= i < |xs| && xs[i] == e && forall j :: 0 <= j < i ==> xs[j].0 != e.0
    decreases |xs|
  {
    if xs != [] {
      var x := xs[0];
      var u := if x.0 in used then used else used + {x.0};
      FirstWinsFirst(xs[1..], u);
      forall e | e in FirstWins(xs, used)
        ensures e.0 !in used && exists i :: 0 <= i < |xs| && xs[i] == e && forall j :: 0 <= j < i ==> xs[j].0 != e.0
      {
        if x.0 !in used && e == x {
          assert xs[0] == e;
        } else {
          assert e in FirstWins(xs[1..], u);
          var i :| 0 <= i < |xs[1..]| && xs[1..][i] == e && forall j :: 0 <= j < i ==> xs[1..][j].0 != e.0;
          assert xs[i + 1] == e;
          forall j | 0 <= j < i + 1 ensures xs[j].0 != e.0 {
            if j > 0 {
              assert xs[j] == xs[1..][j - 1];
            }
          }
        }
      }
    }
  }

  /**
   * The enumeration keeps the chain's order: everything taken from the first
   * part comes before what the second part adds, and the second part only
   * adds keys the first did not have.
   */
  lemma {:induction false} FirstWinsAppend(xs: seq<Entry>, ys: seq<Entry>, used: set<string>)
    ensures FirstWins(xs + ys, used) == FirstWins(xs, used) + FirstWins(ys, used + KeysOf(xs))
    decreases |xs|
  {
    if xs == [] {
      assert xs + ys == ys;
      assert KeysOf(xs) == {};
      assert used + KeysOf(xs) == used;
    } else {
      var x := xs[0];
      assert (xs + ys)[0] == x && (xs + ys)[1..] == xs[1..] + ys;
      var u := if x.0 in used then used else used + {x.0};
      FirstWinsAppend(xs[1..], ys, u);
      assert u + KeysOf(xs[1..]) == used + KeysOf(xs) by {
        KeysOfCons(xs);
      }
      if x.0 !in used {
        var a := FirstWins(xs[1..], u);
        var b := FirstWins(ys, u + KeysOf(xs[1..]));
        assert [x] + (a + b) == [x] + a + b;
      }
    }
  }

  /** Entries whose keys are distinct and unused are all yielded, unchanged and in order. */
  lemma {:induction false} FirstWinsDistinct(xs: seq<Entry>, used: set<string>)
    requires DistinctKeys(xs) && KeysOf(xs) !! used
    ensures FirstWins(xs, used) == xs
    decreases |xs|
  {
    if xs != [] {
      var x := xs[0];
      assert x.0 in KeysOf(xs);
      var u := used + {x.0};
      assert KeysOf(xs[1..]) !! u by {
        forall k | k in KeysOf(xs[1..]) ensures k !in u {
          var i :| 0 <= i < |xs[1..]| && xs[1..][i].0 == k;
          assert xs[i + 1] == xs[1..][i];
          assert xs[i + 1].0 in KeysOf(xs);
        }
      }
      FirstWinsDistinct(xs[1..], u);
    }
  }

  /** An object's entries have distinct keys. */
  lemma ItemsDistinct(h: Handle)
    requires ValidHandle(h) && IsObject(NodeAt(h))
    ensures DistinctKeys(Items(h))
  {
    assert NodeOk(NodeAt(h), h.id, |h.store|);
  }

  /**
   * A configuration without a fallback enumerates its root object's keys
   * verbatim (a quoted key with dots stays one key), in insertion order.
   */
  lemma SingleEnumeration(c: Config)
    requires c.Valid() && c.fallback == null && c.root.Some? && IsObject(NodeAt(c.root.value))
    ensures c.Entries() == Success(Items(c.root.value))
    ensures FirstWins(c.Entries().value, {}) == Items(c.root.value)
    ensures |Items(c.root.value)| == |NodeAt(c.root.value).keys|
    ensures forall i :: 0 <= i < |Items(c.root.value)| ==> Items(c.root.value)[i].0 == NodeAt(c.root.value).keys[i]
  {
    ItemsDistinct(c.root.value);
    FirstWinsDistinct(Items(c.root.value), {});
  }

  /**
   * A configuration with a fallback enumerates all of its own entries first,
   * then the fallback's enumeration without the keys it already yielded.
   */
  lemma LayeredEnumeration(c: Config)
    requires c.Valid() && c.fallback != null && c.root.Some? && IsObject(NodeAt(c.root.value))
    requires c.fallback.Entries().Success?
    ensures c.Entries().Success?
    ensures FirstWins(c.Entries().value, {})
         == Items(c.root.value) + FirstWins(c.fallback.Entries().value, KeysOf(Items(c.root.value)))
  {
    var mine := Items(c.root.value);
    var later := c.fallback.Entries().value;
    assert c.Entries() == Success(mine + later);
    FirstWinsAppend(mine, later, {});
    ItemsDistinct(c.root.value);
    FirstWinsDistinct(mine, {});
    assert {} + KeysOf(mine) == KeysOf(mine);
  }
}
