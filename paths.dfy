/**
 * Config paths: a path string is cut into keys at the dots that lie outside
 * double quotes.  The string is split on `"`; the parts at even positions lie
 * outside quotes and are split again on `.` with empty pieces dropped, the
 * parts at odd positions lie inside quotes and are kept whole.
 */
module Paths {

  // ---- String.Split(char) ----

  /** The text between each two occurrences of `c`, in order; a string without `c` is one piece. */
  function SplitOn(s: string, c: char): (r: seq<string>)
    ensures r != [] && Join(r, c) == s
    ensures forall i :: 0 <= i < |r| ==> c !in r[i]
  {
    if s == [] then [""]
    else
      var r := SplitOn(s[1..], c);
      if s[0] == c then
        assert [c] + s[1..] == s;
        [""] + r
      else
        var r' := [[s[0]] + r[0]] + r[1..];
        assert r'[1..] == r[1..];
        assert Join(r', c) == s by {
          if |r| == 1 {
            assert [s[0]] + r[0] == s;
          } else {
            assert [s[0]] + r[0] + [c] + Join(r[1..], c) == [s[0]] + (r[0] + [c] + Join(r[1..], c));
          }
        }
        r'
  }

  /** String.Join: the pieces with `c` between each two. */
  function Join(xs: seq<string>, c: char): string
    requires xs != []
  {
    if |xs| == 1 then xs[0] else xs[0] + [c] + Join(xs[1..], c)
  }

  /** A piece without `c`, a `c`, then the rest: the piece comes off whole. */
  lemma {:induction false} SplitPrefix(w: string, rest: string, c: char)
    requires c !in w
    ensures SplitOn(w + [c] + rest, c) == [w] + SplitOn(rest, c)
    decreases |w|
  {
    if w == [] {
      assert w + [c] + rest == [c] + rest;
      assert ([c] + rest)[1..] == rest;
    } else {
      var s := w + [c] + rest;
      assert s[0] == w[0] && s[1..] == w[1..] + [c] + rest;
      SplitPrefix(w[1..], rest, c);
      assert [w[0]] + w[1..] == w;
    }
  }

  /** A string without `c` splits to itself. */
  lemma {:induction false} SplitNone(w: string, c: char)
    requires c !in w
    ensures SplitOn(w, c) == [w]
    decreases |w|
  {
    if w != [] {
      SplitNone(w[1..], c);
      assert [w[0]] + w[1..] == w;
    }
  }

  /** Splitting undoes joining, as long as no piece holds the separator. */
  lemma {:induction false} SplitJoin(xs: seq<string>, c: char)
    requires xs != [] && forall i :: 0 <= i < |xs| ==> c !in xs[i]
    ensures SplitOn(Join(xs, c), c) == xs
    decreases |xs|
  {
    if |xs| == 1 {
      SplitNone(xs[0], c);
    } else {
      SplitPrefix(xs[0], Join(xs[1..], c), c);
      SplitJoin(xs[1..], c);
    }
  }

  /** A joined string holds `d` only where a piece does. */
  lemma {:induction false} JoinFree(xs: seq<string>, c: char, d: char)
    requires xs != [] && c != d && forall i :: 0 <= i < |xs| ==> d !in xs[i]
    ensures d !in Join(xs, c)
    decreases |xs|
  {
    if |xs| > 1 {
      JoinFree(xs[1..], c, d);
    }
  }

  // ---- StringSplitOptions.RemoveEmptyEntries ----

  /** The pieces that are not empty, in order. */
  function DropEmpty(xs: seq<string>): (r: seq<string>)
    ensures |r| <= |xs|
    ensures forall i :: 0 <= i < |r| ==> r[i] != "" && r[i] in xs
  {
    if xs == [] then []
    else (if xs[0] == "" then [] else [xs[0]]) + DropEmpty(xs[1..])
  }

  /** Every non-empty piece survives, and nothing is dropped when no piece is empty. */
  lemma {:induction false} DropEmptyKeeps(xs: seq<string>)
    ensures forall x :: x in xs && x != "" ==> x in DropEmpty(xs)
    ensures (forall i :: 0 <= i < |xs| ==> xs[i] != "") ==> DropEmpty(xs) == xs
    decreases |xs|
  {
    if xs != [] {
      DropEmptyKeeps(xs[1..]);
      assert xs == [xs[0]] + xs[1..];
    }
  }

  /**
   * The surviving pieces keep their order and their number: dropping works
   * piece by piece, so it distributes over concatenation.
   */
  lemma {:induction false} DropEmptyAppend(a: seq<string>, b: seq<string>)
    ensures DropEmpty(a + b) == DropEmpty(a) + DropEmpty(b)
    decreases |a|
  {
    if a == [] {
      assert a + b == b;
    } else {
      var head := if a[0] == "" then [] else [a[0]];
      assert DropEmpty(a + b) == head + DropEmpty(a[1..] + b) by {
        assert (a + b)[0] == a[0] && (a + b)[1..] == a[1..] + b;
      }
      DropEmptyAppend(a[1..], b);
    }
  }

  /** A single piece is dropped exactly when it is empty. */
  lemma DropEmptyOne(x: string)
    ensures DropEmpty([x]) == if x == "" then [] else [x]
  {
    assert [x][1..] == [];
  }

  // ---- AlternateSelectMany ----

  /**
   * SelectMany with the selector chosen by position: `even` for the elements
   * at even indices, `odd` for the others.  The tail starts at an odd index,
   * so the selectors swap for it.
   */
  function AlternateSelectMany<T, U>(xs: seq<T>, even: T -> seq<U>, odd: T -> seq<U>): seq<U> {
    if xs == [] then [] else even(xs[0]) + AlternateSelectMany(xs[1..], odd, even)
  }

  /** The concatenation of all the sequences, in order. */
  function Flatten<U>(xss: seq<seq<U>>): seq<U> {
    if xss == [] then [] else xss[0] + Flatten(xss[1..])
  }

  /** What the selector chosen by the index `i` gives for the element at `i`. */
  function Selected<T, U>(xs: seq<T>, even: T -> seq<U>, odd: T -> seq<U>, i: nat): seq<U>
    requires i < |xs|
  {
    if i % 2 == 0 then even(xs[i]) else odd(xs[i])
  }

  /** The selections, one per element, for elements from index `from` on. */
  function Selections<T, U>(xs: seq<T>, even: T -> seq<U>, odd: T -> seq<U>, from: nat): (r: seq<seq<U>>)
    requires from <= |xs|
    ensures |r| == |xs| - from
    ensures forall i :: 0 <= i < |r| ==> r[i] == Selected(xs, even, odd, from + i)
    decreases |xs| - from
  {
    if from == |xs| then [] else [Selected(xs, even, odd, from)] + Selections(xs, even, odd, from + 1)
  }

  /**
   * AlternateSelectMany is SelectMany((val, i) => i % 2 == 0 ? even(val) : odd(val)):
   * the element at each index is mapped by the selector its parity picks.
   */
  lemma AlternateSelectManyIndexed<T, U>(xs: seq<T>, even: T -> seq<U>, odd: T -> seq<U>)
    ensures AlternateSelectMany(xs, even, odd) == Flatten(Selections(xs, even, odd, 0))
  {
    AlternateFrom(xs, even, odd, 0);
  }

  lemma {:induction false} AlternateFrom<T, U>(xs: seq<T>, even: T -> seq<U>, odd: T -> seq<U>, from: nat)
    requires from <= |xs|
    ensures var (e, o) := if from % 2 == 0 then (even, odd) else (odd, even);
            AlternateSelectMany(xs[from..], e, o) == Flatten(Selections(xs, even, odd, from))
    decreases |xs| - from
  {
    if from < |xs| {
      AlternateFrom(xs, even, odd, from + 1);
      assert xs[from..][1..] == xs[from + 1..];
      assert xs[from..][0] == xs[from];
    }
  }

  // ---- SplitDottedPathHonouringQuotes ----

  /** The keys of an outside-quote part: split on dots, empty pieces dropped. */
  function OutsideQuotes(part: string): (r: seq<string>)
    ensures forall i :: 0 <= i < |r| ==> r[i] != "" && '.' !in r[i]
  {
    var pieces := SplitOn(part, '.');
    var r := DropEmpty(pieces);
    assert forall i :: 0 <= i < |r| ==> r[i] in pieces;
    r
  }

  /** An inside-quote part is one key, whatever it holds. */
  function InsideQuotes(part: string): seq<string> {
    [part]
  }

  /** The keys of a config path, in order. */
  function SplitDottedPathHonouringQuotes(path: string): (r: seq<string>)
    ensures forall i :: 0 <= i < |r| ==> '"' !in r[i]
  {
    var parts := SplitOn(path, '"');
    forall p | p in parts ensures forall k :: k in OutsideQuotes(p) ==> '"' !in k {
      OutsideFree(p, '"');
    }
    var P := (k: string) => '"' !in k;
    AllSelected(parts, OutsideQuotes, InsideQuotes, P);
    var r := AlternateSelectMany(parts, OutsideQuotes, InsideQuotes);
    assert forall i :: 0 <= i < |r| ==> P(r[i]);
    r
  }

  /** A key cut from outside quotes holds no character that the part lacks. */
  lemma OutsideFree(p: string, d: char)
    requires d !in p
    ensures forall k :: k in OutsideQuotes(p) ==> d !in k
  {
    var pieces := SplitOn(p, '.');
    forall k | k in OutsideQuotes(p) ensures d !in k {
      var j :| 0 <= j < |pieces| && pieces[j] == k;
      PieceFree(pieces, '.', d, j);
    }
  }

  /** When every selection holds only elements with property `P`, so does the result. */
  lemma {:induction false} AllSelected<T, U>(xs: seq<T>, even: T -> seq<U>, odd: T -> seq<U>, P: U -> bool)
    requires forall x :: x in xs ==> (forall u :: u in even(x) ==> P(u)) && (forall u :: u in odd(x) ==> P(u))
    ensures forall u :: u in AlternateSelectMany(xs, even, odd) ==> P(u)
    decreases |xs|
  {
    if xs != [] {
      assert forall x :: x in xs[1..] ==> x in xs;
      AllSelected(xs[1..], odd, even, P);
    }
  }

  /** A piece of a split holds `d` only if the split string does. */
  lemma PieceFree(pieces: seq<string>, c: char, d: char, k: nat)
    requires pieces != [] && k < |pieces| && d !in Join(pieces, c)
    ensures d !in pieces[k]
  {
    PieceIn(pieces, c, k);
  }

  lemma {:induction false} PieceIn(pieces: seq<string>, c: char, k: nat)
    requires pieces != [] && k < |pieces|
    ensures forall x :: x in pieces[k] ==> x in Join(pieces, c)
    decreases k
  {
    if k > 0 {
      PieceIn(pieces[1..], c, k - 1);
    }
  }

  // ---- what a path splits into ----

  /** A path written with quotes: the parts between the quotes alternate outside and inside. */
  lemma QuotedParts(parts: seq<string>)
    requires parts != [] && forall i :: 0 <= i < |parts| ==> '"' !in parts[i]
    ensures SplitDottedPathHonouringQuotes(Join(parts, '"'))
         == Flatten(Selections(parts, OutsideQuotes, InsideQuotes, 0))
  {
    SplitJoin(parts, '"');
    AlternateSelectManyIndexed(parts, OutsideQuotes, InsideQuotes);
  }

  /**
   * Keys joined with dots split back into the same keys, as long as each is
   * non-empty and holds neither a dot nor a quote.
   */
  lemma DottedRoundTrip(keys: seq<string>)
    requires keys != []
    requires forall i :: 0 <= i < |keys| ==> keys[i] != "" && '.' !in keys[i] && '"' !in keys[i]
    ensures SplitDottedPathHonouringQuotes(Join(keys, '.')) == keys
  {
    var path := Join(keys, '.');
    JoinFree(keys, '.', '"');
    SplitNone(path, '"');
    SplitJoin(keys, '.');
    DropEmptyKeeps(keys);
    assert AlternateSelectMany([path], OutsideQuotes, InsideQuotes) == OutsideQuotes(path) + [];
  }

  /** A key in quotes is one key, dots and all. */
  lemma QuotedKey(k: string)
    requires '"' !in k
    ensures SplitDottedPathHonouringQuotes("\"" + k + "\"") == [k]
  {
    var q := '"';
    SplitJoin(["", k, ""], q);
    Join3("", k, "", q);
    assert "" + [q] + k + [q] + "" == "\"" + k + "\"";
    assert OutsideQuotes("") == [] by {
      assert SplitOn("", '.') == [""];
    }
    Alternate3("", k, "", OutsideQuotes, InsideQuotes);
  }

  lemma Join3(a: string, b: string, c: string, sep: char)
    ensures Join([a, b, c], sep) == a + [sep] + b + [sep] + c
  {
    assert [a, b, c][1..] == [b, c] && [b, c][1..] == [c];
    assert Join([b, c], sep) == b + [sep] + c;
    assert a + [sep] + (b + [sep] + c) == a + [sep] + b + [sep] + c;
  }

  lemma Alternate3<T, U>(a: T, b: T, c: T, even: T -> seq<U>, odd: T -> seq<U>)
    ensures AlternateSelectMany([a, b, c], even, odd) == even(a) + odd(b) + even(c)
  {
    assert [a, b, c][1..] == [b, c] && [b, c][1..] == [c] && [c][1..] == [];
    assert AlternateSelectMany([c], even, odd) == even(c);
    assert AlternateSelectMany([b, c], odd, even) == odd(b) + even(c);
  }

  /** The keys of an outside part are its dot-separated pieces, empty ones dropped. */
  lemma OutsideJoin(pieces: seq<string>)
    requires pieces != [] && forall i :: 0 <= i < |pieces| ==> '.' !in pieces[i]
    ensures OutsideQuotes(Join(pieces, '.')) == DropEmpty(pieces)
  {
    SplitJoin(pieces, '.');
  }

  /** A dot at either end of an outside part leaves no empty key. */
  lemma EdgeDots(k: string)
    requires k != "" && '.' !in k
    ensures OutsideQuotes(k + ".") == [k] && OutsideQuotes("." + k) == [k]
  {
    OutsideJoin([k, ""]);
    assert Join([k, ""], '.') == k + ".";
    assert DropEmpty([k, ""]) == [k] + DropEmpty([""]);
    OutsideJoin(["", k]);
    assert Join(["", k], '.') == "." + k;
    assert DropEmpty(["", k]) == [] + DropEmpty([k]);
  }

  /** `3.14` is two keys, like `foo.bar`. */
  lemma NumberPath()
    ensures SplitDottedPathHonouringQuotes("3.14") == ["3", "14"]
  {
    DottedRoundTrip(["3", "14"]);
    assert Join(["3", "14"], '.') == "3.14";
  }

  /**
   * `a."m".d`: a quoted key between two plain ones is kept whole, dots and
   * all, and the dots next to the quotes leave no empty key.
   */
  lemma QuotedMiddle(a: string, m: string, d: string)
    requires a != "" && '.' !in a && '"' !in a
    requires d != "" && '.' !in d && '"' !in d
    requires '"' !in m
    ensures SplitDottedPathHonouringQuotes(a + ".\"" + m + "\"." + d) == [a, m, d]
  {
    var q := '"';
    assert '"' !in a + "." && '"' !in "." + d;
    assert SplitOn(a + ".\"" + m + "\"." + d, q) == [a + ".", m, "." + d] by {
      SplitJoin([a + ".", m, "." + d], q);
      Join3(a + ".", m, "." + d, q);
      assert (a + ".") + [q] + m + [q] + ("." + d) == a + ".\"" + m + "\"." + d;
    }
    EdgeDots(a);
    EdgeDots(d);
    Alternate3(a + ".", m, "." + d, OutsideQuotes, InsideQuotes);
  }

  // The path of the quoted-key example: three keys, the middle one quoted, dots and all.
  lemma QuotedPathExample()
    ensures SplitDottedPathHonouringQuotes("a.\"/abc/d.ev/*\".d") == ["a", "/abc/d.ev/*", "d"]
  {
    QuotedMiddle("a", "/abc/d.ev/*", "d");
    assert "a" + ".\"" == "a.\"";
    assert "a.\"" + "/abc/d.ev/*" == "a.\"/abc/d.ev/*";
    assert "a.\"/abc/d.ev/*" + "\"." == "a.\"/abc/d.ev/*\".";
    assert "a.\"/abc/d.ev/*\"." + "d" == "a.\"/abc/d.ev/*\".d";
  }
}
