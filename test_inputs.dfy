/**
 * The inputs of two of the library's tests, written token by token as
 * settings, and what parsing and reading them gives: each is an instance of
 * the general theorems of the Reading module.
 */
module TestInputs {
  import opened Wrappers
  import opened Values
  import opened Paths
  import opened Tokens
  import opened Grammar
  import opened GrammarFacts
  import opened Configuration
  import opened Reading

  const Space: Token := SpaceOrTab(" ")
  const Indent: Token := SpaceOrTab("  ")

  /** `foo.bar.baz : 42` (Can_use_paths_as_keys_FooBarBaz). */
  function FooBarBazDotted(): Setting {
    DottedSetting(["foo", "bar", "baz"], "42", [[], [], [], [], [], [Space], [Space]], [])
  }

  /** `foo { bar { baz : 42 } }`. */
  function FooBarBazBraced(): Setting {
    BracedSetting(["foo", "bar", "baz"], "42", [[], [Space], [Space], [Space], [Space], [Space], [Space], [Space], []], [Space])
  }

  /** `test {`, `  value  = 123`, `}` on three lines (Can_overwrite_value). */
  function FirstValue(): Setting {
    BracedSetting(["test", "value"], "123", [[NewLine], [Space], [NewLine, Indent], [Indent], [Space], []], [NewLine])
  }

  /** `test.value = 456`, on the next line. */
  function SecondValue(): Setting {
    DottedSetting(["test", "value"], "456", [[], [], [], [Space], [Space]], [NewLine])
  }

  // ---- small facts about the literals ----

  lemma BlankRuns()
    ensures AllBlank([Space]) && AllBlank([NewLine]) && AllBlank([Indent]) && AllBlank([NewLine, Indent])
    ensures WhiteGap([]) && WhiteGap([Space]) && WhiteGap([NewLine])
  {
    assert AllWhite(" ");
  }

  /** A setting whose literal has no surrounding whitespace and is not `null` reads as that literal. */
  lemma ReadsPlain(st: Setting)
    requires Trim(st.text) == st.text && st.text != "null"
    ensures Reads(st) == Some(st.text)
  {
    assert Joined([Lit(st.text)]) == st.text by {
      assert [Lit(st.text)][..0] == [];
    }
  }

  lemma PlainNumbers()
    ensures Trim("42") == "42" && Trim("456") == "456"
  {
  }

  /** The keys of a path with no empty key, no dot and no quote. */
  predicate PlainKeys(p: seq<string>) {
    forall i :: 0 <= i < |p| ==> p[i] != "" && '.' !in p[i] && '"' !in p[i]
  }

  lemma FooBarBazPath()
    ensures PlainKeys(["foo", "bar", "baz"]) && Join(["foo", "bar", "baz"], '.') == "foo.bar.baz"
  {
    assert Join(["baz"], '.') == "baz";
    assert Join(["bar", "baz"], '.') == "bar.baz";
  }

  lemma TestValuePath()
    ensures PlainKeys(["test", "value"]) && Join(["test", "value"], '.') == "test.value"
  {
    assert Join(["value"], '.') == "value";
  }

  // ---- the settings, token by token ----

  lemma FooBarBazDottedValid()
    ensures FooBarBazDotted().Valid() && WhiteGap(FooBarBazDotted().gap)
  {
    BlankRuns();
  }

  lemma FooBarBazDottedTail()
    ensures DottedTail(["bar", "baz"], "42", [], FooBarBazDotted().pads[1..])
         == [Dot, Key("bar"), Dot, Key("baz"), Space, Assign, Space, Literal("42")]
  {
    var w := FooBarBazDotted().pads[1..];
    assert w[2..] == [[], [], [Space], [Space]] && w[2..][2..] == [[Space], [Space]];
    assert ["bar", "baz"][1..] == ["baz"] && ["baz"][1..] == [];
    var t0 := DottedTail([], "42", [], [[Space], [Space]]);
    assert t0 == [Space, Assign, Space, Literal("42")];
    assert DottedTail(["baz"], "42", [], w[2..]) == [Dot, Key("baz")] + t0;
  }

  lemma FooBarBazDottedTokens()
    ensures FooBarBazDotted().Valid()
    ensures FooBarBazDotted().Tokens() == [Key("foo"), Dot, Key("bar"), Dot, Key("baz"), Space, Assign, Space, Literal("42")]
  {
    FooBarBazDottedValid();
    FooBarBazDottedTail();
    assert FooBarBazDotted().path[1..] == ["bar", "baz"];
  }

  lemma FooBarBazBracedValid()
    ensures FooBarBazBraced().Valid() && WhiteGap(FooBarBazBraced().gap)
  {
    BlankRuns();
  }

  lemma FooBarBazBracedTail()
    ensures BracedTail(["bar", "baz"], "42", [Space], FooBarBazBraced().pads[1..])
         == [Space, ObjectStart, Space, Key("bar"), Space, ObjectStart, Space, Key("baz"), Space, Assign,
             Space, Literal("42"), Space, ObjectEnd, Space, ObjectEnd]
  {
    var w := FooBarBazBraced().pads[1..];
    var w1 := w[2..|w| - 1];
    assert w1 == [[Space], [Space], [Space], [Space], [Space]];
    assert w1[2..|w1| - 1] == [[Space], [Space]];
    assert ["bar", "baz"][1..] == ["baz"] && ["baz"][1..] == [];
    var t0 := BracedTail([], "42", [Space], [[Space], [Space]]);
    assert t0 == [Space, Assign, Space, Literal("42"), Space];
    var t1 := BracedTail(["baz"], "42", [Space], w1);
    assert t1 == [Space, ObjectStart, Space, Key("baz")] + t0 + [ObjectEnd, Space];
  }

  lemma FooBarBazBracedTokens()
    ensures FooBarBazBraced().Valid()
    ensures FooBarBazBraced().Tokens()
         == [Key("foo"), Space, ObjectStart, Space, Key("bar"), Space, ObjectStart, Space, Key("baz"), Space, Assign,
             Space, Literal("42"), Space, ObjectEnd, Space, ObjectEnd]
  {
    FooBarBazBracedValid();
    FooBarBazBracedTail();
    assert FooBarBazBraced().path[1..] == ["bar", "baz"];
  }

  lemma FirstValueValid()
    ensures FirstValue().Valid()
  {
    BlankRuns();
  }

  lemma FirstValueTail()
    ensures BracedTail(["value"], "123", [NewLine], FirstValue().pads[1..])
         == [Space, ObjectStart, NewLine, Indent, Key("value"), Indent, Assign, Space, Literal("123"), NewLine, ObjectEnd]
  {
    var w := FirstValue().pads[1..];
    assert ["value"][1..] == [];
    assert w[2..|w| - 1] == [[Indent], [Space]];
    var t0 := BracedTail([], "123", [NewLine], [[Indent], [Space]]);
    assert t0 == [Indent, Assign, Space, Literal("123"), NewLine];
  }

  lemma FirstValueTokens()
    ensures FirstValue().Valid()
    ensures FirstValue().Tokens()
         == [NewLine, Key("test"), Space, ObjectStart, NewLine, Indent, Key("value"), Indent,
             Assign, Space, Literal("123"), NewLine, ObjectEnd]
  {
    FirstValueValid();
    FirstValueTail();
    assert FirstValue().path[1..] == ["value"];
  }

  lemma SecondValueValid()
    ensures SecondValue().Valid() && WhiteGap(SecondValue().gap)
  {
    BlankRuns();
  }

  lemma SecondValueTail()
    ensures DottedTail(["value"], "456", [NewLine], SecondValue().pads[1..])
         == [Dot, Key("value"), Space, Assign, Space, Literal("456"), NewLine]
  {
    var w := SecondValue().pads[1..];
    assert ["value"][1..] == [];
    assert w[2..] == [[Space], [Space]];
    var t0 := DottedTail([], "456", [NewLine], [[Space], [Space]]);
    assert t0 == [Space, Assign, Space, Literal("456"), NewLine];
  }

  lemma SecondValueTokens()
    ensures SecondValue().Valid()
    ensures SecondValue().Tokens() == [Key("test"), Dot, Key("value"), Space, Assign, Space, Literal("456"), NewLine]
  {
    SecondValueValid();
    SecondValueTail();
    assert SecondValue().path[1..] == ["value"];
  }

  // ---- the two tests ----

  /** Everything the FooBarBaz reading needs to know about its two settings. */
  lemma FooBarBazShape(d: Setting, b: Setting)
    requires d == FooBarBazDotted() && b == FooBarBazBraced()
    ensures d.DottedSetting? && b.BracedSetting? && d.Valid() && b.Valid()
    ensures d.path == b.path && d.text == b.text && WhiteGap(d.gap) && WhiteGap(b.gap)
    ensures PlainKeys(d.path) && Join(d.path, '.') == "foo.bar.baz" && Reads(d) == Some("42")
  {
    FooBarBazDottedValid();
    FooBarBazBracedValid();
    FooBarBazPath();
    PlainNumbers();
    ReadsPlain(d);
  }

  /**
   * Can_use_paths_as_keys_FooBarBaz: `foo.bar.baz : 42` and
   * `foo { bar { baz : 42 } }` both parse, and GetString at "foo.bar.baz"
   * reads "42" from each.
   */
  lemma FooBarBazRead(d: Setting, b: Setting, dotted: Config, braced: Config)
    requires d == FooBarBazDotted() && b == FooBarBazBraced()
    requires dotted.Valid() && dotted.root == Some(Handle(PutAll(Start, [d]), 0))
    requires braced.Valid() && braced.root == Some(Handle(PutAll(Start, [b]), 0))
    ensures d.Valid() && ParseText(d.Tokens()) == Success(dotted.root.value.store)
    ensures b.Valid() && ParseText(b.Tokens()) == Success(braced.root.value.store)
    ensures forall v :: dotted.GetString("foo.bar.baz", v) == braced.GetString("foo.bar.baz", v) == Success(Some("42"))
  {
    FooBarBazShape(d, b);
    DottedAndBracedRead(d, b, dotted, braced);
  }

  lemma OverwriteDocument(f: Setting, s: Setting)
    requires f == FirstValue() && s == SecondValue()
    ensures f.Valid() && s.Valid()
    ensures Document([f, s])
         == [NewLine, Key("test"), Space, ObjectStart, NewLine, Indent, Key("value"), Indent,
             Assign, Space, Literal("123"), NewLine, ObjectEnd,
             NewLine,
             Key("test"), Dot, Key("value"), Space, Assign, Space, Literal("456"), NewLine]
  {
    FirstValueTokens();
    SecondValueTokens();
    assert [f, s][1..] == [s] && [s][1..] == [];
    assert Document([s]) == s.Tokens();
    assert Document([f, s]) == f.Tokens() + [NewLine] + s.Tokens();
  }

  lemma Pair(f: Setting, s: Setting)
    ensures [f] + [s] == [f, s]
  {
  }

  /** Everything the overwrite reading needs to know about the later setting. */
  lemma OverwriteShape(s: Setting)
    requires s == SecondValue()
    ensures s.Valid() && WhiteGap(s.gap)
    ensures PlainKeys(s.path) && Join(s.path, '.') == "test.value" && Reads(s) == Some("456")
  {
    SecondValueValid();
    TestValuePath();
    PlainNumbers();
    ReadsPlain(s);
  }

  /**
   * Can_overwrite_value: the two-line document parses, and the later dotted
   * setting overwrites the value the braced block gave, so GetString at
   * "test.value" reads "456".
   */
  lemma OverwriteRead(f: Setting, s: Setting, c: Config)
    requires f == FirstValue() && s == SecondValue()
    requires c.Valid() && c.root == Some(Handle(PutAll(Start, [f, s]), 0))
    ensures f.Valid() && s.Valid()
    ensures ParseText(Document([f, s])) == Success(c.root.value.store)
    ensures forall v :: c.GetString("test.value", v) == Success(Some("456"))
  {
    FirstValueValid();
    OverwriteShape(s);
    Pair(f, s);
    GetStringReadsLastSetting([f], s, c);
  }
}
