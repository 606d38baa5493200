/**
 * Parsing and reading together: a document of settings, parsed and wrapped in
 * a configuration, answers each path with the value of the last setting that
 * assigned it.
 */
module Reading {
  import opened Wrappers
  import opened Values
  import opened Paths
  import opened Tokens
  import opened Grammar
  import opened GrammarFacts
  import opened Configuration

  /** Applying one more setting is one more Put on top of the earlier ones. */
  lemma {:induction false} PutAllSnoc(s: Store, settings: seq<Setting>, st: Setting)
    requires ValidStore(s) && |s| >= 1
    ensures PutAll(s, settings + [st]) == Put(PutAll(s, settings), 0, st.path, st.Value())
    decreases |settings|
  {
    if settings == [] {
      assert settings + [st] == [st];
      assert [st][1..] == [];
    } else {
      var all := settings + [st];
      assert all[0] == settings[0] && all[1..] == settings[1..] + [st];
      PutAllSnoc(Put(s, 0, settings[0].path, settings[0].Value()), settings[1..], st);
    }
  }

  /** The string a setting's value reads as. */
  function Reads(st: Setting): Option<string> {
    Render(Concat([Lit(st.text)]))
  }

  /**
   * The last setting of a document wins: the parsed root, as a configuration,
   * finds the setting's own node at its path, and that node reads as the
   * setting's literal, whatever earlier settings assigned to the same path.
   */
  lemma LastSettingWins(settings: seq<Setting>, st: Setting, c: Config)
    requires forall i :: 0 <= i < |settings| ==> settings[i].Valid()
    requires st.Valid() && WhiteGap(st.gap)
    requires c.Valid() && c.root == Some(Handle(PutAll(Start, settings + [st]), 0))
    ensures forall i :: 0 <= i < |settings + [st]| ==> (settings + [st])[i].Valid()
    ensures ParseText(Document(settings + [st])) == Success(c.root.value.store)
    ensures c.Find(st.path).Success? && c.Find(st.path).value.Some?
    ensures NodeAt(c.Find(st.path).value.value) == st.Value()
    ensures Render(st.Value()) == Reads(st)
  {
    var all := settings + [st];
    assert forall i :: 0 <= i < |all| ==> all[i].Valid() by {
      forall i | 0 <= i < |all| ensures all[i].Valid() {
        if i < |settings| {
          assert all[i] == settings[i];
        }
      }
    }
    ParseTextDocument(all);
    var before := PutAll(Start, settings);
    PutAllSnoc(Start, settings, st);
    PutThenDescend(before, 0, st.path, st.Value());
    GapInvisible(st.text, st.gap);
  }

  /**
   * A setting whose path adds a new key below an existing object leaves every
   * path of the earlier settings in place: each still leads to the same node,
   * which reads the same (a.b.c = 1, a.b.d = 2 and a.b.e.f = 3 coexist).
   */
  lemma EarlierPathKept(settings: seq<Setting>, st: Setting, p: seq<string>, k: string, rest: seq<string>,
                        o: NodeId, q: seq<string>)
    requires forall i :: 0 <= i < |settings| ==> settings[i].Valid()
    requires st.Valid() && st.path == p + [k] + rest
    requires var b := PutAll(Start, settings);
             && Descend(Handle(b, 0), p) == Some(Handle(b, o)) && IsObject(b[o]) && k !in b[o].children
             && Descend(Handle(b, 0), q).Some?
    ensures forall i :: 0 <= i < |settings + [st]| ==> (settings + [st])[i].Valid()
    ensures var parsed := ParseText(Document(settings + [st]));
            var before := Descend(Handle(PutAll(Start, settings), 0), q).value;
            && parsed.Success?
            && Descend(Handle(parsed.value, 0), q) == Some(Handle(parsed.value, before.id))
            && Render(parsed.value[before.id]) == Render(NodeAt(before))
  {
    var all := settings + [st];
    assert forall i :: 0 <= i < |all| ==> all[i].Valid() by {
      forall i | 0 <= i < |all| ensures all[i].Valid() {
        if i < |settings| {
          assert all[i] == settings[i];
        }
      }
    }
    var b := PutAll(Start, settings);
    var r := Put(b, 0, st.path, st.Value());
    assert ParseText(Document(all)) == Success(r) by {
      ParseTextDocument(all);
      PutAllSnoc(Start, settings, st);
    }
    PutKeepsPath(b, 0, p, k, rest, st.Value(), o, q);
  }

  /**
   * Reading the last setting back by its dotted path string: GetString
   * returns the setting's literal, trimmed (Can_overwrite_value,
   * Can_assign_value_to_path_expression).
   */
  lemma GetStringReadsLastSetting(settings: seq<Setting>, st: Setting, c: Config)
    requires forall i :: 0 <= i < |settings| ==> settings[i].Valid()
    requires st.Valid() && WhiteGap(st.gap)
    requires forall i :: 0 <= i < |st.path| ==> st.path[i] != "" && '.' !in st.path[i] && '"' !in st.path[i]
    requires c.Valid() && c.root == Some(Handle(PutAll(Start, settings + [st]), 0))
    ensures forall i :: 0 <= i < |settings + [st]| ==> (settings + [st])[i].Valid()
    ensures ParseText(Document(settings + [st])) == Success(c.root.value.store)
    ensures forall d :: c.GetString(Join(st.path, '.'), d) == Success(Reads(st))
    ensures Reads(st) == if Trim(st.text) == "null" then None else Some(Trim(st.text))
  {
    LastSettingWins(settings, st, c);
    DottedRoundTrip(st.path);
    assert Joined([Lit(st.text)]) == st.text by {
      assert [Lit(st.text)][..0] == [];
    }
  }

  /**
   * A path written with dots and the same path written with nested braces,
   * each with any blanks the layout allows, read the same through GetString
   * (Can_use_paths_as_keys).
   */
  lemma DottedAndBracedRead(d: Setting, b: Setting, dotted: Config, braced: Config)
    requires d.DottedSetting? && b.BracedSetting? && d.Valid() && b.Valid()
    requires d.path == b.path && d.text == b.text && WhiteGap(d.gap) && WhiteGap(b.gap)
    requires forall i :: 0 <= i < |d.path| ==> d.path[i] != "" && '.' !in d.path[i] && '"' !in d.path[i]
    requires dotted.Valid() && dotted.root == Some(Handle(PutAll(Start, [d]), 0))
    requires braced.Valid() && braced.root == Some(Handle(PutAll(Start, [b]), 0))
    ensures ParseText(d.Tokens()) == Success(dotted.root.value.store)
    ensures ParseText(b.Tokens()) == Success(braced.root.value.store)
    ensures forall v :: dotted.GetString(Join(d.path, '.'), v) == braced.GetString(Join(d.path, '.'), v) == Success(Reads(d))
  {
    assert ParseText(d.Tokens()) == Success(dotted.root.value.store) by {
      assert [] + [d] == [d];
      assert Document([d]) == d.Tokens();
      LastSettingWins([], d, dotted);
    }
    assert ParseText(b.Tokens()) == Success(braced.root.value.store) by {
      assert [] + [b] == [b];
      assert Document([b]) == b.Tokens();
      LastSettingWins([], b, braced);
    }
    assert forall v :: dotted.GetString(Join(d.path, '.'), v) == Success(Reads(d)) by {
      assert [] + [d] == [d];
      GetStringReadsLastSetting([], d, dotted);
    }
    assert forall v :: braced.GetString(Join(d.path, '.'), v) == Success(Reads(b)) by {
      assert [] + [b] == [b];
      GetStringReadsLastSetting([], b, braced);
    }
  }
}
