/** The single pass of `convertScssVariablesToJson` that replaces a variable whose value
    names another variable by that variable's value. */
module Resolution {
  import opened Wrappers
  import opened Text
  import opened Tables
  import opened Scanner
  import opened Extraction

  /** The loop body for property `k`: when the value of `k` is itself the name of a
      property whose value is a non-empty (truthy) string, `k` takes that value. */
  function Step(m: map<string, string>, k: string): map<string, string>
  {
    if k in m && m[k] in m && m[m[k]] != "" then m[k := m[m[k]]] else m
  }

  /** The loop body applied to the properties `ks`, in order, each seeing the values
      left by the ones before it. */
  function ResolveKeys(m: map<string, string>, ks: seq<string>): (r: map<string, string>)
    ensures r.Keys == m.Keys
    ensures forall k :: k in m && k !in ks ==> r[k] == m[k]
  {
    if ks == [] then m else Step(ResolveKeys(m, ks[..|ks| - 1]), ks[|ks| - 1])
  }

  /** The whole `for...in` loop: every property visited once, in enumeration order. */
  function ResolvePass(t: Table<string>): Table<string>
  {
    Table(t.keys, ResolveKeys(t.values, t.keys))
  }

  /** Rewriting values keeps the enumeration order and the set of properties. */
  lemma ResolvePassKeepsProperties(t: Table<string>)
    requires t.Valid()
    ensures ResolvePass(t).Valid()
    ensures ResolvePass(t).keys == t.keys && ResolvePass(t).values.Keys == t.values.Keys
  {
  }

  /** Every value after the pass was some property's value before it: the pass copies
      values and never makes new ones. */
  lemma {:induction false} ResolveKeysCopiesValues(m: map<string, string>, ks: seq<string>)
    ensures forall k :: k in ResolveKeys(m, ks) ==> ResolveKeys(m, ks)[k] in m.Values
  {
    if ks != [] {
      var init := ks[..|ks| - 1];
      ResolveKeysCopiesValues(m, init);
      var before := ResolveKeys(m, init);
      forall k | k in ResolveKeys(m, ks) ensures ResolveKeys(m, ks)[k] in m.Values {
        assert ResolveKeys(m, ks)[k] in before.Values;
      }
    }
  }

  /** Visiting `a` and then `b` is visiting `a + b`. */
  lemma {:induction false} ResolveKeysAppend(m: map<string, string>, a: seq<string>, b: seq<string>)
    ensures ResolveKeys(m, a + b) == ResolveKeys(ResolveKeys(m, a), b)
    decreases |b|
  {
    if b == [] {
      assert a + b == a;
    } else {
      var init := b[..|b| - 1];
      assert (a + b)[..|a + b| - 1] == a + init;
      ResolveKeysAppend(m, a, init);
    }
  }

  /** What the pass gives property `k = ks[p]` when every property is visited once:
      the value `v` of `k` is looked up among the values already rewritten for the
      properties visited before `k`, and among the original values otherwise; `k` takes
      what it finds there unless that is missing or empty. */
  lemma ResolveKeysAt(m: map<string, string>, ks: seq<string>, p: nat)
    requires Distinct(ks)
    requires p < |ks| && ks[p] in m
    ensures var r, v := ResolveKeys(m, ks), m[ks[p]];
            r[ks[p]] == if v !in m then v
                        else
                          var found := if v in ks[..p] then r[v] else m[v];
                          if found != "" then found else v
  {
    var k := ks[p];
    var before, after := ks[..p], ks[p + 1..];
    DistinctAround(ks, p);
    ResolveKeysVisitOne(m, before, k, after);
  }

  /** In a sequence without repetitions, `ks[p]` is in neither part around it, and
      nothing before it is also after it. */
  lemma DistinctAround(ks: seq<string>, p: nat)
    requires Distinct(ks)
    requires p < |ks|
    ensures ks == ks[..p] + [ks[p]] + ks[p + 1..]
    ensures ks[p] !in ks[..p] && ks[p] !in ks[p + 1..]
    ensures forall v :: v in ks[..p] ==> v !in ks[p + 1..]
  {
    DistinctPairwise(ks);
    assert ks == ks[..p] + [ks[p]] + ks[p + 1..];
    var tail := ks[p + 1..];
    forall v | v in ks[..p] ensures v !in tail {
      var q :| 0 <= q < p && ks[..p][q] == v;
      forall i | 0 <= i < |tail| ensures tail[i] != v {
        assert tail[i] == ks[p + 1 + i];
      }
    }
  }

  /** The step of `ResolveKeysAt`, with the visiting order cut around `k`. */
  lemma ResolveKeysVisitOne(m: map<string, string>, before: seq<string>, k: string, after: seq<string>)
    requires k in m && k !in before && k !in after
    requires forall v :: v in before ==> v !in after
    ensures var r, v := ResolveKeys(m, before + [k] + after), m[k];
            r[k] == if v !in m then v
                    else
                      var found := if v in before then r[v] else m[v];
                      if found != "" then found else v
  {
    var v := m[k];
    ResolveKeysAppend(m, before, [k]);
    ResolveKeysAppend(m, before + [k], after);
    var seen := ResolveKeys(m, before);
    assert [k][..0] == [];
    var visited := Step(seen, k);
    assert ResolveKeys(m, before + [k]) == visited;
    assert seen[k] == v;
    if v in before && v in m {
      assert v != k;
    }
  }

  /** A table in which no value names a property with a non-empty value goes through the
      pass unchanged. */
  lemma {:induction false} NoAliasesNoChange(m: map<string, string>, ks: seq<string>)
    requires forall k :: k in m && m[k] in m ==> m[m[k]] == ""
    ensures ResolveKeys(m, ks) == m
  {
    if ks != [] {
      NoAliasesNoChange(m, ks[..|ks| - 1]);
    }
  }

  /** `$a: b; $b: a;` — the first property takes the second's value, which is its own
      name, and the second then takes that: both end up as `a`. */
  lemma MutualAliases()
    ensures ResolveKeys(map["a" := "b", "b" := "a"], ["a", "b"]) == map["a" := "a", "b" := "a"]
  {
    var m := map["a" := "b", "b" := "a"];
    assert ["a", "b"][..1] == ["a"];
    assert ["a"][..0] == [];
    assert Step(m, "a") == map["a" := "a", "b" := "a"];
  }

  /** `$a: b; $b: c; $c: x;` — one pass follows one link only: `a` is left naming `c`. */
  lemma ChainFollowsOneLink()
    ensures ResolveKeys(map["a" := "b", "b" := "c", "c" := "x"], ["a", "b", "c"])
         == map["a" := "c", "b" := "x", "c" := "x"]
  {
    var m := map["a" := "b", "b" := "c", "c" := "x"];
    assert ["a", "b", "c"][..2] == ["a", "b"];
    assert ["a", "b"][..1] == ["a"];
    assert ["a"][..0] == [];
    var m1 := Step(m, "a");
    assert m1 == map["a" := "c", "b" := "c", "c" := "x"];
    var m2 := Step(m1, "b");
    assert m2 == map["a" := "c", "b" := "x", "c" := "x"];
    assert "x" !in m2;
  }

  /** The same chain declared in the opposite order is resolved all the way: the result
      depends on declaration order. */
  lemma ReversedChainResolves()
    ensures ResolveKeys(map["a" := "b", "b" := "c", "c" := "x"], ["c", "b", "a"])
         == map["a" := "x", "b" := "x", "c" := "x"]
  {
    var m := map["a" := "b", "b" := "c", "c" := "x"];
    assert ["c", "b", "a"][..2] == ["c", "b"];
    assert ["c", "b"][..1] == ["c"];
    assert ["c"][..0] == [];
    assert "x" !in m;
    var m1 := Step(m, "c");
    assert m1 == m;
    var m2 := Step(m1, "b");
    assert m2 == map["a" := "b", "b" := "x", "c" := "x"];
  }

  /** `$a: b; $b: ;` — an empty value is falsy, so `a` keeps the name `b`. */
  lemma EmptyTargetIsSkipped()
    ensures ResolveKeys(map["a" := "b", "b" := ""], ["a", "b"]) == map["a" := "b", "b" := ""]
  {
    NoAliasesNoChange(map["a" := "b", "b" := ""], ["a", "b"]);
  }

  /** The `for...in` loop over `variablesObject`, rewriting it in place. No property is
      added or removed, so the loop visits exactly the properties present when it began. */
  method ResolveAliases(variablesObject: PlainObject)
    requires variablesObject.Valid()
    modifies variablesObject
    ensures variablesObject.Valid()
    ensures variablesObject.Snapshot() == ResolvePass(old(variablesObject.Snapshot()))
  {
    var order := variablesObject.keys;
    ghost var original := variablesObject.values;
    for i := 0 to |order|
      invariant variablesObject.Valid() && variablesObject.keys == order
      invariant variablesObject.values == ResolveKeys(original, order[..i])
    {
      var variableObject := order[i];
      assert order[..i + 1][..i] == order[..i];
      var alias := variablesObject.Get(variableObject).value;
      var target := variablesObject.Get(alias);
      if target.Some? && target.value != "" {
        variablesObject.Set(variableObject, target.value);
      }
    }
    assert order[..|order|] == order;
  }

  /** `convertScssVariablesToJson`: the extracted variables with one level of aliases
      resolved (what is then written to `styles.json`). */
  method ConvertScssVariablesToJson(scssContent: string) returns (variablesObject: PlainObject)
    ensures fresh(variablesObject) && variablesObject.Valid()
    ensures variablesObject.Snapshot() == ResolvePass(TableOf(Declarations(scssContent)))
  {
    variablesObject := ExtractSassVariables(scssContent);
    ResolveAliases(variablesObject);
  }

  /** The converted table keeps the extracted table's properties, in order, and every
      value is still a trimmed string without `;` that some declaration gave. */
  lemma ConvertedTableWellFormed(scssContent: string)
    ensures var extracted := TableOf(Declarations(scssContent));
            var converted := ResolvePass(extracted);
            && converted.keys == extracted.keys
            && converted.values.Keys == extracted.values.Keys
            && forall k :: k in converted.values ==>
                 && IsIdentifier(k)
                 && converted.values[k] in extracted.values.Values
                 && IsTrimmed(converted.values[k])
                 && ';' !in converted.values[k]
  {
    var extracted := TableOf(Declarations(scssContent));
    ExtractedTableWellFormed(scssContent);
    ResolveKeysCopiesValues(extracted.values, extracted.keys);
    var converted := ResolvePass(extracted);
    forall k | k in converted.values
      ensures IsTrimmed(converted.values[k]) && ';' !in converted.values[k]
    {
      var j :| j in extracted.values && extracted.values[j] == converted.values[k];
    }
  }

  /** A stylesheet with one alias, `$p: #f; $c: $p;`, taken from its text to the table
      written to `styles.json`. */
  const AliasSheet: string := "$p: #f; $c: $p;"

  /** The three `exec` calls on `AliasSheet`: `$p: #f`, then `$c: $p`, then `null`. */
  lemma AliasSheetMatches()
    ensures FindFrom(AliasSheet, 0) == Some(Split(0, 2, 2, 4, 6))
    ensures FindFrom(AliasSheet, 6) == Some(Split(8, 10, 10, 12, 14))
    ensures FindFrom(AliasSheet, 14) == None
  {
    var t := AliasSheet;
    assert t[6] == ';' && t[7] == ' ' && t[14] == ';';
    FirstAliasSheetMatch();
    SecondAliasSheetMatch();
    FindFromSkips(t, 6);
    FindFromSkips(t, 7);
    FindFromSkips(t, 14);
  }

  /** `exec` from 0 finds `$p: #f`. */
  lemma FirstAliasSheetMatch()
    ensures MatchAt(AliasSheet, 0) == Some(Split(0, 2, 2, 4, 6))
  {
    ValueMatch(AliasSheet, 0, 2, 2, 4, 6);
  }

  /** `exec` from 8 finds `$c: $p`. */
  lemma SecondAliasSheetMatch()
    ensures MatchAt(AliasSheet, 8) == Some(Split(8, 10, 10, 12, 14))
  {
    ValueMatch(AliasSheet, 8, 10, 10, 12, 14);
  }

  /** A text on which `exec` succeeds twice and then fails declares two variables. */
  lemma DeclarationsOfTwoMatches(text: string, a: Split, b: Split)
    requires FindFrom(text, 0) == Some(a) && FindFrom(text, a.end) == Some(b)
    requires FindFrom(text, b.end) == None
    ensures IsSplit(text, a) && IsSplit(text, b)
    ensures Declarations(text) == [DeclarationOf(text, a), DeclarationOf(text, b)]
  {
    SplitsOfTwoMatches(text, a, b);
    DeclarationsAreOfSplits(text, 0);
  }

  /** Two successful `exec` calls and a failing one give two matches. */
  lemma SplitsOfTwoMatches(text: string, a: Split, b: Split)
    requires FindFrom(text, 0) == Some(a) && FindFrom(text, a.end) == Some(b)
    requires FindFrom(text, b.end) == None
    ensures Splits(text, 0) == [a, b]
  {
    assert Splits(text, b.end) == [];
    assert Splits(text, a.end) == [b];
  }

  /** `$p: #f` declares `p` as `#f`; `$c: $p` declares `c` as `p`, its `$` removed. */
  lemma AliasSheetDeclarations()
    ensures Declarations(AliasSheet) == [Declaration("p", "#f"), Declaration("c", "p")]
  {
    var a, b := Split(0, 2, 2, 4, 6), Split(8, 10, 10, 12, 14);
    AliasSheetMatches();
    FirstAliasSheetDeclaration();
    SecondAliasSheetDeclaration();
    DeclarationsOfTwoMatches(AliasSheet, a, b);
  }

  /** The first match declares `p` as `#f`. */
  lemma FirstAliasSheetDeclaration()
    ensures IsSplit(AliasSheet, Split(0, 2, 2, 4, 6))
    ensures DeclarationOf(AliasSheet, Split(0, 2, 2, 4, 6)) == Declaration("p", "#f")
  {
    var t, a := AliasSheet, Split(0, 2, 2, 4, 6);
    assert t[1..2] == "p" && a.ValueGroup(t) == "#f";
    FirstAliasSheetMatch();
    DeclarationFromGroups(t, a, "p", "#f");
    PlainValueStripped();
  }

  /** The second match declares `c` as `p`. */
  lemma SecondAliasSheetDeclaration()
    ensures IsSplit(AliasSheet, Split(8, 10, 10, 12, 14))
    ensures DeclarationOf(AliasSheet, Split(8, 10, 10, 12, 14)) == Declaration("c", "p")
  {
    var t, b := AliasSheet, Split(8, 10, 10, 12, 14);
    assert t[9..10] == "c" && b.ValueGroup(t) == "$p";
    SecondAliasSheetMatch();
    DeclarationFromGroups(t, b, "c", "$p");
    AliasValueStripped();
  }

  /** A match's declaration, given its name and its second capture group. */
  lemma DeclarationFromGroups(text: string, sp: Split, name: string, valueGroup: string)
    requires IsSplit(text, sp)
    requires text[sp.dollar + 1..sp.nameEnd] == name && sp.ValueGroup(text) == valueGroup
    ensures DeclarationOf(text, sp) == Declaration(name, Trim(RemoveFirst(valueGroup, "$")))
  {
    NameGroupStripped(text, sp);
  }

  /** A value without `$` or surrounding whitespace is kept as it is. */
  lemma PlainValueStripped()
    ensures Trim(RemoveFirst("#f", "$")) == "#f"
  {
    RemoveFirstOfAbsent("#f", '$');
    TrimOfTrimmed("#f");
  }

  /** A value `$p` loses its `$`. */
  lemma AliasValueStripped()
    ensures Trim(RemoveFirst("$p", "$")) == "p"
  {
    assert "$" + "p" == "$p" && "p"[0] == 'p' && !IsSpace('p');
    RemoveFirstOfPrefixed("$", "p");
    TrimOfTrimmed("p");
  }

  /** `$p: #f; $c: $p;` is written out as `{ "p": "#f", "c": "#f" }`. */
  lemma AliasSheetResolves()
    ensures ResolvePass(TableOf(Declarations(AliasSheet)))
         == Table(["p", "c"], map["p" := "#f", "c" := "#f"])
  {
    assert "p" != "c" && "#f" != "p" && "#f" != "c" && "#f" != "";
    AliasSheetDeclarations();
    AliasOfEarlierResolves("p", "#f", "c");
  }

  /** `$p: v; $c: $p;` where `v` is no variable's name: `c` takes the value of `p`. */
  lemma AliasOfEarlierResolves(p: string, v: string, c: string)
    requires p != c && v != p && v != c && v != ""
    ensures ResolvePass(TableOf([Declaration(p, v), Declaration(c, p)]))
         == Table([p, c], map[p := v, c := v])
  {
    var m := map[p := v, c := p];
    assert Step(m, p) == m;
    assert Step(m, c) == map[p := v, c := v];
    TwoDeclarationsTable(Declaration(p, v), Declaration(c, p));
    ResolveTwoKeys(m, p, c);
  }

  /** Two declarations of different names make two properties, in order. */
  lemma TwoDeclarationsTable(d: Declaration, e: Declaration)
    requires d.name != e.name
    ensures TableOf([d, e]) == Table([d.name, e.name], map[d.name := d.value, e.name := e.value])
  {
    assert [d] + [e] == [d, e];
    assert [d.name] + [e.name] == [d.name, e.name];
    OneDeclarationTable(d);
    TableOfSnoc([d], e);
  }

  /** One declaration makes one property. */
  lemma OneDeclarationTable(d: Declaration)
    ensures TableOf([d]) == Table([d.name], map[d.name := d.value])
  {
    var none: seq<Declaration> := [];
    assert none + [d] == [d];
    TableOfSnoc(none, d);
  }

  /** Visiting two properties is two steps. */
  lemma ResolveTwoKeys(m: map<string, string>, x: string, y: string)
    ensures ResolveKeys(m, [x, y]) == Step(Step(m, x), y)
  {
    var one: seq<string> := [x];
    assert [x, y][..1] == one;
    assert ResolveKeys(m, [x, y]) == Step(ResolveKeys(m, one), y);
    assert one[..0] == [];
    assert ResolveKeys(m, one) == Step(ResolveKeys(m, []), x);
  }
}
