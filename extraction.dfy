/** `extractSassVariables`: every match of the variable pattern becomes one property of a
    fresh object, named by the first capture group and valued by the second. */
module Extraction {
  import opened Wrappers
  import opened Text
  import opened Tables
  import opened Scanner

  /** One `$name: value` declaration as the loop body stores it. */
  datatype Declaration = Declaration(name: string, value: string)

  /** A name that is an identifier, a value that is trimmed and holds no `;`. */
  predicate WellFormed(name: string, value: string)
  {
    IsIdentifier(name) && IsTrimmed(value) && ';' !in value
  }

  /** `match[1].replace('$', '').trim()` and `match[2].replace('$', '').trim()`. */
  function DeclarationOf(text: string, sp: Split): Declaration
    requires IsSplit(text, sp)
  {
    Declaration(Trim(RemoveFirst(sp.NameGroup(text), "$")), Trim(RemoveFirst(sp.ValueGroup(text), "$")))
  }

  /** The name is the run of name characters after the `$`; the value is trimmed and, the
      pattern's `[^;]+` having stopped at the first `;`, holds none. */
  lemma DeclarationOfShape(text: string, sp: Split)
    requires IsSplit(text, sp)
    ensures DeclarationOf(text, sp).name == text[sp.dollar + 1..sp.nameEnd]
    ensures IsIdentifier(DeclarationOf(text, sp).name)
    ensures IsTrimmed(DeclarationOf(text, sp).value) && ';' !in DeclarationOf(text, sp).value
  {
    NameGroupStripped(text, sp);
    ValueGroupStripped(text, sp);
  }

  lemma NameGroupStripped(text: string, sp: Split)
    requires IsSplit(text, sp)
    ensures Trim(RemoveFirst(sp.NameGroup(text), "$")) == text[sp.dollar + 1..sp.nameEnd]
    ensures IsIdentifier(text[sp.dollar + 1..sp.nameEnd])
  {
    var name := text[sp.dollar + 1..sp.nameEnd];
    assert sp.NameGroup(text) == "$" + name;
    assert forall k :: 0 <= k < |name| ==> name[k] == text[sp.dollar + 1 + k];
    IdentifierStripped(name);
  }

  lemma IdentifierStripped(name: string)
    requires IsIdentifier(name)
    ensures Trim(RemoveFirst("$" + name, "$")) == name
  {
    assert IsNameChar(name[0]) && IsNameChar(name[|name| - 1]);
    RemoveFirstOfPrefixed("$", name);
    TrimOfTrimmed(name);
  }

  lemma ValueGroupStripped(text: string, sp: Split)
    requires IsSplit(text, sp)
    ensures ';' !in Trim(RemoveFirst(sp.ValueGroup(text), "$"))
  {
    var valueGroup := sp.ValueGroup(text);
    assert forall k :: 0 <= k < |valueGroup| ==> valueGroup[k] == text[sp.valueStart + k];
    RemoveFirstKeepsOnly(valueGroup, "$", ';');
    TrimKeepsOnly(RemoveFirst(valueGroup, "$"), ';');
  }

  /** `replace('$', '')` on the value removes its first `$` only: in `calc($a + $b)` the
      `$` of `b` stays. */
  lemma ValueLosesFirstDollarOnly(text: string, sp: Split, u: string, w: string)
    requires IsSplit(text, sp)
    requires sp.ValueGroup(text) == u + "$" + w && '$' !in u
    ensures DeclarationOf(text, sp).value == Trim(u + w)
  {
    RemoveFirstOfChar(u, '$', w);
  }

  /** The declarations that successive `exec` calls yield when `lastIndex` starts at `from`,
      in order: every name an identifier, every value trimmed and free of `;`. */
  function DeclarationsFrom(text: string, from: nat): (ds: seq<Declaration>)
    decreases |text| - from
  {
    match FindFrom(text, from)
    case None => []
    case Some(sp) => [DeclarationOf(text, sp)] + DeclarationsFrom(text, sp.end)
  }

  /** Every declaration the loop meets has an identifier for its name and a trimmed value
      without `;`. */
  lemma {:induction false} DeclarationsWellFormed(text: string, from: nat)
    decreases |text| - from
    ensures forall k :: 0 <= k < |DeclarationsFrom(text, from)| ==>
              WellFormed(DeclarationsFrom(text, from)[k].name, DeclarationsFrom(text, from)[k].value)
  {
    match FindFrom(text, from)
    case None =>
    case Some(sp) =>
      DeclarationOfShape(text, sp);
      DeclarationsWellFormed(text, sp.end);
      var d, rest := DeclarationOf(text, sp), DeclarationsFrom(text, sp.end);
      assert DeclarationsFrom(text, from) == [d] + rest;
      forall k | 0 <= k < |rest| + 1 ensures WellFormed(([d] + rest)[k].name, ([d] + rest)[k].value) {
        ConsAt(d, rest, k);
      }
  }

  /** When only whitespace separates the colon after `$name` from a `;` or the end of the
      text, the match at that `$` exists and its declaration's value is the empty string. */
  lemma BlankValueIsEmpty(text: string, i: nat, nameEnd: nat, colon: nat, stop: nat)
    requires i + 1 < nameEnd <= colon && colon + 1 < stop <= |text|
    requires text[i] == '$' && text[colon] == ':'
    requires forall k :: i < k < nameEnd ==> IsNameChar(text[k])
    requires forall k :: nameEnd <= k < colon ==> IsSpace(text[k])
    requires forall k :: colon < k < stop ==> IsSpace(text[k])
    requires stop == |text| || text[stop] == ';'
    ensures MatchAt(text, i) == Some(Split(i, nameEnd, colon, stop - 1, stop))
    ensures DeclarationOf(text, MatchAt(text, i).value) == Declaration(text[i + 1..nameEnd], "")
  {
    var sp := Split(i, nameEnd, colon, stop - 1, stop);
    BlankMatch(text, i, nameEnd, colon, stop);
    assert IsSplit(text, sp) && IsSpace(text[stop - 1]);
    assert DeclarationOf(text, sp).name == text[i + 1..nameEnd] by {
      NameGroupStripped(text, sp);
    }
    SingleSpaceValue(text, sp);
  }

  lemma SingleSpaceValue(text: string, sp: Split)
    requires IsSplit(text, sp) && sp.valueStart + 1 == sp.end && IsSpace(text[sp.valueStart])
    ensures DeclarationOf(text, sp).value == ""
  {
    var blank := sp.ValueGroup(text);
    assert blank == [text[sp.valueStart]];
    OneSpaceTrimsAway(text[sp.valueStart]);
  }

  lemma OneSpaceTrimsAway(c: char)
    requires IsSpace(c)
    ensures Trim(RemoveFirst([c], "$")) == ""
  {
    RemoveFirstCutsFirstOccurrence([c], "$");
    TrimOfSpaces([c]);
  }

  /** The declarations of a whole stylesheet, in the order the loop meets them. */
  function Declarations(text: string): seq<Declaration>
  {
    DeclarationsFrom(text, 0)
  }

  /** The declarations are those of the successive matches, one for one. */
  lemma {:induction false} DeclarationsAreOfSplits(text: string, from: nat)
    decreases |text| - from
    ensures |DeclarationsFrom(text, from)| == |Splits(text, from)|
    ensures forall k :: 0 <= k < |Splits(text, from)| ==>
              && IsSplit(text, Splits(text, from)[k])
              && DeclarationsFrom(text, from)[k] == DeclarationOf(text, Splits(text, from)[k])
  {
    match FindFrom(text, from)
    case None =>
    case Some(sp) =>
      DeclarationsAreOfSplits(text, sp.end);
      DeclarationsConsSplits(text, from, sp);
  }

  lemma DeclarationsConsSplits(text: string, from: nat, sp: Split)
    requires FindFrom(text, from) == Some(sp)
    requires |DeclarationsFrom(text, sp.end)| == |Splits(text, sp.end)|
    requires forall k :: 0 <= k < |Splits(text, sp.end)| ==>
               && IsSplit(text, Splits(text, sp.end)[k])
               && DeclarationsFrom(text, sp.end)[k] == DeclarationOf(text, Splits(text, sp.end)[k])
    ensures |DeclarationsFrom(text, from)| == |Splits(text, from)|
    ensures forall k :: 0 <= k < |Splits(text, from)| ==>
              && IsSplit(text, Splits(text, from)[k])
              && DeclarationsFrom(text, from)[k] == DeclarationOf(text, Splits(text, from)[k])
  {
    var ds', ss' := DeclarationsFrom(text, sp.end), Splits(text, sp.end);
    var d := DeclarationOf(text, sp);
    assert DeclarationsFrom(text, from) == [d] + ds';
    assert Splits(text, from) == [sp] + ss';
    forall k | 0 <= k < |ss'| + 1
      ensures IsSplit(text, ([sp] + ss')[k]) && ([d] + ds')[k] == DeclarationOf(text, ([sp] + ss')[k])
    {
      ConsAt(d, ds', k);
      ConsAt(sp, ss', k);
    }
  }

  lemma ConsAt<T>(x: T, xs: seq<T>, k: nat)
    requires k <= |xs|
    ensures ([x] + xs)[k] == if k == 0 then x else xs[k - 1]
  {
  }

  /** The declared names, in order, repetitions included. */
  function Names(ds: seq<Declaration>): (ns: seq<string>)
    ensures |ns| == |ds| && forall k :: 0 <= k < |ds| ==> ns[k] == ds[k].name
  {
    if ds == [] then [] else Names(ds[..|ds| - 1]) + [ds[|ds| - 1].name]
  }

  /** The object the loop builds from `ds`: one assignment per declaration, in order. It
      has a property for every declared name and for nothing else. */
  function TableOf(ds: seq<Declaration>): (t: Table<string>)
    ensures t.Valid()
    ensures forall k :: k in t.values <==> k in Names(ds)
  {
    if ds == [] then Empty()
    else
      var init := ds[..|ds| - 1];
      TableOf(init).Put(ds[|ds| - 1].name, ds[|ds| - 1].value)
  }

  lemma AppendOne<T>(xs: seq<T>, x: T, ys: seq<T>)
    ensures xs + ([x] + ys) == (xs + [x]) + ys
  {
  }

  /** Assigning one more declaration is one more `obj[name] = value`. */
  lemma TableOfSnoc(ds: seq<Declaration>, d: Declaration)
    ensures TableOf(ds + [d]) == TableOf(ds).Put(d.name, d.value)
  {
    assert (ds + [d])[..|ds|] == ds;
  }

  /** What holds of every declaration holds of every property built from them. */
  lemma {:induction false} TableOfWellFormed(ds: seq<Declaration>)
    requires forall k :: 0 <= k < |ds| ==> WellFormed(ds[k].name, ds[k].value)
    ensures forall k :: k in TableOf(ds).values ==> WellFormed(k, TableOf(ds).values[k])
  {
    if ds != [] {
      var init := ds[..|ds| - 1];
      assert forall k :: 0 <= k < |init| ==> init[k] == ds[k];
      TableOfWellFormed(init);
    }
  }

  /** Every property `extractSassVariables` creates is named by an identifier, its `$`
      removed, and holds a trimmed value with no `;` in it. */
  lemma ExtractedTableWellFormed(text: string)
    ensures forall k :: k in TableOf(Declarations(text)).values ==>
              && IsIdentifier(k)
              && IsTrimmed(TableOf(Declarations(text)).values[k])
              && ';' !in TableOf(Declarations(text)).values[k]
  {
    DeclarationsWellFormed(text, 0);
    TableOfWellFormed(Declarations(text));
  }

  /** The k-th declaration comes from the k-th match: it is named by the characters
      between that match's `$` and the end of its name. */
  lemma ExtractedNamesFollowDollars(text: string)
    ensures |Declarations(text)| == |Splits(text, 0)|
    ensures forall k :: 0 <= k < |Splits(text, 0)| ==>
              && IsSplit(text, Splits(text, 0)[k])
              && Declarations(text)[k].name == text[Splits(text, 0)[k].dollar + 1..Splits(text, 0)[k].nameEnd]
  {
    DeclarationsAreOfSplits(text, 0);
    var ss := Splits(text, 0);
    forall k | 0 <= k < |ss|
      ensures Declarations(text)[k].name == text[ss[k].dollar + 1..ss[k].nameEnd]
    {
      DeclarationOfShape(text, ss[k]);
    }
  }

  /** Last write wins: a name holds the value of its last declaration. */
  lemma {:induction false} LastDeclarationWins(ds: seq<Declaration>, j: nat)
    requires j < |ds|
    requires forall k :: j < k < |ds| ==> ds[k].name != ds[j].name
    ensures ds[j].name in TableOf(ds).values
    ensures TableOf(ds).values[ds[j].name] == ds[j].value
  {
    if j < |ds| - 1 {
      var init := ds[..|ds| - 1];
      LastDeclarationWins(init, j);
    }
  }

  /** With pairwise distinct names every declaration becomes its own property, in order. */
  lemma {:induction false} DistinctNamesOneEntryEach(ds: seq<Declaration>)
    requires forall i, j :: 0 <= i < j < |ds| ==> ds[i].name != ds[j].name
    ensures TableOf(ds).keys == Names(ds)
  {
    if ds != [] {
      var n := |ds| - 1;
      var init := ds[..n];
      assert forall k :: 0 <= k < n ==> init[k] == ds[k];
      DistinctNamesOneEntryEach(init);
      var name := ds[n].name;
      assert name !in Names(init) by {
        forall k | 0 <= k < n ensures Names(init)[k] != name {
          assert Names(init)[k] == ds[k].name;
        }
      }
      assert name !in TableOf(init).values;
      assert TableOf(ds) == TableOf(init).Put(name, ds[n].value);
    }
  }

  /** One turn of the `exec` loop: the match found from `from` contributes its declaration,
      and the search goes on from the end of that match. */
  lemma ExtractionStep(text: string, from: nat, sp: Split, done: seq<Declaration>)
    requires FindFrom(text, from) == Some(sp)
    requires Declarations(text) == done + DeclarationsFrom(text, from)
    ensures from < sp.end <= |text|
    ensures Declarations(text) == (done + [DeclarationOf(text, sp)]) + DeclarationsFrom(text, sp.end)
    ensures TableOf(done + [DeclarationOf(text, sp)])
         == TableOf(done).Put(DeclarationOf(text, sp).name, DeclarationOf(text, sp).value)
  {
    var d, rest := DeclarationOf(text, sp), DeclarationsFrom(text, sp.end);
    assert DeclarationsFrom(text, from) == [d] + rest;
    AppendOne(done, d, rest);
    TableOfSnoc(done, d);
  }

  /** `extractSassVariables` on the text the file holds: `exec` is called until it answers
      `null`, and each match's name and value are assigned to the fresh object. */
  method ExtractSassVariables(scssContent: string) returns (variables: PlainObject)
    ensures fresh(variables) && variables.Valid()
    ensures variables.Snapshot() == TableOf(Declarations(scssContent))
  {
    var variableRegex := new VariableRegex();
    variables := new PlainObject();
    ghost var done: seq<Declaration> := [];
    while true
      invariant fresh(variables) && variables.Valid()
      invariant variableRegex.lastIndex <= |scssContent|
      invariant Declarations(scssContent) == done + DeclarationsFrom(scssContent, variableRegex.lastIndex)
      invariant variables.Snapshot() == TableOf(done)
      decreases |scssContent| - variableRegex.lastIndex
    {
      ghost var from := variableRegex.lastIndex;
      var found := variableRegex.Exec(scssContent);
      if found.None? {
        assert done == Declarations(scssContent);
        break;
      }
      var sp := found.value;
      var variableName := Trim(RemoveFirst(sp.NameGroup(scssContent), "$"));
      var variableValue := Trim(RemoveFirst(sp.ValueGroup(scssContent), "$"));
      variables.Set(variableName, variableValue);
      ExtractionStep(scssContent, from, sp, done);
      done := done + [DeclarationOf(scssContent, sp)];
    }
  }
}
