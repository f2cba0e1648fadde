/** The global regular expression `/(\$[a-zA-Z0-9-_]+)\s*:\s*([^;]+)/g` of
    `extractSassVariables` and the `exec` calls that walk it over a stylesheet. */
module Scanner {
  import opened Wrappers
  import opened Text

  /** Where one match of the pattern lies in the text: the `$` at `dollar`, the name
      characters up to `nameEnd`, the colon at `colon`, the value (the second capture
      group) from `valueStart` up to `end`, where the match ends. */
  datatype Split = Split(dollar: nat, nameEnd: nat, colon: nat, valueStart: nat, end: nat)
  {
    /** The first capture group, `$` included. */
    function NameGroup(text: string): string
      requires dollar <= nameEnd <= |text|
    {
      text[dollar..nameEnd]
    }

    /** The second capture group. */
    function ValueGroup(text: string): string
      requires valueStart <= end <= |text|
    {
      text[valueStart..end]
    }
  }

  /** `sp` is one way the pattern matches `text[sp.dollar..sp.end]`: `\$`, one or more name
      characters, whitespace, `:`, whitespace, then one or more characters other than `;`. */
  predicate IsSplit(text: string, sp: Split)
  {
    && sp.dollar + 1 < sp.nameEnd <= sp.colon < sp.valueStart < sp.end <= |text|
    && text[sp.dollar] == '$'
    && (forall k :: sp.dollar < k < sp.nameEnd ==> IsNameChar(text[k]))
    && (forall k :: sp.nameEnd <= k < sp.colon ==> IsSpace(text[k]))
    && text[sp.colon] == ':'
    && (forall k :: sp.colon < k < sp.valueStart ==> IsSpace(text[k]))
    && (forall k :: sp.valueStart <= k < sp.end ==> text[k] != ';')
  }

  /** Of two ways to match at one position, the backtracking engine reports `a` before `b`:
      its greedy quantifiers try longer runs first, from left to right, so the reported
      match is the one whose consumed lengths are lexicographically greatest. */
  predicate Prefers(a: Split, b: Split)
  {
    || a.nameEnd > b.nameEnd
    || (a.nameEnd == b.nameEnd && a.colon > b.colon)
    || (a.nameEnd == b.nameEnd && a.colon == b.colon && a.valueStart > b.valueStart)
    || (a.nameEnd == b.nameEnd && a.colon == b.colon && a.valueStart == b.valueStart && a.end >= b.end)
  }

  /** `a` is the match a search reports rather than `b`: it starts further left, or at the
      same place and is preferred there. */
  predicate Precedes(a: Split, b: Split)
  {
    a.dollar < b.dollar || (a.dollar == b.dollar && Prefers(a, b))
  }

  /** The end of the longest run of characters satisfying `inRun` that starts at `k`. */
  function RunEnd(text: string, k: nat, inRun: char -> bool): (r: nat)
    requires k <= |text|
    decreases |text| - k
    ensures k <= r <= |text|
    ensures forall j :: k <= j < r ==> inRun(text[j])
    ensures r == |text| || !inRun(text[r])
  {
    if k < |text| && inRun(text[k]) then RunEnd(text, k + 1, inRun) else k
  }

  predicate NotSemicolon(c: char)
  {
    c != ';'
  }

  /** A run of characters in `inRun` from `k` to `e`, stopped by one outside it, is the run. */
  lemma RunEndAt(text: string, k: nat, inRun: char -> bool, e: nat)
    requires k <= e <= |text|
    requires forall j :: k <= j < e ==> inRun(text[j])
    requires e == |text| || !inRun(text[e])
    ensures RunEnd(text, k, inRun) == e
  {
  }

  /** A run of characters in `inRun` from `k` to `e` lies within the run starting at `k`. */
  lemma RunEndAtLeast(text: string, k: nat, inRun: char -> bool, e: nat)
    requires k <= e <= |text|
    requires forall j :: k <= j < e ==> inRun(text[j])
    ensures e <= RunEnd(text, k, inRun)
    decreases e - k
  {
    if k < e {
      RunEndAtLeast(text, k + 1, inRun, e);
    }
  }

  /** The pattern anchored at `i`, tried the way the backtracking engine tries it. When only
      whitespace separates the colon from a `;` or the end of the text, the greedy `\s*`
      gives back its last character so that `[^;]+` can match it. */
  function MatchAt(text: string, i: nat): (r: Option<Split>)
    ensures r.Some? ==> r.value.dollar == i && IsSplit(text, r.value)
  {
    if i < |text| && text[i] == '$' then
      var nameEnd := RunEnd(text, i + 1, IsNameChar);
      var colon := RunEnd(text, nameEnd, IsSpace);
      if nameEnd == i + 1 || colon == |text| || text[colon] != ':' then None
      else
        var afterSpace := RunEnd(text, colon + 1, IsSpace);
        if afterSpace < |text| && text[afterSpace] != ';' then
          Some(Split(i, nameEnd, colon, afterSpace, RunEnd(text, afterSpace, NotSemicolon)))
        else if afterSpace > colon + 1 then
          Some(Split(i, nameEnd, colon, afterSpace - 1, afterSpace))
        else None
    else None
  }

  /** Every way to match at `i` agrees with the run-based attempt on the name and the colon. */
  lemma SplitFixesNameAndColon(text: string, sp: Split)
    requires IsSplit(text, sp)
    ensures sp.nameEnd == RunEnd(text, sp.dollar + 1, IsNameChar)
    ensures sp.colon == RunEnd(text, sp.nameEnd, IsSpace)
  {
    assert !IsNameChar(text[sp.nameEnd]);
    RunEndAt(text, sp.dollar + 1, IsNameChar, sp.nameEnd);
    RunEndAt(text, sp.nameEnd, IsSpace, sp.colon);
  }

  /** A colon followed only by spaces up to a `;` or the end of the text:
      `\s*` gives back its last space so that `[^;]+` can match it. */
  lemma BlankMatch(text: string, i: nat, nameEnd: nat, colon: nat, stop: nat)
    requires i + 1 < nameEnd <= colon && colon + 1 < stop <= |text|
    requires text[i] == '$' && text[colon] == ':'
    requires forall k :: i < k < nameEnd ==> IsNameChar(text[k])
    requires forall k :: nameEnd <= k < colon ==> IsSpace(text[k])
    requires forall k :: colon < k < stop ==> IsSpace(text[k])
    requires stop == |text| || text[stop] == ';'
    ensures MatchAt(text, i) == Some(Split(i, nameEnd, colon, stop - 1, stop))
  {
    BlankRuns(text, i, nameEnd, colon, stop);
    MatchAtFromRuns(text, i, nameEnd, colon, stop);
  }

  /** A declaration whose value starts with a character other than whitespace and `;`:
      every quantifier takes its longest run, and the value runs to the `;` or the end. */
  lemma ValueMatch(text: string, i: nat, nameEnd: nat, colon: nat, valueStart: nat, end: nat)
    requires i + 1 < nameEnd <= colon < valueStart < end <= |text|
    requires text[i] == '$' && text[colon] == ':'
    requires forall k :: i < k < nameEnd ==> IsNameChar(text[k])
    requires forall k :: nameEnd <= k < colon ==> IsSpace(text[k])
    requires forall k :: colon < k < valueStart ==> IsSpace(text[k])
    requires !IsSpace(text[valueStart])
    requires forall k :: valueStart <= k < end ==> text[k] != ';'
    requires end == |text| || text[end] == ';'
    ensures MatchAt(text, i) == Some(Split(i, nameEnd, colon, valueStart, end))
  {
    assert RunEnd(text, i + 1, IsNameChar) == nameEnd by {
      RunEndAt(text, i + 1, IsNameChar, nameEnd);
    }
    assert RunEnd(text, nameEnd, IsSpace) == colon by {
      RunEndAt(text, nameEnd, IsSpace, colon);
    }
    assert RunEnd(text, colon + 1, IsSpace) == valueStart by {
      RunEndAt(text, colon + 1, IsSpace, valueStart);
    }
    assert RunEnd(text, valueStart, NotSemicolon) == end by {
      RunEndAt(text, valueStart, NotSemicolon, end);
    }
    MatchAtFromRuns(text, i, nameEnd, colon, valueStart);
  }

  /** `MatchAt` once the runs it measures are known. */
  lemma MatchAtFromRuns(text: string, i: nat, nameEnd: nat, colon: nat, afterSpace: nat)
    requires i < |text| && text[i] == '$'
    requires RunEnd(text, i + 1, IsNameChar) == nameEnd && i + 1 < nameEnd
    requires RunEnd(text, nameEnd, IsSpace) == colon && colon < |text| && text[colon] == ':'
    requires RunEnd(text, colon + 1, IsSpace) == afterSpace
    ensures MatchAt(text, i)
         == if afterSpace < |text| && text[afterSpace] != ';' then
              Some(Split(i, nameEnd, colon, afterSpace, RunEnd(text, afterSpace, NotSemicolon)))
            else if afterSpace > colon + 1 then Some(Split(i, nameEnd, colon, afterSpace - 1, afterSpace))
            else None
  {
  }

  /** The three runs `MatchAt` measures on a blank declaration. */
  lemma BlankRuns(text: string, i: nat, nameEnd: nat, colon: nat, stop: nat)
    requires i + 1 < nameEnd <= colon && colon + 1 < stop <= |text|
    requires text[colon] == ':'
    requires forall k :: i < k < nameEnd ==> IsNameChar(text[k])
    requires forall k :: nameEnd <= k < colon ==> IsSpace(text[k])
    requires forall k :: colon < k < stop ==> IsSpace(text[k])
    requires stop == |text| || text[stop] == ';'
    ensures RunEnd(text, i + 1, IsNameChar) == nameEnd
    ensures RunEnd(text, nameEnd, IsSpace) == colon
    ensures RunEnd(text, colon + 1, IsSpace) == stop
  {
    RunEndAt(text, i + 1, IsNameChar, nameEnd);
    RunEndAt(text, nameEnd, IsSpace, colon);
    RunEndAt(text, colon + 1, IsSpace, stop);
  }

  /** The anchored attempt finds a match exactly when the pattern can match at `i`, and the
      one it finds is the one the engine prefers over every other way to match there. */
  lemma MatchAtIsPreferred(text: string, i: nat)
    ensures MatchAt(text, i).Some? ==>
              forall sp :: IsSplit(text, sp) && sp.dollar == i ==> Prefers(MatchAt(text, i).value, sp)
    ensures MatchAt(text, i).None? ==> forall sp :: IsSplit(text, sp) ==> sp.dollar != i
  {
    forall sp | IsSplit(text, sp) && sp.dollar == i
      ensures MatchAt(text, i).Some? && Prefers(MatchAt(text, i).value, sp)
    {
      SplitFixesNameAndColon(text, sp);
      var afterSpace := RunEnd(text, sp.colon + 1, IsSpace);
      assert sp.valueStart <= afterSpace;
      if afterSpace < |text| && text[afterSpace] != ';' {
        if sp.valueStart == afterSpace {
          RunEndAtLeast(text, afterSpace, NotSemicolon, sp.end);
        }
      } else {
        assert sp.valueStart < afterSpace;
      }
    }
  }

  /** `exec` from `lastIndex == from`: the first position at or after `from` where the
      anchored attempt succeeds. */
  function FindFrom(text: string, from: nat): (r: Option<Split>)
    decreases |text| - from
    ensures r.Some? ==> IsSplit(text, r.value) && from <= r.value.dollar
  {
    if from >= |text| then None
    else
      match MatchAt(text, from)
      case Some(sp) => Some(sp)
      case None => FindFrom(text, from + 1)
  }

  /** The search passes over a position that does not hold a `$`. */
  lemma FindFromSkips(text: string, from: nat)
    requires from < |text| && text[from] != '$'
    ensures FindFrom(text, from) == FindFrom(text, from + 1)
  {
  }

  /** The search reports the leftmost match at or after `from`, and of the ways to match
      there the one the engine prefers; it finds nothing only when the pattern matches
      nowhere from `from` on. */
  lemma {:induction false} FindFromIsLeftmostPreferred(text: string, from: nat)
    decreases |text| - from
    ensures forall sp :: IsSplit(text, sp) && from <= sp.dollar ==>
              FindFrom(text, from).Some? && Precedes(FindFrom(text, from).value, sp)
  {
    if from < |text| {
      MatchAtIsPreferred(text, from);
      if MatchAt(text, from).None? {
        FindFromIsLeftmostPreferred(text, from + 1);
      }
    }
  }

  /** A match the search reports ends at a `;` or at the end of the text: a value left
      without its `;` runs on over whatever follows, later declarations included. */
  lemma ReportedValueRunsToTerminator(text: string, from: nat)
    requires FindFrom(text, from).Some?
    ensures FindFrom(text, from).value.end == |text| || text[FindFrom(text, from).value.end] == ';'
  {
    var sp := FindFrom(text, from).value;
    FindFromIsLeftmostPreferred(text, from);
    var longer := sp.(end := if sp.end < |text| && text[sp.end] != ';' then sp.end + 1 else sp.end);
    assert IsSplit(text, longer);
  }

  /** When nothing but whitespace, or nothing at all, separates the colon after `$name`
      from a `;` or the end of the text, the pattern cannot match at that `$`: `[^;]+`
      needs one character, and only a whitespace character can be given back to it. */
  lemma NoMatchWithoutValue(text: string, i: nat, nameEnd: nat, colon: nat)
    requires i + 1 < nameEnd <= colon < |text|
    requires text[i] == '$' && text[colon] == ':'
    requires forall k :: i < k < nameEnd ==> IsNameChar(text[k])
    requires forall k :: nameEnd <= k < colon ==> IsSpace(text[k])
    requires colon + 1 == |text| || text[colon + 1] == ';'
    ensures forall sp :: IsSplit(text, sp) ==> sp.dollar != i
  {
    forall sp | IsSplit(text, sp) && sp.dollar == i ensures false {
      SplitFixesNameAndColon(text, sp);
      RunEndAt(text, i + 1, IsNameChar, nameEnd);
      RunEndAt(text, nameEnd, IsSpace, colon);
    }
  }

  /** The regular expression object, whose `lastIndex` carries the search from one `exec`
      call to the next. */
  class VariableRegex {
    var lastIndex: nat

    constructor ()
      ensures lastIndex == 0
    {
      lastIndex := 0;
    }

    /** `exec(text)`: search from `lastIndex`; on a match move `lastIndex` to its end, on a
        failure reset `lastIndex` to 0 and answer `null`. */
    method Exec(text: string) returns (m: Option<Split>)
      modifies this
      ensures m == FindFrom(text, old(lastIndex))
      ensures lastIndex == if m.Some? then m.value.end else 0
    {
      m := FindFrom(text, lastIndex);
      lastIndex := if m.Some? then m.value.end else 0;
    }
  }

  /** The matches that successive `exec` calls return when `lastIndex` starts at `from`. */
  function Splits(text: string, from: nat): (r: seq<Split>)
    decreases |text| - from
    ensures forall k :: 0 <= k < |r| ==> from <= r[k].dollar < r[k].end
  {
    match FindFrom(text, from)
    case None => []
    case Some(sp) => [sp] + Splits(text, sp.end)
  }

  /** Each match starts at or after the end of the one before it. */
  lemma {:induction false} SplitsAdjacent(text: string, from: nat)
    decreases |text| - from
    ensures forall k :: 0 < k < |Splits(text, from)| ==>
              Splits(text, from)[k - 1].end <= Splits(text, from)[k].dollar
  {
    match FindFrom(text, from)
    case None =>
    case Some(sp) =>
      SplitsAdjacent(text, sp.end);
      var rest := Splits(text, sp.end);
      var r := Splits(text, from);
      assert r == [sp] + rest;
      forall k | 0 < k < |r| ensures r[k - 1].end <= r[k].dollar {
        if k == 1 {
          assert r[1] == rest[0];
        } else {
          assert r[k - 1] == rest[k - 2] && r[k] == rest[k - 1];
        }
      }
  }

  /** Spans that each start where or after the previous one ends are in order pairwise. */
  lemma {:induction false} ChainedSpansInOrder(r: seq<Split>)
    requires forall k :: 0 <= k < |r| ==> r[k].dollar < r[k].end
    requires forall k :: 0 < k < |r| ==> r[k - 1].end <= r[k].dollar
    ensures forall j, k :: 0 <= j < k < |r| ==> r[j].end <= r[k].dollar
  {
    if r != [] {
      var n := |r| - 1;
      var init := r[..n];
      assert forall k :: 0 <= k < |init| ==> init[k] == r[k];
      ChainedSpansInOrder(init);
      forall j | 0 <= j < n ensures r[j].end <= r[n].dollar {
        if j < n - 1 {
          assert init[j].end <= init[n - 1].dollar;
        }
      }
    }
  }

  /** Successive matches do not overlap: each starts at or after the end of every one
      before it, so a `$name:` inside an earlier match's value is never reported. */
  lemma SplitsInOrder(text: string, from: nat)
    ensures forall j, k :: 0 <= j < k < |Splits(text, from)| ==>
              Splits(text, from)[j].end <= Splits(text, from)[k].dollar
  {
    SplitsAdjacent(text, from);
    ChainedSpansInOrder(Splits(text, from));
  }
}
