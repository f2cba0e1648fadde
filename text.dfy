/** Character classes and the two string primitives the build script relies on:
    `String.prototype.trim` and `String.prototype.replace` with a plain-string pattern. */
module Text {
  import opened Wrappers

  /** The characters that ECMAScript's `\s` matches and that `trim` strips: the
      WhiteSpace code points (tab, vertical tab, form feed, the byte-order mark and
      every space separator) and the LineTerminator code points. */
  predicate IsSpace(c: char)
  {
    || c == '\t' || c == '\n' || c == '\U{B}' || c == '\U{C}' || c == '\r'
    || c == ' ' || c == '\U{A0}' || c == '\U{1680}'
    || ('\U{2000}' <= c <= '\U{200A}')
    || c == '\U{2028}' || c == '\U{2029}' || c == '\U{202F}' || c == '\U{205F}'
    || c == '\U{3000}' || c == '\U{FEFF}'
  }

  /** The character class `[a-zA-Z0-9-_]` of a variable name. */
  predicate IsNameChar(c: char)
  {
    ('a' <= c <= 'z') || ('A' <= c <= 'Z') || ('0' <= c <= '9') || c == '-' || c == '_'
  }

  /** A variable name with its `$` removed: one or more name characters. */
  predicate IsIdentifier(s: string)
  {
    s != [] && forall k :: 0 <= k < |s| ==> IsNameChar(s[k])
  }

  /** Neither end of `s` is whitespace. */
  predicate IsTrimmed(s: string)
  {
    s == [] || (!IsSpace(s[0]) && !IsSpace(s[|s| - 1]))
  }

  /** `s` with its leading whitespace removed. */
  function TrimStart(s: string): (r: string)
    ensures |r| <= |s| && r == s[|s| - |r|..]
    ensures forall i :: 0 <= i < |s| - |r| ==> IsSpace(s[i])
    ensures r == [] || !IsSpace(r[0])
  {
    if s != [] && IsSpace(s[0]) then TrimStart(s[1..]) else s
  }

  /** `s` with its trailing whitespace removed. */
  function TrimEnd(s: string): (r: string)
    ensures |r| <= |s| && r == s[..|r|]
    ensures forall i :: |r| <= i < |s| ==> IsSpace(s[i])
    ensures r == [] || !IsSpace(r[|r| - 1])
  {
    if s != [] && IsSpace(s[|s| - 1]) then TrimEnd(s[..|s| - 1]) else s
  }

  /** `r` is the slice of `s` starting at `lo`, and everything of `s` around it is whitespace. */
  predicate SpaceFramed(s: string, r: string, lo: nat)
  {
    && lo + |r| <= |s| && r == s[lo..lo + |r|]
    && (forall i :: 0 <= i < lo ==> IsSpace(s[i]))
    && (forall i :: lo + |r| <= i < |s| ==> IsSpace(s[i]))
  }

  /** `s.trim()`: the part of `s` between its leading and its trailing whitespace. */
  function Trim(s: string): (r: string)
    ensures IsTrimmed(r)
    ensures exists lo :: SpaceFramed(s, r, lo)
  {
    var t := TrimStart(s);
    var r := TrimEnd(t);
    assert SpaceFramed(s, r, |s| - |t|);
    r
  }

  /** Trimming keeps no character that was not in `s`. */
  lemma TrimKeepsOnly(s: string, c: char)
    requires c !in s
    ensures c !in Trim(s)
  {
    var r := Trim(s);
    var lo: nat :| SpaceFramed(s, r, lo);
    assert lo + |r| <= |s| && r == s[lo..lo + |r|];
    forall k | 0 <= k < |r| ensures r[k] != c {
      assert r[k] == s[lo + k];
    }
  }

  /** A string with no whitespace at either end is its own trim. */
  lemma TrimOfTrimmed(s: string)
    requires IsTrimmed(s)
    ensures Trim(s) == s
  {
  }

  /** A string made of whitespace only trims to the empty string. */
  lemma TrimOfSpaces(s: string)
    requires forall i :: 0 <= i < |s| ==> IsSpace(s[i])
    ensures Trim(s) == ""
  {
  }

  /** `needle` occurs in `s` starting at index `i`. */
  predicate OccursAt(s: string, needle: string, i: nat)
  {
    i + |needle| <= |s| && s[i..i + |needle|] == needle
  }

  /** The first index at or after `from` where `needle` occurs in `s`, as `indexOf` finds it. */
  function IndexOf(s: string, needle: string, from: nat): (r: Option<nat>)
    decreases |s| - from
    ensures r.Some? ==> from <= r.value && OccursAt(s, needle, r.value)
    ensures r.Some? ==> forall j :: from <= j < r.value ==> !OccursAt(s, needle, j)
    ensures r.None? ==> forall j :: from <= j ==> !OccursAt(s, needle, j)
  {
    if from + |needle| > |s| then None
    else if s[from..from + |needle|] == needle then Some(from)
    else IndexOf(s, needle, from + 1)
  }

  /** `s.replace(needle, '')`: the first occurrence of `needle` is cut out of `s`;
      a string in which `needle` does not occur is returned as it is. */
  function RemoveFirst(s: string, needle: string): (r: string)
    ensures |r| <= |s|
  {
    match IndexOf(s, needle, 0)
    case None => s
    case Some(i) => s[..i] + s[i + |needle|..]
  }

  /** What `RemoveFirst` does, stated by occurrences: nothing when `needle` does not occur,
      and otherwise exactly the first occurrence is cut out. */
  lemma RemoveFirstCutsFirstOccurrence(s: string, needle: string)
    ensures (forall j :: !OccursAt(s, needle, j)) ==> RemoveFirst(s, needle) == s
    ensures forall i: nat :: OccursAt(s, needle, i) && (forall j: nat :: j < i ==> !OccursAt(s, needle, j))
                             ==> RemoveFirst(s, needle) == s[..i] + s[i + |needle|..]
  {
  }

  /** A string that starts with `needle` loses exactly that prefix. */
  lemma RemoveFirstOfPrefixed(needle: string, rest: string)
    ensures RemoveFirst(needle + rest, needle) == rest
  {
    assert OccursAt(needle + rest, needle, 0);
    RemoveFirstCutsFirstOccurrence(needle + rest, needle);
  }

  /** A one-character needle that does not occur leaves the string as it is. */
  lemma RemoveFirstOfAbsent(s: string, c: char)
    requires c !in s
    ensures RemoveFirst(s, [c]) == s
  {
    forall j: nat ensures !OccursAt(s, [c], j) {
      if j + 1 <= |s| {
        assert s[j..j + 1] == [s[j]];
      }
    }
    RemoveFirstCutsFirstOccurrence(s, [c]);
  }

  /** Only the first occurrence of a one-character needle goes; later ones stay in `w`. */
  lemma RemoveFirstOfChar(u: string, c: char, w: string)
    requires c !in u
    ensures RemoveFirst(u + [c] + w, [c]) == u + w
  {
    var s := u + [c] + w;
    assert OccursAt(s, [c], |u|) by {
      assert s[|u|..|u| + 1] == [c];
    }
    forall j: nat | j < |u| ensures !OccursAt(s, [c], j) {
      assert s[j..j + 1] == [u[j]];
    }
    RemoveFirstCutsFirstOccurrence(s, [c]);
    assert s[..|u|] == u && s[|u| + 1..] == w;
  }

  /** Removing a needle keeps no character that was not in `s`. */
  lemma RemoveFirstKeepsOnly(s: string, needle: string, c: char)
    requires c !in s
    ensures c !in RemoveFirst(s, needle)
  {
    match IndexOf(s, needle, 0)
    case None =>
    case Some(i) =>
      assert RemoveFirst(s, needle) == s[..i] + s[i + |needle|..];
  }
}
