/** The data a template is compiled with, and the names its output files are given. */
module Templates {
  import opened Text
  import opened Tables

  /** `getJsonData`: `{ ...dataJson, ...stylesJson }` over the two parsed JSON objects. */
  function GetJsonData<V>(dataJson: Table<V>, stylesJson: Table<V>): (r: Table<V>)
    requires dataJson.Valid() && stylesJson.Valid()
    ensures r.Valid()
  {
    var withData := CopyProperties(Empty(), dataJson, dataJson.keys);
    CopyProperties(withData, stylesJson, stylesJson.keys)
  }

  /** Nothing is known yet: every name is new. */
  lemma {:induction false} NewKeysOfNothing(ks: seq<string>)
    ensures NewKeys(ks, {}) == ks
  {
    if ks != [] {
      NewKeysOfNothing(ks[..|ks| - 1]);
    }
  }

  /** `{ ...obj }` is a copy of `obj`, in the same order. */
  lemma SpreadOntoEmpty<V>(obj: Table<V>)
    requires obj.Valid()
    ensures CopyProperties(Empty(), obj, obj.keys) == obj
  {
    var none: Table<V> := Empty();
    var copy := CopyProperties(none, obj, obj.keys);
    assert copy.keys == obj.keys by {
      assert none.values.Keys == {};
      CopyPropertiesKeys(none, obj, obj.keys);
      NewKeysOfNothing(obj.keys);
    }
    assert copy.values == obj.values by {
      CopyPropertiesValues(none, obj, obj.keys);
    }
  }

  /** The merged data has every property of both files; a property of `styles.json` wins
      over one of the same name in `data.json`; a property only `data.json` has keeps its
      value. */
  lemma MergedTemplateData<V>(dataJson: Table<V>, stylesJson: Table<V>)
    requires dataJson.Valid() && stylesJson.Valid()
    ensures GetJsonData(dataJson, stylesJson).values.Keys
         == dataJson.values.Keys + stylesJson.values.Keys
    ensures forall k :: k in stylesJson.values ==>
              GetJsonData(dataJson, stylesJson).values[k] == stylesJson.values[k]
    ensures forall k :: k in dataJson.values && k !in stylesJson.values ==>
              GetJsonData(dataJson, stylesJson).values[k] == dataJson.values[k]
  {
    SpreadOntoEmpty(dataJson);
    CopyPropertiesValues(dataJson, stylesJson, stylesJson.keys);
  }

  /** The properties of `data.json` come first, in their order, followed by those only
      `styles.json` has, in theirs. */
  lemma MergedTemplateDataOrder<V>(dataJson: Table<V>, stylesJson: Table<V>)
    requires dataJson.Valid() && stylesJson.Valid()
    ensures GetJsonData(dataJson, stylesJson).keys
         == dataJson.keys + NewKeys(stylesJson.keys, dataJson.values.Keys)
  {
    SpreadOntoEmpty(dataJson);
    CopyPropertiesKeys(dataJson, stylesJson, stylesJson.keys);
  }

  /** The `path` object a `gulp-rename` callback receives and edits. */
  datatype FilePath = FilePath(dirname: string, basename: string, extname: string)

  /** The marker that tells a preview page from the final one. */
  const PreviewMarker: string := "-preview"

  /** The first rename: `path.basename += '-preview'; path.extname = '.html'`. */
  function PreviewName(path: FilePath): FilePath
  {
    path.(basename := path.basename + PreviewMarker, extname := ".html")
  }

  /** The second rename: `path.basename = path.basename.replace('-preview', '');
      path.extname = '.html'`. */
  function FinalName(path: FilePath): FilePath
  {
    path.(basename := RemoveFirst(path.basename, PreviewMarker), extname := ".html")
  }

  /** Only the first character of the marker is a `-`. */
  lemma MarkerHasOneDash()
    ensures PreviewMarker[0] == '-'
    ensures forall k :: 0 < k < |PreviewMarker| ==> PreviewMarker[k] != '-'
  {
  }

  /** An occurrence that lies wholly inside `b` is unaffected by what follows `b`. */
  lemma OccursInPrefix(b: string, rest: string, j: nat)
    requires j + |PreviewMarker| <= |b|
    ensures OccursAt(b + rest, PreviewMarker, j) <==> OccursAt(b, PreviewMarker, j)
  {
    assert (b + rest)[j..j + |PreviewMarker|] == b[j..j + |PreviewMarker|];
  }

  /** No occurrence of the marker in `b + "-preview"` starts inside `b` and ends inside
      the appended marker, since that would put its only `-` elsewhere than first. */
  lemma NoMarkerAcrossJoin(b: string, j: nat)
    requires j < |b| < j + |PreviewMarker|
    ensures !OccursAt(b + PreviewMarker, PreviewMarker, j)
  {
    var s := b + PreviewMarker;
    MarkerHasOneDash();
    assert s[|b|] == '-';
    assert PreviewMarker[|b| - j] != '-';
    assert j + |PreviewMarker| <= |s| ==> s[j..j + |PreviewMarker|][|b| - j] == s[|b|];
  }

  /** The first occurrence of the marker in a preview basename is the first one in the
      original basename if there is one, and the appended marker otherwise. */
  lemma FirstMarkerOfPreview(b: string, i: nat)
    requires OccursAt(b + PreviewMarker, PreviewMarker, i)
    requires i == |b| || OccursAt(b, PreviewMarker, i)
    requires forall j: nat :: j < i ==> !OccursAt(b, PreviewMarker, j)
    ensures forall j: nat :: j < i ==> !OccursAt(b + PreviewMarker, PreviewMarker, j)
  {
    forall j: nat | j < i ensures !OccursAt(b + PreviewMarker, PreviewMarker, j) {
      if j + |PreviewMarker| <= |b| {
        OccursInPrefix(b, PreviewMarker, j);
      } else {
        NoMarkerAcrossJoin(b, j);
      }
    }
  }

  /** A page whose basename does not contain `-preview` gets its own basename back in
      `dist`, and both of its names end in `.html`. */
  lemma RenameRoundTrip(path: FilePath)
    requires forall j: nat :: !OccursAt(path.basename, PreviewMarker, j)
    ensures PreviewName(path).extname == ".html"
    ensures FinalName(PreviewName(path)) == path.(extname := ".html")
  {
    var b := path.basename;
    var s := b + PreviewMarker;
    assert s[|b|..|b| + |PreviewMarker|] == PreviewMarker;
    FirstMarkerOfPreview(b, |b|);
    RemoveFirstCutsFirstOccurrence(s, PreviewMarker);
    assert s[..|b|] + s[|b| + |PreviewMarker|..] == b;
  }

  /** A basename that already contains `-preview` loses its first such occurrence and
      keeps the appended marker: the final name is not the original one. */
  lemma RenameMovesEarlierMarker(path: FilePath, i: nat)
    requires OccursAt(path.basename, PreviewMarker, i)
    requires forall j: nat :: j < i ==> !OccursAt(path.basename, PreviewMarker, j)
    ensures FinalName(PreviewName(path)).basename
         == path.basename[..i] + path.basename[i + |PreviewMarker|..] + PreviewMarker
  {
    var b := path.basename;
    var s := b + PreviewMarker;
    OccursInPrefix(b, PreviewMarker, i);
    FirstMarkerOfPreview(b, i);
    RemoveFirstCutsFirstOccurrence(s, PreviewMarker);
    assert s[..i] == b[..i];
    assert s[i + |PreviewMarker|..] == b[i + |PreviewMarker|..] + PreviewMarker;
  }

  /** A basename such as `a-preview-x`, whose first `-` opens a `-preview`, is published
      with that marker moved to the end: `a-x-preview.html`. */
  lemma RenameMovesMarkerToEnd(path: FilePath, u: string, w: string)
    requires path.basename == u + PreviewMarker + w
    requires '-' !in u
    ensures FinalName(PreviewName(path)).basename == u + w + PreviewMarker
  {
    var b := path.basename;
    assert b[|u|..|u| + |PreviewMarker|] == PreviewMarker;
    forall j: nat | j < |u| ensures !OccursAt(b, PreviewMarker, j) {
      assert b[j] == u[j];
      assert j + |PreviewMarker| <= |b| ==> b[j..j + |PreviewMarker|][0] == b[j];
    }
    RenameMovesEarlierMarker(path, |u|);
    assert b[..|u|] == u && b[|u| + |PreviewMarker|..] == w;
  }
}
