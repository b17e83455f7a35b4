/** File naming for one catalogue item of the track conversion script: the
    track body and its two rails share a directory, an object name and an
    extension, and the directory of the CAD sources depends on whether the
    item is a straight or a curve. */
module FileNames {

  /** The path separator, `os.sep` on a POSIX system. */
  const Sep: char := '/'

  /** The three files that belong to one item, the keys `track`, `inner` and
      `outer` of the dictionary `get_filenames` returns. */
  datatype FileNames = FileNames(track: string, inner: string, outer: string)

  const InnerSuffix: string := "InnerRail"
  const OuterSuffix: string := "OuterRail"

  /** The part all three names share: the directory, the separator and the
      object name. */
  function Stem(path: string, obj: string): string
  {
    path + [Sep] + obj
  }

  /** `path + os.sep + "%s<suffix>.%s" % (obj, ext)`. */
  function NameFor(path: string, obj: string, suffix: string, ext: string): string
  {
    Stem(path, obj) + suffix + "." + ext
  }

  /** A name is the stem, then the suffix, then the dot and the extension. */
  lemma NameForParts(path: string, obj: string, suffix: string, ext: string)
    ensures |NameFor(path, obj, suffix, ext)| == |Stem(path, obj)| + |suffix| + |"."| + |ext|
    ensures NameFor(path, obj, suffix, ext)[..|Stem(path, obj)|] == Stem(path, obj)
    ensures NameFor(path, obj, suffix, ext)[|Stem(path, obj)|..|Stem(path, obj)| + |suffix|] == suffix
    ensures NameFor(path, obj, suffix, ext)[|Stem(path, obj)| + |suffix|..] == "." + ext
  {
    var stem := Stem(path, obj);
    assert NameFor(path, obj, suffix, ext) == stem + suffix + ("." + ext);
  }

  /** The names of the track body and of its inner and outer rails. */
  function GetFilenames(path: string, obj: string, ext: string): (r: FileNames)
    ensures r.track != r.inner && r.track != r.outer && r.inner != r.outer
    ensures |Stem(path, obj)| == |path| + |[Sep]| + |obj|
    ensures |r.track| == |Stem(path, obj)| + |"."| + |ext|
    ensures |r.inner| == |r.track| + |InnerSuffix| && |r.outer| == |r.track| + |OuterSuffix|
    ensures r.track[..|Stem(path, obj)|] == Stem(path, obj)
    ensures r.inner[..|Stem(path, obj)|] == Stem(path, obj)
    ensures r.outer[..|Stem(path, obj)|] == Stem(path, obj)
    ensures r.inner[|Stem(path, obj)|..|Stem(path, obj)| + |InnerSuffix|] == InnerSuffix
    ensures r.outer[|Stem(path, obj)|..|Stem(path, obj)| + |OuterSuffix|] == OuterSuffix
    ensures r.track[|r.track| - |ext| - 1..] == "." + ext
    ensures r.inner[|r.inner| - |ext| - 1..] == "." + ext
    ensures r.outer[|r.outer| - |ext| - 1..] == "." + ext
  {
    var r := FileNames(NameFor(path, obj, "", ext), NameFor(path, obj, InnerSuffix, ext),
                       NameFor(path, obj, OuterSuffix, ext));
    NameForParts(path, obj, "", ext);
    NameForParts(path, obj, InnerSuffix, ext);
    NameForParts(path, obj, OuterSuffix, ext);
    var stem := Stem(path, obj);
    assert r.inner[|stem|] == 'I' && r.outer[|stem|] == 'O';
    r
  }

  /** Under one directory and extension, different items never share a track
      file. */
  lemma TrackNameInjective(path: string, a: string, b: string, ext: string)
    requires GetFilenames(path, a, ext).track == GetFilenames(path, b, ext).track
    ensures a == b
  {
    NameForInjective(path, a, b, "", ext);
  }

  /** No file name of one item is a file name of the other. */
  predicate NamesDisjoint(f: FileNames, g: FileNames)
  {
    && f.track != g.track && f.track != g.inner && f.track != g.outer
    && f.inner != g.track && f.inner != g.inner && f.inner != g.outer
    && f.outer != g.track && f.outer != g.inner && f.outer != g.outer
  }

  /** Under one directory and extension, two names with the same suffix
      belong to the same item. */
  lemma {:induction false} NameForInjective(path: string, a: string, b: string, suffix: string, ext: string)
    requires NameFor(path, a, suffix, ext) == NameFor(path, b, suffix, ext)
    ensures a == b
  {
    var na, nb := NameFor(path, a, suffix, ext), NameFor(path, b, suffix, ext);
    assert |a| == |b|;
    assert na[|path| + 1..|path| + 1 + |a|] == a;
    assert nb[|path| + 1..|path| + 1 + |b|] == b;
  }

  /** Two different items whose names are shorter than a rail suffix share
      no file: the same suffix needs the same item, a track name is shorter
      than any rail name of the other item, and inner and outer rail names of
      equal length differ at the rail's first letter. */
  lemma ShortItemsNamesDisjoint(path: string, a: string, b: string, ext: string)
    requires a != b && |a| < |InnerSuffix| && |b| < |InnerSuffix|
    ensures NamesDisjoint(GetFilenames(path, a, ext), GetFilenames(path, b, ext))
  {
    var fa, fb := GetFilenames(path, a, ext), GetFilenames(path, b, ext);
    if fa.track == fb.track {
      NameForInjective(path, a, b, "", ext);
    }
    if fa.inner == fb.inner {
      NameForInjective(path, a, b, InnerSuffix, ext);
    }
    if fa.outer == fb.outer {
      NameForInjective(path, a, b, OuterSuffix, ext);
    }
    if |a| == |b| {
      var m := |Stem(path, a)|;
      assert fa.inner[m] == 'I' && fb.outer[m] == 'O';
      assert fa.outer[m] == 'O' && fb.inner[m] == 'I';
    }
  }

  /** `needle` occurs in `hay` starting at position `i`. */
  predicate OccursAt(needle: string, hay: string, i: nat)
  {
    i + |needle| <= |hay| && hay[i..i + |needle|] == needle
  }

  /** Python's `needle in hay` for strings: a substring test. */
  predicate Substring(needle: string, hay: string)
  {
    exists i: nat :: i <= |hay| && OccursAt(needle, hay, i)
  }

  /** A one-character string is a substring exactly when that character
      occurs in the string. */
  lemma SingleCharSubstring(c: char, s: string)
    ensures Substring([c], s) <==> c in s
  {
    if c in s {
      var i :| 0 <= i < |s| && s[i] == c;
      assert OccursAt([c], s, i);
    }
    if Substring([c], s) {
      var i: nat :| i <= |s| && OccursAt([c], s, i);
      assert s[i] == s[i..i + 1][0];
    }
  }

  /** The two families of the catalogue. */
  datatype Kind = Straight | Curve

  /** `"S" in item`: an item whose name contains the substring `S` is a
      straight. */
  function KindOf(item: string): (k: Kind)
    ensures k == Straight <==> Substring("S", item)
  {
    SingleCharSubstring('S', item);
    if 'S' in item then Straight else Curve
  }

  /** The directory the CAD sources of `item` are read from. */
  function SourceDir(item: string, straightDir: string, curveDir: string): (d: string)
    ensures Substring("S", item) ==> d == straightDir
    ensures !Substring("S", item) ==> d == curveDir
  {
    match KindOf(item)
    case Straight => straightDir
    case Curve => curveDir
  }

  /** The script's catalogue of items. */
  const Straights: seq<string> := ["S1.6", "S3.2", "S8", "S16", "S32"]
  const Curves: seq<string> := ["R56", "R64P", "R72", "R88", "R104", "R120"]

  /** Every item the script converts, straights first. */
  const Catalogue: seq<string> := Straights + Curves

  /** Under one directory and extension, no two items of the catalogue share
      a file name, so no item's output overwrites another's. */
  lemma CatalogueNamesDisjoint(path: string, ext: string)
    ensures forall a, b :: a in Catalogue && b in Catalogue && a != b ==>
              NamesDisjoint(GetFilenames(path, a, ext), GetFilenames(path, b, ext))
  {
    forall a, b | a in Catalogue && b in Catalogue && a != b
      ensures NamesDisjoint(GetFilenames(path, a, ext), GetFilenames(path, b, ext))
    {
      ShortItemsNamesDisjoint(path, a, b, ext);
    }
  }

  /** The name test sorts the catalogue as intended: every straight is read
      from the straight directory and every curve from the curve directory. */
  lemma CatalogueClassified(straightDir: string, curveDir: string)
    ensures forall s :: s in Straights ==> SourceDir(s, straightDir, curveDir) == straightDir
    ensures forall c :: c in Curves ==> SourceDir(c, straightDir, curveDir) == curveDir
  {
    assert 'S' !in "R56" && 'S' !in "R64P" && 'S' !in "R72";
    assert 'S' !in "R88" && 'S' !in "R104" && 'S' !in "R120";
  }
}
