/** The glyph picker of src/utils/picker.py: which hand-drawn SVG file (if
    any) stands for a character, and which blank replaces a character that
    has none. */
module Picker {
  import opened Strings

  datatype Option<T> = None | Some(value: T)

  /** What the asset directory holds: for each character that has a folder,
      that folder's listing in `os.listdir` order. A character that is not a
      key has no folder. */
  type AssetListing = map<char, seq<string>>

  /** `a` is a subsequence of `b`: the elements of `a` occur in `b` in the
      same order, possibly with others between them. */
  ghost predicate IsSubsequence<T>(a: seq<T>, b: seq<T>)
    decreases |b|
  {
    if a == [] then true
    else if b == [] then false
    else if a[0] == b[0] then IsSubsequence(a[1..], b[1..])
    else IsSubsequence(a, b[1..])
  }

  /** The list comprehension `[f for f in listing if f.endswith(".svg")]`. */
  function SvgFiles(listing: seq<string>): (r: seq<string>)
    ensures forall k :: 0 <= k < |r| ==> EndsWith(r[k], ".svg")
  {
    if listing == [] then []
    else if EndsWith(listing[0], ".svg") then [listing[0]] + SvgFiles(listing[1..])
    else SvgFiles(listing[1..])
  }

  /** The filter keeps exactly the `.svg` names of the listing, each as
      often as it occurs there, in listing order. */
  lemma {:induction false} SvgFilesSpec(listing: seq<string>)
    ensures forall f :: multiset(SvgFiles(listing))[f] == if EndsWith(f, ".svg") then multiset(listing)[f] else 0
    ensures IsSubsequence(SvgFiles(listing), listing)
  {
    if listing != [] {
      var rest := SvgFiles(listing[1..]);
      SvgFilesSpec(listing[1..]);
      assert listing == [listing[0]] + listing[1..];
      if !EndsWith(listing[0], ".svg") {
        assert rest != [] ==> rest[0] != listing[0];
      }
    }
  }

  /** `HandwritingPicker`: its only field, `asset_dir`, is set when it is
      created and never changes, so the picker is a value. */
  datatype HandwritingPicker = HandwritingPicker(assetDir: string)
  {
    /** `os.path.join(self.asset_dir, char)`: the folder of `c`'s glyphs. */
    function Folder(c: char): string
    {
      Join(assetDir, [c])
    }

    /** `p` is a path `pick_svg_for_char(c)` may return: the folder of `c`
        joined with one of the `.svg` names in that folder. */
    ghost predicate IsPick(assets: AssetListing, c: char, p: string)
    {
      c in assets && exists f :: f in SvgFiles(assets[c]) && p == Join(Folder(c), f)
    }

    /** `pick_svg_for_char`: no path when `c` has no folder or its folder
        holds no `.svg` name, and otherwise one of those names, chosen
        arbitrarily (`random.choice`), joined to the folder. */
    method PickSvgForChar(assets: AssetListing, c: char) returns (r: Option<string>)
      ensures r.None? <==> c !in assets || SvgFiles(assets[c]) == []
      ensures r.Some? ==> IsPick(assets, c, r.value)
    {
      if c !in assets {
        return None;
      }
      var svgFiles := SvgFiles(assets[c]);
      if svgFiles == [] {
        return None;
      }
      assert svgFiles[0] in svgFiles;
      var f :| f in svgFiles;
      return Some(Join(Folder(c), f));
    }

    /** `is_chinese`: `c` lies in the CJK Unified Ideographs block,
        U+4E00 to U+9FFF, both ends included. */
    predicate IsChinese(c: char)
    {
      '\U{4E00}' <= c <= '\U{9FFF}'
    }

    /** `get_fallback_char`: a one-character blank, the full-width space
        U+3000 for a CJK character and the ASCII space otherwise. */
    function GetFallbackChar(c: char): (r: string)
      ensures |r| == 1 && IsSpace(r[0])
      ensures r == "\U{3000}" <==> IsChinese(c)
      ensures r == " " <==> !IsChinese(c)
    {
      if IsChinese(c) then "\U{3000}" else " "
    }
  }

  /** A path the picker can return names an existing `.svg` entry of the
      character's folder listing, ends in `.svg`, and so is never the empty
      (falsy) string. */
  lemma PickIsSvgOfListing(picker: HandwritingPicker, assets: AssetListing, c: char, p: string)
    requires picker.IsPick(assets, c, p)
    ensures exists f :: f in assets[c] && EndsWith(f, ".svg") && p == Join(picker.Folder(c), f)
    ensures EndsWith(p, ".svg") && p != ""
  {
    var files := SvgFiles(assets[c]);
    SvgFilesSpec(assets[c]);
    var f :| f in files && p == Join(picker.Folder(c), f);
    var i :| 0 <= i < |files| && files[i] == f;
    assert EndsWith(f, ".svg");
    assert multiset(files)[f] > 0;
    assert f in assets[c];
    EndsWithTransitive(p, f, ".svg");
  }

  /** Whenever `c` has a `.svg` file, some path qualifies as a pick, so the
      choice in `PickSvgForChar` is always possible. */
  lemma PickExists(picker: HandwritingPicker, assets: AssetListing, c: char)
    requires c in assets && exists f :: f in assets[c] && EndsWith(f, ".svg")
    ensures SvgFiles(assets[c]) != []
    ensures picker.IsPick(assets, c, Join(picker.Folder(c), SvgFiles(assets[c])[0]))
  {
    var f :| f in assets[c] && EndsWith(f, ".svg");
    SvgFilesSpec(assets[c]);
    assert multiset(assets[c])[f] > 0;
    assert multiset(SvgFiles(assets[c]))[f] > 0;
  }

  /** The range test of `is_chinese` at and around its two ends, and on the
      characters 永 (CJK) and A (not CJK). */
  lemma ChineseRangeEnds(picker: HandwritingPicker)
    ensures picker.IsChinese('\U{4E00}') && picker.IsChinese('\U{9FFF}')
    ensures !picker.IsChinese('\U{4DFF}') && !picker.IsChinese('\U{A000}')
    ensures picker.IsChinese('永') && !picker.IsChinese('A')
    ensures picker.GetFallbackChar('永') == "\U{3000}" && picker.GetFallbackChar('A') == " "
  {
  }
}
