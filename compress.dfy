/** The SVG asset compressor of src/utils/compress.py: `compress_svg_style`
    moves `style` attributes that repeat often enough into shared classes
    declared in one `<style>` element, and `compress_svg` runs svgo and that
    pass over every `.svg` file changed since the ledger recorded it. */
module Compress {
  import opened Strings

  // ---------------------------------------------------------------------
  // The document

  /** One element of the parsed tree: its (possibly namespaced) tag, its
      attribute map and its text. */
  datatype Element = Element(tag: string, attrib: map<string, string>, text: string)

  /** `tag.split('}')[-1]`: the part of the tag after its last `}`, which is
      the whole tag when it has none. */
  function LocalName(tag: string): string
  {
    if tag == [] || tag[|tag| - 1] == '}' then []
    else LocalName(tag[..|tag| - 1]) + [tag[|tag| - 1]]
  }

  /** The local name is the longest suffix of the tag without a `}`: a
      suffix, free of `}`, and either the whole tag or preceded by a `}`. */
  lemma {:induction false} LocalNameIsLastSegment(tag: string)
    ensures var r := LocalName(tag);
      && |r| <= |tag| && r == tag[|tag| - |r|..]
      && (forall k :: 0 <= k < |r| ==> r[k] != '}')
      && (|r| < |tag| ==> tag[|tag| - |r| - 1] == '}')
  {
    if tag != [] && tag[|tag| - 1] != '}' {
      var init := tag[..|tag| - 1];
      LocalNameIsLastSegment(init);
      assert tag[|tag| - |LocalName(tag)|..] == tag[|init| - |LocalName(init)|..|init|] + [tag[|tag| - 1]];
    }
  }

  /** The elements `compress_svg_style` collects: a `path` (namespace
      ignored) that has a `style` attribute. */
  predicate IsStyledPath(e: Element)
  {
    LocalName(e.tag) == "path" && "style" in e.attrib
  }

  ghost predicate NoDuplicates<T>(s: seq<T>)
  {
    forall i, j :: 0 <= i < j < |s| ==> s[i] != s[j]
  }

  /** The `paths` list: the positions, in document order, of the styled
      paths (see `CollectedPaths`). */
  function PathIndices(doc: seq<Element>): seq<nat>
  {
    if doc == [] then []
    else
      var n := |doc| - 1;
      PathIndices(doc[..n]) + (if IsStyledPath(doc[n]) then [n] else [])
  }

  /** The `style` values of the collected paths, in document order: what
      the Counter counts. */
  function Styles(doc: seq<Element>): seq<string>
  {
    if doc == [] then []
    else
      var n := |doc| - 1;
      Styles(doc[..n]) + (if IsStyledPath(doc[n]) then [doc[n].attrib["style"]] else [])
  }

  /** `paths` holds the positions of exactly the styled paths, in
      increasing order. */
  lemma {:induction false} PathIndicesSpec(doc: seq<Element>)
    ensures forall k :: 0 <= k < |PathIndices(doc)| ==>
      PathIndices(doc)[k] < |doc| && IsStyledPath(doc[PathIndices(doc)[k]])
    ensures forall i :: 0 <= i < |doc| && IsStyledPath(doc[i]) ==> i in PathIndices(doc)
    ensures forall k, l :: 0 <= k < l < |PathIndices(doc)| ==> PathIndices(doc)[k] < PathIndices(doc)[l]
  {
    if doc != [] {
      var n := |doc| - 1;
      var prefix := doc[..n];
      PathIndicesSpec(prefix);
      var r', r := PathIndices(prefix), PathIndices(doc);
      assert r == r' + (if IsStyledPath(doc[n]) then [n] else []);
      forall k | 0 <= k < |r|
        ensures r[k] < |doc| && IsStyledPath(doc[r[k]])
      {
        if k < |r'| {
          assert r[k] == r'[k] && prefix[r'[k]] == doc[r'[k]];
        }
      }
      forall i | 0 <= i < |doc| && IsStyledPath(doc[i])
        ensures i in r
      {
        if i < n {
          assert prefix[i] == doc[i];
        }
      }
      forall k, l | 0 <= k < l < |r|
        ensures r[k] < r[l]
      {
        if l < |r'| {
          assert r[k] == r'[k] && r[l] == r'[l];
        } else {
          assert r[k] == r'[k];
        }
      }
    }
  }

  /** The collected styles are the `style` values of the collected paths,
      one per path, in the same order. */
  lemma {:induction false} StylesOfPaths(doc: seq<Element>)
    ensures var r := PathIndices(doc);
      && |Styles(doc)| == |r|
      && (forall k :: 0 <= k < |r| ==> r[k] < |doc| && IsStyledPath(doc[r[k]]) && Styles(doc)[k] == doc[r[k]].attrib["style"])
  {
    if doc != [] {
      var n := |doc| - 1;
      var prefix := doc[..n];
      StylesOfPaths(prefix);
      assert forall i :: 0 <= i < n ==> prefix[i] == doc[i];
    }
  }

  /** The distinct values of `s` in the order of their first occurrence:
      the key order of a dict filled from `s`. */
  function Distinct(s: seq<string>): (r: seq<string>)
    ensures forall v :: v in r <==> v in s
    ensures NoDuplicates(r)
  {
    if s == [] then []
    else
      var d := Distinct(s[..|s| - 1]);
      if s[|s| - 1] in d then d else d + [s[|s| - 1]]
  }

  /** `r` lists values of `s` by first occurrence: whenever `r[i]` comes
      before `r[j]`, `r[i]` already occurs in `s` before any occurrence of
      `r[j]`. */
  ghost predicate InFirstOccurrenceOrder(r: seq<string>, s: seq<string>)
  {
    forall i, j, q :: 0 <= i < j < |r| && 0 <= q < |s| && s[q] == r[j] ==> r[i] in s[..q]
  }

  // ---------------------------------------------------------------------
  // Choosing the styles that get a class

  /** `len(style) * (count - 1) > 40`: the characters saved by sharing the
      style outweigh the cost of a class. */
  predicate WorthAClass(style: string, count: int)
  {
    |style| * (count - 1) > 40
  }

  /** The styles of `order` that get a class, in `order`'s order. */
  function Selected(order: seq<string>, counter: multiset<string>): (r: seq<string>)
    ensures forall v :: v in r <==> v in order && WorthAClass(v, counter[v])
    ensures NoDuplicates(order) ==> NoDuplicates(r)
  {
    if order == [] then []
    else
      var n := |order| - 1;
      Selected(order[..n], counter) + (if WorthAClass(order[n], counter[order[n]]) then [order[n]] else [])
  }

  /** `f"s{class_idx}"`. */
  function ClassName(k: nat): string
  {
    "s" + NatToString(k)
  }

  /** `f".{class_name}{{{style}}}"`. */
  function ClassDef(k: nat, style: string): string
  {
    "." + ClassName(k) + "{" + style + "}"
  }

  /** The `class_defs` list for the selected styles `sel`. */
  function ClassDefs(sel: seq<string>): (r: seq<string>)
    ensures |r| == |sel|
    ensures forall k :: 0 <= k < |sel| ==> r[k] == ClassDef(k, sel[k])
  {
    seq(|sel|, k requires 0 <= k < |sel| => ClassDef(k, sel[k]))
  }

  /** Position of the first `v` in `s`. */
  function IndexOf(s: seq<string>, v: string): (k: nat)
    requires v in s
    ensures k < |s| && s[k] == v && v !in s[..k]
  {
    if s[0] == v then 0 else 1 + IndexOf(s[1..], v)
  }

  /** The `style_to_class` dict: the `k`-th selected style gets class
      `s<k>`. */
  function ClassMap(sel: seq<string>): (m: map<string, string>)
    ensures m.Keys == set v | v in sel
  {
    map v | v in sel :: ClassName(IndexOf(sel, v))
  }

  /** The styles that get a class when the collected styles are `styles`,
      in first-occurrence order. */
  function ClassesOf(styles: seq<string>): seq<string>
  {
    Selected(Distinct(styles), multiset(styles))
  }

  /** The styles of `doc` that get a class. */
  function StyleClasses(doc: seq<Element>): seq<string>
  {
    ClassesOf(Styles(doc))
  }

  // ---------------------------------------------------------------------
  // Rewriting the document

  /** What the replacement loop does to one element: a collected path whose
      style has a class loses `style` and gets `class`; every other element
      is left alone. */
  function Rewrite(e: Element, m: map<string, string>): Element
  {
    if IsStyledPath(e) && e.attrib["style"] in m
    then e.(attrib := (e.attrib - {"style"})["class" := m[e.attrib["style"]]])
    else e
  }

  /** The replacement loop's effect on the whole document. */
  function RewriteAll(doc: seq<Element>, m: map<string, string>): (r: seq<Element>)
    ensures |r| == |doc|
    ensures forall i :: 0 <= i < |doc| ==> r[i] == Rewrite(doc[i], m)
  {
    seq(|doc|, i requires 0 <= i < |doc| => Rewrite(doc[i], m))
  }

  /** The inserted `<style>` element: tag `style`, no attributes, and the
      class definitions one per indented line. */
  function StyleElement(classDefs: seq<string>): Element
  {
    Element("style", map[], "\n  " + JoinWith("\n  ", classDefs) + "\n")
  }

  /** The document `compress_svg_style` produces from `doc` (in document
      order, `doc[0]` being the root): every element rewritten, and the
      `<style>` element put first under the root when some class exists. */
  function Compressed(doc: seq<Element>): seq<Element>
    requires |doc| >= 1
  {
    var sel := StyleClasses(doc);
    var body := RewriteAll(doc, ClassMap(sel));
    if sel == [] then body else [body[0], StyleElement(ClassDefs(sel))] + body[1..]
  }

  /** The parsed tree of one SVG file, as `root.iter()` visits it: `nodes[0]`
      is the `<svg>` root and the rest follow in document order, so a new
      first child of the root sits at position 1. */
  class SvgTree {
    var nodes: seq<Element>

    ghost predicate Valid()
      reads this
    {
      |nodes| >= 1
    }

    constructor (root: Element, descendants: seq<Element>)
      ensures Valid() && nodes == [root] + descendants
    {
      nodes := [root] + descendants;
    }

    /** The counting loop: the Counter of the collected styles (`counter`
        holds the counts, `order` its keys in insertion order) and the
        `paths` list. */
    method CountStyles() returns (counter: multiset<string>, order: seq<string>, paths: seq<nat>)
      ensures counter == multiset(Styles(nodes))
      ensures order == Distinct(Styles(nodes))
      ensures paths == PathIndices(nodes)
      ensures |counter| == |paths|
    {
      var doc := nodes;
      counter, order, paths := multiset{}, [], [];
      for i := 0 to |doc|
        invariant counter == multiset(Styles(doc[..i]))
        invariant order == Distinct(Styles(doc[..i]))
        invariant paths == PathIndices(doc[..i])
      {
        ghost var pre := Styles(doc[..i]);
        PrefixStep(doc, i);
        var e := doc[i];
        var tag := LocalName(e.tag);
        if tag == "path" && "style" in e.attrib {
          var style := e.attrib["style"];
          DistinctAppend(pre, style);
          if style !in counter {
            order := order + [style];
          }
          counter := counter + multiset{style};
          paths := paths + [i];
        }
      }
      assert doc[..|doc|] == doc;
      StylesOfPaths(doc);
    }

    /** One pass of the replacement loop, on the collected path at `i`:
        `elem.attrib.pop('style')` and `elem.set('class', ...)` when its
        style has a class. */
    method RestyleElement(i: nat, styleToClass: map<string, string>)
      requires i < |nodes| && IsStyledPath(nodes[i])
      modifies this
      ensures nodes == old(nodes)[i := Rewrite(old(nodes)[i], styleToClass)]
    {
      var e := nodes[i];
      var style := e.attrib["style"];
      if style in styleToClass {
        nodes := nodes[i := e.(attrib := (e.attrib - {"style"})["class" := styleToClass[style]])];
      }
    }

    /** The replacement loop over `paths`: each collected path whose style
        has a class in `styleToClass` trades its `style` for that class. */
    method ReplaceStyles(paths: seq<nat>, styleToClass: map<string, string>)
      requires Valid() && paths == PathIndices(nodes)
      modifies this
      ensures Valid() && nodes == RewriteAll(old(nodes), styleToClass)
    {
      ghost var doc := nodes;
      for j := 0 to |paths|
        invariant RewrittenAt(doc, paths[..j], nodes, styleToClass)
      {
        RestyleStep(doc, paths, j, nodes, styleToClass);
        RestyleElement(paths[j], styleToClass);
      }
      assert paths[..|paths|] == paths;
      RestyledAll(doc, nodes, styleToClass);
    }

    /** `root.insert(0, style_elem)`, done only when there are class
        definitions. */
    method InsertStyle(classDefs: seq<string>)
      requires Valid()
      modifies this
      ensures Valid()
      ensures nodes == if classDefs == [] then old(nodes)
                       else [old(nodes)[0], StyleElement(classDefs)] + old(nodes)[1..]
    {
      if classDefs != [] {
        var styleElem := Element("style", map[], "\n  " + JoinWith("\n  ", classDefs) + "\n");
        nodes := [nodes[0], styleElem] + nodes[1..];
      }
    }

    /** `compress_svg_style` on the parsed tree (reading and writing the file
        aside): count, select, rename, insert. */
    method CompressSvgStyle()
      requires Valid()
      modifies this
      ensures Valid() && nodes == Compressed(old(nodes))
    {
      var counter, order, paths := CountStyles();
      var styleToClass, classDefs := SelectClasses(order, counter);
      ghost var sel := StyleClasses(nodes);
      assert |classDefs| == |sel|;
      ReplaceStyles(paths, styleToClass);
      InsertStyle(classDefs);
    }
  }

  /** The selection loop: each key of the Counter, in order, whose style is
      worth a class gets the next name `s0`, `s1`, ... in `style_to_class`
      and its definition appended to `class_defs`. (`order` holds a dict's
      keys, so it has no duplicates.) */
  method SelectClasses(order: seq<string>, counter: multiset<string>)
    returns (styleToClass: map<string, string>, classDefs: seq<string>)
    requires NoDuplicates(order)
    ensures classDefs == ClassDefs(Selected(order, counter))
    ensures styleToClass == ClassMap(Selected(order, counter))
  {
    styleToClass, classDefs := map[], [];
    var classIdx := 0;
    for j := 0 to |order|
      invariant classIdx == |Selected(order[..j], counter)|
      invariant classDefs == ClassDefs(Selected(order[..j], counter))
      invariant styleToClass == ClassMap(Selected(order[..j], counter))
    {
      ghost var sel := Selected(order[..j], counter);
      SelectedStep(order, counter, j);
      var style := order[j];
      var count: int := counter[style];
      if WorthAClass(style, count) {
        ClassMapAppend(sel, style);
        ClassDefsAppend(sel, style);
        var className := "s" + NatToString(classIdx);
        assert className == ClassName(|sel|);
        styleToClass := styleToClass[style := className];
        classDefs := classDefs + ["." + className + "{" + style + "}"];
        classIdx := classIdx + 1;
      }
    }
    assert order[..|order|] == order;
  }

  /** One pass of the selection loop: the next key is selected exactly when
      it is worth a class, and it was not selected before. */
  lemma SelectedStep(order: seq<string>, counter: multiset<string>, j: nat)
    requires NoDuplicates(order) && j < |order|
    ensures WorthAClass(order[j], counter[order[j]]) ==>
      && Selected(order[..j + 1], counter) == Selected(order[..j], counter) + [order[j]]
      && order[j] !in Selected(order[..j], counter)
    ensures !WorthAClass(order[j], counter[order[j]]) ==>
      Selected(order[..j + 1], counter) == Selected(order[..j], counter)
  {
    assert order[..j + 1][..j] == order[..j];
    assert order[j] !in order[..j];
  }

  /** Extending a document prefix by one element extends the collected
      styles and positions by that element's, if it is a styled path. */
  lemma PrefixStep(doc: seq<Element>, i: nat)
    requires i < |doc|
    ensures IsStyledPath(doc[i]) ==>
      && Styles(doc[..i + 1]) == Styles(doc[..i]) + [doc[i].attrib["style"]]
      && PathIndices(doc[..i + 1]) == PathIndices(doc[..i]) + [i]
    ensures !IsStyledPath(doc[i]) ==>
      Styles(doc[..i + 1]) == Styles(doc[..i]) && PathIndices(doc[..i + 1]) == PathIndices(doc[..i])
  {
    var cur := doc[..i + 1];
    assert cur[..i] == doc[..i];
  }

  /** `nodes` is `doc` with exactly the elements at the positions `done`
      rewritten. */
  ghost predicate RewrittenAt(doc: seq<Element>, done: seq<nat>, nodes: seq<Element>, m: map<string, string>)
  {
    |nodes| == |doc|
    && forall i :: 0 <= i < |doc| ==> nodes[i] == if i in done then Rewrite(doc[i], m) else doc[i]
  }

  /** One pass of the replacement loop: the next collected path is still
      as parsed, and rewriting it extends the rewritten positions by it. */
  lemma RestyleStep(doc: seq<Element>, paths: seq<nat>, j: nat, nodes: seq<Element>, m: map<string, string>)
    requires paths == PathIndices(doc) && j < |paths| && RewrittenAt(doc, paths[..j], nodes, m)
    ensures paths[j] < |nodes| && IsStyledPath(nodes[paths[j]])
    ensures RewrittenAt(doc, paths[..j + 1], nodes[paths[j] := Rewrite(nodes[paths[j]], m)], m)
  {
    PathIndicesSpec(doc);
    var i := paths[j];
    assert paths[..j + 1] == paths[..j] + [i];
    assert i !in paths[..j];
  }

  /** Once every collected path is rewritten, the whole document is. */
  lemma RestyledAll(doc: seq<Element>, nodes: seq<Element>, m: map<string, string>)
    requires RewrittenAt(doc, PathIndices(doc), nodes, m)
    ensures nodes == RewriteAll(doc, m)
  {
    PathIndicesSpec(doc);
  }

  lemma DistinctAppend(s: seq<string>, v: string)
    ensures Distinct(s + [v]) == if v in s then Distinct(s) else Distinct(s) + [v]
  {
    assert (s + [v])[..|s|] == s;
  }

  lemma ClassDefsAppend(sel: seq<string>, v: string)
    ensures ClassDefs(sel + [v]) == ClassDefs(sel) + [ClassDef(|sel|, v)]
  {
  }

  lemma ClassMapAppend(sel: seq<string>, v: string)
    requires v !in sel
    ensures ClassMap(sel + [v]) == ClassMap(sel)[v := ClassName(|sel|)]
  {
    var ext := sel + [v];
    forall w | w in sel
      ensures IndexOf(ext, w) == IndexOf(sel, w)
    {
      IndexOfPrefix(sel, [v], w);
    }
    IndexOfPrefix(sel, [v], v);
  }

  lemma {:induction false} IndexOfPrefix(a: seq<string>, b: seq<string>, w: string)
    requires w in a + b
    ensures w in a ==> IndexOf(a + b, w) == IndexOf(a, w)
    ensures w !in a ==> IndexOf(a + b, w) == |a| + IndexOf(b, w)
  {
    if a != [] && a[0] != w {
      assert (a + b)[1..] == a[1..] + b;
      IndexOfPrefix(a[1..], b, w);
    } else if a == [] {
      assert a + b == b;
    }
  }

  // ---------------------------------------------------------------------
  // What compress_svg_style promises

  /** A style gets a class exactly when it is the style of some collected
      path and `len(style) * (count - 1) > 40` for its count; a style used
      by one path only therefore never gets one. */
  lemma ClassIffWorthIt(styles: seq<string>, v: string)
    ensures v in ClassMap(ClassesOf(styles)) <==> v in styles && WorthAClass(v, multiset(styles)[v])
    ensures multiset(styles)[v] <= 1 ==> v !in ClassMap(ClassesOf(styles))
  {
    var sel := ClassesOf(styles);
    assert v in ClassMap(sel) <==> v in sel;
    assert v in sel <==> v in Distinct(styles) && WorthAClass(v, multiset(styles)[v]);
    var count: int := multiset(styles)[v];
    if count == 1 {
      assert |v| * (count - 1) == 0;
    }
  }

  /** Class names are `s0 .. s(k-1)` for the `k` selected styles: the `k`-th
      selected style gets `s<k>`, every name is one of these, and different
      styles get different names. */
  lemma ClassNamesConsecutive(sel: seq<string>)
    requires NoDuplicates(sel)
    ensures forall k :: 0 <= k < |sel| ==> ClassMap(sel)[sel[k]] == ClassName(k)
    ensures ClassMap(sel).Values == set k | 0 <= k < |sel| :: ClassName(k)
    ensures forall v, w :: v in ClassMap(sel) && w in ClassMap(sel) && v != w
              ==> ClassMap(sel)[v] != ClassMap(sel)[w]
  {
    var m := ClassMap(sel);
    forall k | 0 <= k < |sel|
      ensures m[sel[k]] == ClassName(k)
    {
      var idx := IndexOf(sel, sel[k]);
    }
    assert m.Values == set k | 0 <= k < |sel| :: ClassName(k) by {
      forall name | name in m.Values
        ensures name in set k | 0 <= k < |sel| :: ClassName(k)
      {
        var v :| v in m && m[v] == name;
        assert m[v] == ClassName(IndexOf(sel, v));
      }
      forall k | 0 <= k < |sel|
        ensures ClassName(k) in m.Values
      {
        assert m[sel[k]] == ClassName(k);
      }
    }
    forall v, w | v in m && w in m && v != w
      ensures m[v] != m[w]
    {
      var a, b := IndexOf(sel, v), IndexOf(sel, w);
      assert a != b;
      ClassNameInjective(a, b);
    }
  }

  /** Different indices give different class names. */
  lemma ClassNameInjective(a: nat, b: nat)
    requires a != b
    ensures ClassName(a) != ClassName(b)
  {
    NatToStringInjective(a, b);
    assert ClassName(a)[1..] == NatToString(a);
    assert ClassName(b)[1..] == NatToString(b);
  }

  /** The Counter's keys come in first-occurrence order. */
  lemma {:induction false} DistinctInFirstOccurrenceOrder(s: seq<string>)
    ensures InFirstOccurrenceOrder(Distinct(s), s)
  {
    if s != [] {
      var n := |s| - 1;
      var p := s[..n];
      var d := Distinct(p);
      DistinctInFirstOccurrenceOrder(p);
      var r := Distinct(s);
      forall i, j, q | 0 <= i < j < |r| && 0 <= q < |s| && s[q] == r[j]
        ensures r[i] in s[..q]
      {
        if q < n {
          assert s[q] == p[q];
          if j < |d| {
            assert r[j] == d[j] && r[i] == d[i];
            assert p[..q] == s[..q];
          } else {
            assert false;
          }
        } else {
          assert r[i] == d[i];
          assert p == s[..q];
        }
      }
    }
  }

  /** Keeping some of a sequence's values keeps their first-occurrence
      order. */
  lemma {:induction false} SelectedKeepsOrder(order: seq<string>, counter: multiset<string>, s: seq<string>)
    requires InFirstOccurrenceOrder(order, s)
    ensures InFirstOccurrenceOrder(Selected(order, counter), s)
  {
    if order != [] {
      var n := |order| - 1;
      var pre := order[..n];
      assert InFirstOccurrenceOrder(pre, s);
      SelectedKeepsOrder(pre, counter, s);
      var r', r := Selected(pre, counter), Selected(order, counter);
      forall i, j, q | 0 <= i < j < |r| && 0 <= q < |s| && s[q] == r[j]
        ensures r[i] in s[..q]
      {
        if j < |r'| {
          assert r[i] == r'[i] && r[j] == r'[j];
        } else {
          assert r[j] == order[n] && r[i] == r'[i];
          assert r'[i] in pre;
          var a :| 0 <= a < n && pre[a] == r'[i];
          assert order[a] == r[i];
        }
      }
    }
  }

  /** Classes are handed out in the order in which their styles first occur
      among the collected paths: `s0` to the earliest, and so on. */
  lemma ClassesInFirstOccurrenceOrder(doc: seq<Element>)
    ensures InFirstOccurrenceOrder(StyleClasses(doc), Styles(doc))
  {
    DistinctInFirstOccurrenceOrder(Styles(doc));
    SelectedKeepsOrder(Distinct(Styles(doc)), multiset(Styles(doc)), Styles(doc));
  }

  /** What rewriting does to one element: a collected path whose style has
      a class loses `style`, gets that class, and keeps every other
      attribute, its tag and its text; every other element is unchanged. */
  lemma RewriteEffect(e: Element, m: map<string, string>)
    ensures var r := Rewrite(e, m);
      if IsStyledPath(e) && e.attrib["style"] in m then
        && r.tag == e.tag && r.text == e.text
        && "style" !in r.attrib && "class" in r.attrib && r.attrib["class"] == m[e.attrib["style"]]
        && (forall a :: a != "style" && a != "class" ==> (a in r.attrib <==> a in e.attrib))
        && (forall a :: a in e.attrib && a != "style" && a != "class" ==> r.attrib[a] == e.attrib[a])
      else r == e
  {
  }

  /** The document after `compress_svg_style`: a `<style>` element holding
      the class definitions is inserted as the root's first child exactly
      when some class was defined, and otherwise the document keeps its
      length; every original element sits at its old position (one further
      on past the root when the `<style>` element was inserted), rewritten. */
  lemma CompressedShape(doc: seq<Element>)
    requires |doc| >= 1
    ensures var sel := StyleClasses(doc); var out := Compressed(doc);
      && |out| == (if sel == [] then |doc| else |doc| + 1)
      && (sel != [] ==> out[1] == StyleElement(ClassDefs(sel)))
      && out[0] == Rewrite(doc[0], ClassMap(sel))
      && (forall i :: 1 <= i < |doc| ==>
            out[if sel == [] then i else i + 1] == Rewrite(doc[i], ClassMap(sel)))
  {
    var sel := StyleClasses(doc);
    var body := RewriteAll(doc, ClassMap(sel));
    if sel != [] {
      var out := [body[0], StyleElement(ClassDefs(sel))] + body[1..];
      assert forall i :: 1 <= i < |doc| ==> out[i + 1] == body[i];
    }
  }

  // ---------------------------------------------------------------------
  // The ledger of compress_svg

  /** One file `os.walk` reports: the directory it was found in and its
      name. */
  datatype WalkEntry = WalkEntry(dir: string, name: string)

  /** A `compress_svg` run as far as the ledger sees it: the ledger, and the
      files that svgo compressed and that were handed to
      `compress_svg_style`, in order. */
  datatype Run = Run(ledger: map<string, real>, restyled: seq<string>)

  /** The skip rule: a file is left alone when the ledger knows it and it
      has not been modified since the recorded time. */
  predicate UpToDate(ledger: map<string, real>, path: string, mtime: real)
  {
    path in ledger && mtime <= ledger[path]
  }

  /** The time `compress_svg` records for every file it compresses: the
      run's start time `current_time`, whatever the file. */
  function AtTime(now: real): string -> real
  {
    p => now
  }

  /** The loop body of `compress_svg` for one walked file, recording
      `stamp(path)` for a file svgo compresses. The source records
      `AtTime(now)`; `FreshStampSkipsUnchanged` below shows the correction. */
  function Step(run: Run, entry: WalkEntry, mtime: string -> real,
                svgoSucceeds: string -> bool, stamp: string -> real): Run
  {
    var path := Join(entry.dir, entry.name);
    if EndsWith(entry.name, ".svg") && !UpToDate(run.ledger, path, mtime(path)) && svgoSucceeds(path)
    then Run(run.ledger[path := stamp(path)], run.restyled + [path])
    else run
  }

  /** The loop of `compress_svg` over the walked files, starting from the
      ledger `ledger`. */
  function RunLedger(ledger: map<string, real>, walk: seq<WalkEntry>, mtime: string -> real,
                     svgoSucceeds: string -> bool, stamp: string -> real): Run
  {
    if walk == [] then Run(ledger, [])
    else
      var n := |walk| - 1;
      Step(RunLedger(ledger, walk[..n], mtime, svgoSucceeds, stamp), walk[n], mtime, svgoSucceeds, stamp)
  }

  /** The ledger of src/utils/compress.py (`last_compress`), made an object
      of its own: path to the time of its last compression. */
  class CompressionLedger {
    var lastCompress: map<string, real>

    /** `last_compress = json.load(f)`: the ledger as it was loaded. */
    constructor (loaded: map<string, real>)
      ensures lastCompress == loaded
    {
      lastCompress := loaded;
    }

    /** `compress_svg`: `svgoInstalled` is what `check_svg_installed`
        reports, `walk` the files `os.walk` finds in order, `mtime` their
        modification times, `svgoSucceeds` whether svgo compresses a file
        without error, and `now` the time read at the start. Without svgo
        nothing happens; otherwise every `.svg` file not up to date that svgo
        compresses is stamped with `now` and then restyled. */
    method CompressSvg(svgoInstalled: bool, walk: seq<WalkEntry>, mtime: string -> real,
                       svgoSucceeds: string -> bool, now: real)
      returns (restyled: seq<string>)
      modifies this
      ensures !svgoInstalled ==> restyled == [] && lastCompress == old(lastCompress)
      ensures svgoInstalled ==>
        Run(lastCompress, restyled) == RunLedger(old(lastCompress), walk, mtime, svgoSucceeds, AtTime(now))
    {
      restyled := [];
      if !svgoInstalled {
        return;
      }
      ghost var start := lastCompress;
      for i := 0 to |walk|
        invariant Run(lastCompress, restyled) == RunLedger(start, walk[..i], mtime, svgoSucceeds, AtTime(now))
      {
        assert walk[..i + 1][..i] == walk[..i];
        var entry := walk[i];
        if EndsWith(entry.name, ".svg") {
          var svgFile := Join(entry.dir, entry.name);
          var skip := false;
          if svgFile in lastCompress {
            var lastModified := mtime(svgFile);
            skip := lastModified <= lastCompress[svgFile];
          }
          if !skip && svgoSucceeds(svgFile) {
            lastCompress := lastCompress[svgFile := now];
            restyled := restyled + [svgFile];
          }
        }
      }
      assert walk[..|walk|] == walk;
    }
  }

  /** The ledger after a run holds the old entries and the restyled files;
      a restyled file was a walked `.svg` file that svgo compressed and is
      stamped with `stamp`; every other old entry keeps its time. */
  lemma {:induction false} LedgerStamps(ledger: map<string, real>, walk: seq<WalkEntry>,
                                        mtime: string -> real, svgoSucceeds: string -> bool, stamp: string -> real)
    ensures var r := RunLedger(ledger, walk, mtime, svgoSucceeds, stamp);
      && (forall p :: p in r.ledger <==> p in ledger || p in r.restyled)
      && (forall p :: p in r.restyled ==>
            && p in r.ledger && r.ledger[p] == stamp(p) && svgoSucceeds(p)
            && exists e :: e in walk && EndsWith(e.name, ".svg") && Join(e.dir, e.name) == p)
      && (forall p :: p in ledger && p !in r.restyled ==> p in r.ledger && r.ledger[p] == ledger[p])
  {
    if walk != [] {
      var n := |walk| - 1;
      LedgerStamps(ledger, walk[..n], mtime, svgoSucceeds, stamp);
      var r' := RunLedger(ledger, walk[..n], mtime, svgoSucceeds, stamp);
      var r := RunLedger(ledger, walk, mtime, svgoSucceeds, stamp);
      assert forall e :: e in walk[..n] ==> e in walk;
      assert walk[n] in walk;
      if r != r' {
        var p := Join(walk[n].dir, walk[n].name);
        assert r.restyled == r'.restyled + [p];
        assert r.ledger == r'.ledger[p := stamp(p)];
      }
    }
  }

  /** A restyled file comes from a walked `.svg` entry. */
  lemma RestyledWasWalked(ledger: map<string, real>, walk: seq<WalkEntry>, mtime: string -> real,
                          svgoSucceeds: string -> bool, stamp: string -> real, p: string)
    returns (e: WalkEntry)
    requires p in RunLedger(ledger, walk, mtime, svgoSucceeds, stamp).restyled
    ensures e in walk && EndsWith(e.name, ".svg") && Join(e.dir, e.name) == p
  {
    LedgerStamps(ledger, walk, mtime, svgoSucceeds, stamp);
    e :| e in walk && EndsWith(e.name, ".svg") && Join(e.dir, e.name) == p;
  }

  /** A file that was not restyled has the same ledger entry, or none, as
      before the run. */
  lemma LedgerKeepsOthers(ledger: map<string, real>, walk: seq<WalkEntry>, mtime: string -> real,
                          svgoSucceeds: string -> bool, stamp: string -> real, p: string)
    requires p !in RunLedger(ledger, walk, mtime, svgoSucceeds, stamp).restyled
    ensures var l := RunLedger(ledger, walk, mtime, svgoSucceeds, stamp).ledger;
      (p in l <==> p in ledger) && (p in ledger ==> l[p] == ledger[p])
  {
    LedgerStamps(ledger, walk, mtime, svgoSucceeds, stamp);
  }

  /** One step restyles `p` when `p` was restyled before, or is the walked
      file itself, a `.svg` file not up to date that svgo compresses. */
  lemma StepRestyled(run: Run, entry: WalkEntry, mtime: string -> real,
                     svgoSucceeds: string -> bool, stamp: string -> real, p: string)
    ensures var path := Join(entry.dir, entry.name);
      p in Step(run, entry, mtime, svgoSucceeds, stamp).restyled <==>
        || p in run.restyled
        || (p == path && EndsWith(entry.name, ".svg") && !UpToDate(run.ledger, p, mtime(p)) && svgoSucceeds(p))
  {
  }

  /** The skip rule over a whole run: a walked `.svg` file that svgo can
      compress is compressed (and restyled) exactly when the ledger loaded at
      the start did not have it up to date. */
  lemma {:induction false} SkipRule(ledger: map<string, real>, walk: seq<WalkEntry>,
                                    mtime: string -> real, svgoSucceeds: string -> bool, stamp: string -> real,
                                    e: WalkEntry)
    requires e in walk && EndsWith(e.name, ".svg") && svgoSucceeds(Join(e.dir, e.name))
    ensures var p := Join(e.dir, e.name);
      p in RunLedger(ledger, walk, mtime, svgoSucceeds, stamp).restyled <==> !UpToDate(ledger, p, mtime(p))
  {
    var p := Join(e.dir, e.name);
    var n := |walk| - 1;
    var pre, last := walk[..n], walk[n];
    assert walk == pre + [last];
    var r' := RunLedger(ledger, pre, mtime, svgoSucceeds, stamp);
    StepRestyled(r', last, mtime, svgoSucceeds, stamp, p);
    if p in r'.restyled {
      var e' := RestyledWasWalked(ledger, pre, mtime, svgoSucceeds, stamp, p);
      SkipRule(ledger, pre, mtime, svgoSucceeds, stamp, e');
    } else {
      LedgerKeepsOthers(ledger, pre, mtime, svgoSucceeds, stamp, p);
      if e in pre {
        SkipRule(ledger, pre, mtime, svgoSucceeds, stamp, e);
      }
    }
  }

  /** Every file one as-written run restyles gets the same ledger time, the
      run's start time. */
  lemma SameStampPerRun(ledger: map<string, real>, walk: seq<WalkEntry>, mtime: string -> real,
                        svgoSucceeds: string -> bool, now: real)
    ensures forall p :: p in RunLedger(ledger, walk, mtime, svgoSucceeds, AtTime(now)).restyled ==>
      && p in RunLedger(ledger, walk, mtime, svgoSucceeds, AtTime(now)).ledger
      && RunLedger(ledger, walk, mtime, svgoSucceeds, AtTime(now)).ledger[p] == now
  {
    LedgerStamps(ledger, walk, mtime, svgoSucceeds, AtTime(now));
  }

  // ---------------------------------------------------------------------
  // The stamp is read before the file is rewritten

  /** As written, the stamp is the time `current_time` read before svgo and
      `compress_svg_style` rewrite the file, so the file's modification
      time ends up later than its stamp. The next run, over the same files,
      then finds it not up to date and compresses it again, although
      nothing touched it since. */
  lemma StampBeforeWriteRecompresses(ledger: map<string, real>, walk: seq<WalkEntry>,
                                     mtime: string -> real, svgoSucceeds: string -> bool, now: real,
                                     mtimeAfter: string -> real, nowAfter: real, e: WalkEntry)
    requires e in walk && EndsWith(e.name, ".svg")
    requires Join(e.dir, e.name) in RunLedger(ledger, walk, mtime, svgoSucceeds, AtTime(now)).restyled
    requires now < mtimeAfter(Join(e.dir, e.name))
    ensures var first := RunLedger(ledger, walk, mtime, svgoSucceeds, AtTime(now));
      Join(e.dir, e.name) in RunLedger(first.ledger, walk, mtimeAfter, svgoSucceeds, AtTime(nowAfter)).restyled
  {
    var p := Join(e.dir, e.name);
    var first := RunLedger(ledger, walk, mtime, svgoSucceeds, AtTime(now));
    LedgerStamps(ledger, walk, mtime, svgoSucceeds, AtTime(now));
    assert !UpToDate(first.ledger, p, mtimeAfter(p));
    SkipRule(first.ledger, walk, mtimeAfter, svgoSucceeds, AtTime(nowAfter), e);
  }

  /** A concrete run: `data/font/a.svg`, last modified at time 1 and not in
      the ledger, is compressed by a run starting at time 2 and rewritten at
      time 3; the next run compresses it again. */
  lemma RecompressExample()
    ensures var walk := [WalkEntry("data/font", "a.svg")];
      var first := RunLedger(map[], walk, AtTime(1.0), q => true, AtTime(2.0));
      && first.restyled == ["data/font/a.svg"]
      && first.ledger == map["data/font/a.svg" := 2.0]
      && RunLedger(first.ledger, walk, AtTime(3.0), q => true, AtTime(4.0)).restyled == ["data/font/a.svg"]
  {
    var e := WalkEntry("data/font", "a.svg");
    var walk := [e];
    assert walk[..0] == [];
    assert Join(e.dir, e.name) == "data/font/a.svg";
    assert EndsWith(e.name, ".svg") by {
      assert e.name[|e.name| - 4..] == ".svg";
    }
  }

  /** The correction records for a compressed file its modification time
      after this run rewrote it (`os.path.getmtime(svg_file)` once
      `compress_svg_style` returns), given as `written`. Then a file this
      run compressed and nothing touched since, so that it still has the
      modification time it was left with, is skipped by the next run. */
  lemma FreshStampSkipsUnchanged(ledger: map<string, real>, walk: seq<WalkEntry>,
                                 mtime: string -> real, svgoSucceeds: string -> bool, written: string -> real,
                                 mtimeAfter: string -> real, stampAfter: string -> real, e: WalkEntry)
    requires e in walk && EndsWith(e.name, ".svg")
    requires Join(e.dir, e.name) in RunLedger(ledger, walk, mtime, svgoSucceeds, written).restyled
    requires mtimeAfter(Join(e.dir, e.name)) == written(Join(e.dir, e.name))
    ensures var first := RunLedger(ledger, walk, mtime, svgoSucceeds, written);
      Join(e.dir, e.name) !in RunLedger(first.ledger, walk, mtimeAfter, svgoSucceeds, stampAfter).restyled
  {
    var p := Join(e.dir, e.name);
    var first := RunLedger(ledger, walk, mtime, svgoSucceeds, written);
    LedgerStamps(ledger, walk, mtime, svgoSucceeds, written);
    assert UpToDate(first.ledger, p, mtimeAfter(p));
    SkipRule(first.ledger, walk, mtimeAfter, svgoSucceeds, stampAfter, e);
  }
}
