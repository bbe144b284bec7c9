/**
 * RubyScape (rubyscape.rb): element lookup in an Inkscape SVG document and
 * in-place rewriting of element attributes. The parsed document is an
 * ordered sequence of elements in document order; each element keeps its
 * attributes (among them `id`, `inkscape:label` and `style`) in a map that
 * the mutating operations overwrite.
 */
module Scape {
  import opened Wrappers
  import opened StyleMerge

  const DISPLAY := "display"
  const INLINE := "inline"
  const NONE := "none"

  /** The value of an element: what `View` reads off an Element object. */
  datatype Node = Node(tag: string, svgGroup: bool, attrs: map<string, string>)

  /** The selectors the lookups use. */
  datatype Query =
    | AnyById(id: string)          // "[@id='id']"
    | PathById(id: string)         // "path[@id='id']"
    | TextById(id: string)         // "text[@id='id']"
    | LayerByLabel(layerLabel: string)  // an "svg/g" element with layer['inkscape:label'] == label

  /** `o[name]`: the attribute's value, or nil. */
  function Attribute(attrs: map<string, string>, name: string): Option<string>
  {
    if name in attrs then Some(attrs[name]) else None
  }

  predicate Matches(n: Node, q: Query)
  {
    match q
    case AnyById(id) => Attribute(n.attrs, "id") == Some(id)
    case PathById(id) => n.tag == "path" && Attribute(n.attrs, "id") == Some(id)
    case TextById(id) => n.tag == "text" && Attribute(n.attrs, "id") == Some(id)
    case LayerByLabel(layerLabel) => n.svgGroup && Attribute(n.attrs, "inkscape:label") == Some(layerLabel)
  }

  /** Index `k` holds the first node, in document order, that matches `q`. */
  predicate IsFirstMatch(ns: seq<Node>, q: Query, k: int)
  {
    0 <= k < |ns| && Matches(ns[k], q) && forall j :: 0 <= j < k ==> !Matches(ns[j], q)
  }

  predicate NoMatch(ns: seq<Node>, q: Query)
  {
    forall j :: 0 <= j < |ns| ==> !Matches(ns[j], q)
  }

  function FindFrom(ns: seq<Node>, q: Query, from: nat): (r: Option<nat>)
    requires from <= |ns|
    requires forall j :: 0 <= j < from ==> !Matches(ns[j], q)
    decreases |ns| - from
    ensures r.None? <==> NoMatch(ns, q)
    ensures r.Some? ==> IsFirstMatch(ns, q, r.value)
  {
    if from == |ns| then None
    else if Matches(ns[from], q) then Some(from)
    else FindFrom(ns, q, from + 1)
  }

  /** `doc.search(selector).first`: the first match in document order, if any. */
  function Find(ns: seq<Node>, q: Query): (r: Option<nat>)
    ensures r.None? <==> NoMatch(ns, q)
    ensures r.Some? ==> IsFirstMatch(ns, q, r.value)
  {
    FindFrom(ns, q, 0)
  }

  /** Two documents on which a query matches at the same places answer it alike. */
  lemma FindAgrees(ns: seq<Node>, ns': seq<Node>, q: Query)
    requires |ns| == |ns'|
    requires forall k :: 0 <= k < |ns| ==> (Matches(ns[k], q) <==> Matches(ns'[k], q))
    ensures Find(ns, q) == Find(ns', q)
  {
    var r, r' := Find(ns, q), Find(ns', q);
    if r.Some? && r'.Some? {
      assert !(r.value < r'.value) && !(r'.value < r.value);
    }
  }

  /** `after` differs from `before` at most in the style attributes of its nodes. */
  predicate RestyledOnly(before: seq<Node>, after: seq<Node>)
  {
    |before| == |after| &&
    forall k :: 0 <= k < |before| ==>
      after[k].tag == before[k].tag && after[k].svgGroup == before[k].svgGroup &&
      after[k].attrs - {"style"} == before[k].attrs - {"style"}
  }

  lemma RestyledOnlyTransitive(a: seq<Node>, b: seq<Node>, c: seq<Node>)
    requires RestyledOnly(a, b) && RestyledOnly(b, c)
    ensures RestyledOnly(a, c)
  {
  }

  /** No selector looks at the style, so restyling changes no lookup answer. */
  lemma RestyleKeepsLookups(before: seq<Node>, after: seq<Node>, q: Query)
    requires RestyledOnly(before, after)
    ensures Find(before, q) == Find(after, q)
  {
    forall k | 0 <= k < |before| ensures Matches(before[k], q) <==> Matches(after[k], q) {
      var m, m' := before[k].attrs, after[k].attrs;
      forall a | a != "style" ensures Attribute(m, a) == Attribute(m', a) {
        assert a in m <==> a in m - {"style"};
        assert a in m' <==> a in m' - {"style"};
        if a in m {
          assert m[a] == (m - {"style"})[a] == (m' - {"style"})[a] == m'[a];
        }
      }
    }
    FindAgrees(before, after, q);
  }

  /** An id lookup that lands on a path or a text is answered alike by the narrowed lookup. */
  lemma NarrowedLookupAgrees(ns: seq<Node>, id: string, k: nat)
    requires IsFirstMatch(ns, AnyById(id), k)
    ensures ns[k].tag == "path" ==> Find(ns, PathById(id)) == Some(k)
    ensures ns[k].tag == "text" ==> Find(ns, TextById(id)) == Some(k)
    ensures ns[k].tag != "path" ==> Find(ns, PathById(id)) != Some(k)
  {
    var p, t := Find(ns, PathById(id)), Find(ns, TextById(id));
    if ns[k].tag == "path" {
      assert Matches(ns[k], PathById(id));
      assert p.Some? && !(p.value < k) && !(k < p.value);
    }
    if ns[k].tag == "text" {
      assert Matches(ns[k], TextById(id));
      assert t.Some? && !(t.value < k) && !(k < t.value);
    }
  }

  /** `o[attribute] = value` on the node at index k. */
  function SetAttributeAt(ns: seq<Node>, k: nat, attribute: string, value: string): seq<Node>
    requires k < |ns|
  {
    ns[k := ns[k].(attrs := ns[k].attrs[attribute := value])]
  }

  /** set_attribute on a document value: the first element with this id gets the whole attribute value replaced. */
  function SetAttributeIn(ns: seq<Node>, id: string, attribute: string, value: string): (r: seq<Node>)
    ensures |r| == |ns|
    ensures NoMatch(ns, AnyById(id)) ==> r == ns
    ensures forall k :: IsFirstMatch(ns, AnyById(id), k) ==>
      r[k] == ns[k].(attrs := ns[k].attrs[attribute := value]) &&
      forall j :: 0 <= j < |ns| && j != k ==> r[j] == ns[j]
  {
    match Find(ns, AnyById(id))
    case None => ns
    case Some(k) =>
      assert forall k' :: IsFirstMatch(ns, AnyById(id), k') ==> k' == k;
      SetAttributeAt(ns, k, attribute, value)
  }

  /** set_attribute_property on a document value: the first element with this id gets the merged attribute. */
  function SetAttributePropertyIn(ns: seq<Node>, id: string, attribute: string, property: string, value: string): (r: seq<Node>)
    ensures |r| == |ns|
    ensures NoMatch(ns, AnyById(id)) ==> r == ns
    ensures forall k :: IsFirstMatch(ns, AnyById(id), k) ==>
      r[k] == ns[k].(attrs := ns[k].attrs[attribute := Merge(Attribute(ns[k].attrs, attribute), property, value)]) &&
      forall j :: 0 <= j < |ns| && j != k ==> r[j] == ns[j]
  {
    match Find(ns, AnyById(id))
    case None => ns
    case Some(k) =>
      assert forall k' :: IsFirstMatch(ns, AnyById(id), k') ==> k' == k;
      SetAttributeAt(ns, k, attribute, Merge(Attribute(ns[k].attrs, attribute), property, value))
  }

  /**
   * Of two set_attribute_property calls for the same property, the second
   * decides the document: show followed by hide is hide. The attribute is
   * not `id`, whose rewriting would move the lookup.
   */
  lemma SetAttributePropertyLastWins(ns: seq<Node>, id: string, attribute: string, property: string, first: string, second: string)
    requires attribute != "id"
    requires (';' !in property || ':' !in property) && '\n' !in first
    requires forall k :: IsFirstMatch(ns, AnyById(id), k) && attribute in ns[k].attrs ==> '\n' !in ns[k].attrs[attribute]
    ensures SetAttributePropertyIn(SetAttributePropertyIn(ns, id, attribute, property, first), id, attribute, property, second)
         == SetAttributePropertyIn(ns, id, attribute, property, second)
  {
    var once := SetAttributePropertyIn(ns, id, attribute, property, first);
    var q := AnyById(id);
    forall k | 0 <= k < |ns| ensures Matches(ns[k], q) <==> Matches(once[k], q) {
      assert Attribute(once[k].attrs, "id") == Attribute(ns[k].attrs, "id");
    }
    FindAgrees(ns, once, q);
    match Find(ns, q)
    case None =>
    case Some(k) =>
      var cur := Attribute(ns[k].attrs, attribute);
      MergeLastWins(cur, property, first, second);
      var m, v1, v2 := ns[k].attrs, Merge(cur, property, first), Merge(cur, property, second);
      assert IsFirstMatch(once, q, k);
      assert once[k].attrs == m[attribute := v1];
      assert Attribute(once[k].attrs, attribute) == Some(v1);
      var twice := SetAttributePropertyIn(once, id, attribute, property, second);
      var direct := SetAttributePropertyIn(ns, id, attribute, property, second);
      assert twice[k].attrs == m[attribute := v1][attribute := v2];
      assert m[attribute := v1][attribute := v2] == m[attribute := v2];
      assert twice[k] == direct[k];
      assert forall j :: 0 <= j < |ns| && j != k ==> twice[j] == direct[j];
  }

  /** An element of the document; its attribute map is updated in place. */
  class Element {
    const tag: string
    const svgGroup: bool  // selected by the "svg/g" path: a group directly inside an svg element
    var attrs: map<string, string>

    constructor (tag: string, svgGroup: bool, attrs: map<string, string>)
      ensures this.tag == tag && this.svgGroup == svgGroup && this.attrs == attrs
    {
      this.tag := tag;
      this.svgGroup := svgGroup;
      this.attrs := attrs;
    }

    function View(): Node
      reads this
    {
      Node(tag, svgGroup, attrs)
    }
  }

  /** A parsed SVG document (RubyScape's `doc`). */
  class RubyScape {
    const doc: seq<Element>

    /** The parser yields each element once. */
    ghost predicate Valid()
    {
      forall i, j :: 0 <= i < j < |doc| ==> doc[i] != doc[j]
    }

    /** Parsing is not modelled: the document arrives as its elements in document order. */
    constructor (elements: seq<Element>)
      requires forall i, j :: 0 <= i < j < |elements| ==> elements[i] != elements[j]
      ensures Valid() && doc == elements
    {
      doc := elements;
    }

    /** The document as a value. */
    function View(): (ns: seq<Node>)
      reads doc
      ensures |ns| == |doc|
      ensures forall k :: 0 <= k < |doc| ==> ns[k] == doc[k].View()
    {
      seq(|doc|, k reads doc requires 0 <= k < |doc| => doc[k].View())
    }

    /** The element a selector finds first, or nil. */
    function Lookup(q: Query): (r: Option<Element>)
      reads doc
      ensures r.None? <==> NoMatch(View(), q)
      ensures r.Some? ==> r.value in doc
      ensures r.Some? ==> exists k :: IsFirstMatch(View(), q, k) && doc[k] == r.value
    {
      match Find(View(), q)
      case None => None
      case Some(k) => Some(doc[k])
    }

    /** getLayer: an each loop over the "svg/g" elements with an early return. */
    method GetLayer(layerLabel: string) returns (r: Option<Element>)
      ensures r == Lookup(LayerByLabel(layerLabel))
    {
      var i := 0;
      while i < |doc|
        invariant 0 <= i <= |doc|
        invariant forall j :: 0 <= j < i ==> !Matches(doc[j].View(), LayerByLabel(layerLabel))
      {
        var layer := doc[i];
        if layer.svgGroup && "inkscape:label" in layer.attrs && layer.attrs["inkscape:label"] == layerLabel {
          assert IsFirstMatch(View(), LayerByLabel(layerLabel), i);
          return Some(layer);
        }
        i := i + 1;
      }
      return None;
    }

    /** getObject: the first element of any kind with this id. */
    function GetObject(id: string): (r: Option<Element>)
      reads doc
      ensures r.None? <==> NoMatch(View(), AnyById(id))
      ensures r.Some? ==> Attribute(r.value.attrs, "id") == Some(id)
      ensures r.Some? ==> exists k :: IsFirstMatch(View(), AnyById(id), k) && doc[k] == r.value
    {
      Lookup(AnyById(id))
    }

    /** getPath: the first path element with this id. */
    function GetPath(id: string): (r: Option<Element>)
      reads doc
      ensures r.None? <==> NoMatch(View(), PathById(id))
      ensures r.Some? ==> r.value.tag == "path" && Attribute(r.value.attrs, "id") == Some(id)
      ensures r.Some? ==> exists k :: IsFirstMatch(View(), PathById(id), k) && doc[k] == r.value
    {
      Lookup(PathById(id))
    }

    /** getText: the first text element with this id. */
    function GetText(id: string): (r: Option<Element>)
      reads doc
      ensures r.None? <==> NoMatch(View(), TextById(id))
      ensures r.Some? ==> r.value.tag == "text" && Attribute(r.value.attrs, "id") == Some(id)
      ensures r.Some? ==> exists k :: IsFirstMatch(View(), TextById(id), k) && doc[k] == r.value
    {
      Lookup(TextById(id))
    }

    /** showLayer: overwrites the whole style, other pairs are discarded. */
    method ShowLayer(layer: Element)
      modifies layer
      ensures layer.attrs == old(layer.attrs)["style" := "display:inline;"]
      ensures RestyledOnly(old(View()), View())
    {
      assert Setting(DISPLAY, INLINE) == "display:inline;";
      ghost var m := layer.attrs;
      layer.attrs := layer.attrs["style" := Setting(DISPLAY, INLINE)];
      assert m["style" := "display:inline;"] - {"style"} == m - {"style"};
    }

    /** hideLayer: overwrites the whole style, other pairs are discarded. */
    method HideLayer(layer: Element)
      modifies layer
      ensures layer.attrs == old(layer.attrs)["style" := "display:none;"]
      ensures RestyledOnly(old(View()), View())
    {
      assert Setting(DISPLAY, NONE) == "display:none;";
      ghost var m := layer.attrs;
      layer.attrs := layer.attrs["style" := Setting(DISPLAY, NONE)];
      assert m["style" := "display:none;"] - {"style"} == m - {"style"};
    }

    method SetAttributeProperty(id: string, attribute: string, property: string, value: string)
      requires Valid()
      modifies doc
      ensures View() == SetAttributePropertyIn(old(View()), id, attribute, property, value)
    {
      ghost var before := View();
      var o := GetObject(id);
      if o.Some? {
        var e := o.value;
        ghost var k :| IsFirstMatch(before, AnyById(id), k) && doc[k] == e;
        e.attrs := e.attrs[attribute := Merge(Attribute(e.attrs, attribute), property, value)];
        assert forall j :: 0 <= j < |doc| && j != k ==> doc[j] != e;
      }
      // a miss is reported on the console and changes nothing
    }

    method SetAttribute(id: string, attribute: string, value: string)
      requires Valid()
      modifies doc
      ensures View() == SetAttributeIn(old(View()), id, attribute, value)
    {
      ghost var before := View();
      var o := GetObject(id);
      if o.Some? {
        var e := o.value;
        ghost var k :| IsFirstMatch(before, AnyById(id), k) && doc[k] == e;
        e.attrs := e.attrs[attribute := value];
        assert forall j :: 0 <= j < |doc| && j != k ==> doc[j] != e;
      }
    }

    /** show: merges display:inline into the style of the element with this id. */
    method Show(id: string)
      requires Valid()
      modifies doc
      ensures View() == SetAttributePropertyIn(old(View()), id, "style", DISPLAY, INLINE)
    {
      SetAttributeProperty(id, "style", DISPLAY, INLINE);
    }

    /** hide: merges display:none into the style of the element with this id. */
    method Hide(id: string)
      requires Valid()
      modifies doc
      ensures View() == SetAttributePropertyIn(old(View()), id, "style", DISPLAY, NONE)
    {
      SetAttributeProperty(id, "style", DISPLAY, NONE);
    }

    /** set_style_prop: merges property:value into the style of the element with this id. */
    method SetStyleProp(id: string, property: string, value: string)
      requires Valid()
      modifies doc
      ensures View() == SetAttributePropertyIn(old(View()), id, "style", property, value)
    {
      SetAttributeProperty(id, "style", property, value);
    }
  }
}
