/**
 The meta-tag analyzer: every `<meta>` element, in document order, becomes a
 {name, content} record, where name is `name || property || charset` under
 JavaScript truthiness; records whose name is null or empty are then dropped.
 */
module MetaTags {
  import opened Nullable

  /** The attributes of one `<meta>` element; None is an absent attribute. */
  datatype MetaElement = MetaElement(name: Option<string>, property: Option<string>,
                                     charset: Option<string>, content: Option<string>)

  /** The record built for one element. */
  datatype MetaEntry = MetaEntry(name: Option<string>, content: Option<string>)

  /** JavaScript truthiness of a string or null: null and "" are falsy. */
  predicate Truthy(v: Option<string>)
  {
    v.Some? && v.value != ""
  }

  /** JavaScript `a || b` on strings or null. */
  function Or(a: Option<string>, b: Option<string>): (r: Option<string>)
    ensures r == a || r == b
    ensures Truthy(r) <==> Truthy(a) || Truthy(b)
  {
    if Truthy(a) then a else b
  }

  /** The `map` callback: resolve the name, copy the content. */
  function ToEntry(m: MetaElement): (r: MetaEntry)
    ensures r.content == m.content
    ensures Truthy(r.name) <==> Truthy(m.name) || Truthy(m.property) || Truthy(m.charset)
  {
    MetaEntry(Or(Or(m.name, m.property), m.charset), m.content)
  }

  /** The `map` over all elements. */
  function Entries(metas: seq<MetaElement>): (r: seq<MetaEntry>)
    ensures |r| == |metas|
    ensures forall i :: 0 <= i < |r| ==> r[i].content == metas[i].content
  {
    seq(|metas|, i requires 0 <= i < |metas| => ToEntry(metas[i]))
  }

  /** The `filter((meta) => meta.name)`. */
  function NamedOnly(entries: seq<MetaEntry>): (r: seq<MetaEntry>)
    ensures |r| <= |entries|
    ensures forall e :: e in r ==> e in entries && Truthy(e.name)
  {
    if entries == [] then []
    else (if Truthy(entries[0].name) then [entries[0]] else []) + NamedOnly(entries[1..])
  }

  /** The analyzer's result for the `<meta>` elements of a document. */
  function ExtractMetaTags(metas: seq<MetaElement>): (r: seq<MetaEntry>)
    ensures |r| <= |metas|
    ensures forall e :: e in r ==> Truthy(e.name) && exists i :: 0 <= i < |metas| && e == ToEntry(metas[i])
  {
    var es := Entries(metas);
    assert forall i :: 0 <= i < |metas| ==> es[i] == ToEntry(metas[i]);
    NamedOnly(es)
  }

  // ---------------------------------------------------------------------------
  // Reference definitions
  // ---------------------------------------------------------------------------

  /** The first candidate that is present and non-empty, if any. */
  function FirstNonEmpty(cs: seq<Option<string>>): (r: Option<string>)
    ensures r.Some? <==> exists i :: 0 <= i < |cs| && Truthy(cs[i])
    ensures r.Some? ==> exists i :: 0 <= i < |cs| && cs[i] == r && Truthy(r) &&
                                    forall j :: 0 <= j < i ==> !Truthy(cs[j])
  {
    if cs == [] then None
    else if Truthy(cs[0]) then cs[0]
    else
      var r := FirstNonEmpty(cs[1..]);
      assert forall i :: 0 < i < |cs| ==> cs[i] == cs[1..][i - 1];
      r
  }

  /** The positions of the elements whose resolved name is truthy, in ascending order. */
  function Kept(metas: seq<MetaElement>): (ks: seq<nat>)
    ensures forall k :: 0 <= k < |ks| ==> ks[k] < |metas|
    ensures forall a, b :: 0 <= a < b < |ks| ==> ks[a] < ks[b]
    ensures forall i :: 0 <= i < |metas| ==> (i in ks <==> Truthy(ToEntry(metas[i]).name))
  {
    if metas == [] then []
    else
      var init := metas[..|metas| - 1];
      var ks := Kept(init);
      assert forall i :: 0 <= i < |init| ==> init[i] == metas[i];
      ks + if Truthy(ToEntry(metas[|metas| - 1]).name) then [|metas| - 1] else []
  }

  // ---------------------------------------------------------------------------
  // What the analyzer promises
  // ---------------------------------------------------------------------------

  /**
   The resolved name is the first of name, property, charset that is present and
   non-empty (so an empty name falls through); when none is, it is the charset
   attribute as given, null or empty. The content is copied unchanged.
   */
  lemma NamePriority(m: MetaElement)
    ensures Truthy(ToEntry(m).name) <==> FirstNonEmpty([m.name, m.property, m.charset]).Some?
    ensures Truthy(ToEntry(m).name) ==> ToEntry(m).name == FirstNonEmpty([m.name, m.property, m.charset])
    ensures !Truthy(ToEntry(m).name) ==> ToEntry(m).name == m.charset
    ensures ToEntry(m).content == m.content
  {
    var cs := [m.name, m.property, m.charset];
    assert cs[1..] == [m.property, m.charset];
    assert cs[1..][1..] == [m.charset];
    assert cs[1..][1..][1..] == [];
    if Truthy(m.name) {
      assert Truthy(cs[0]);
    } else if Truthy(m.property) {
      assert Truthy(cs[1..][0]);
    } else if Truthy(m.charset) {
      assert Truthy(cs[1..][1..][0]);
    }
  }

  /** The filter keeps relative order: it distributes over concatenation. */
  lemma {:induction false} NamedOnlyConcat(a: seq<MetaEntry>, b: seq<MetaEntry>)
    ensures NamedOnly(a + b) == NamedOnly(a) + NamedOnly(b)
  {
    if a != [] {
      assert (a + b)[1..] == a[1..] + b;
      NamedOnlyConcat(a[1..], b);
    } else {
      assert a + b == b;
    }
  }

  /**
   The result is the records of exactly the elements whose resolved name is
   truthy, in document order, with nothing merged: record k is built from the
   k-th kept element.
   */
  lemma {:induction false} ExtractKeepsNamedInOrder(metas: seq<MetaElement>)
    ensures |ExtractMetaTags(metas)| == |Kept(metas)|
    ensures forall k :: 0 <= k < |Kept(metas)| ==> ExtractMetaTags(metas)[k] == ToEntry(metas[Kept(metas)[k]])
  {
    if metas != [] {
      var init, m := metas[..|metas| - 1], metas[|metas| - 1];
      ExtractKeepsNamedInOrder(init);
      assert Entries(metas) == Entries(init) + [ToEntry(m)];
      NamedOnlyConcat(Entries(init), [ToEntry(m)]);
      assert [ToEntry(m)][1..] == [];
      forall k | 0 <= k < |Kept(init)| ensures metas[Kept(init)[k]] == init[Kept(init)[k]] { }
    }
  }

  /** The filter returns its input exactly when every entry has a truthy name. */
  lemma {:induction false} NamedOnlyKeepsAll(entries: seq<MetaEntry>)
    ensures NamedOnly(entries) == entries <==> forall k :: 0 <= k < |entries| ==> Truthy(entries[k].name)
  {
    if entries != [] {
      NamedOnlyKeepsAll(entries[1..]);
      if Truthy(entries[0].name) {
        assert entries == [entries[0]] + entries[1..];
        assert forall k :: 0 < k < |entries| ==> entries[k] == entries[1..][k - 1];
      }
    }
  }

  /** Nothing is dropped exactly when every element resolves to a truthy name. */
  lemma AllNamedKeepsAll(metas: seq<MetaElement>)
    ensures ExtractMetaTags(metas) == Entries(metas) <==> forall i :: 0 <= i < |metas| ==> Truthy(ToEntry(metas[i]).name)
  {
    NamedOnlyKeepsAll(Entries(metas));
    assert forall i :: 0 <= i < |metas| ==> Entries(metas)[i] == ToEntry(metas[i]);
  }

  /**
   An example: `<meta name="description" content="x">`, `<meta property="og:title" content="y">`
   and a bare `<meta>` give two records; the bare one is dropped.
   */
  lemma MetaExample()
    ensures ExtractMetaTags([MetaElement(Some("description"), None, None, Some("x")),
                             MetaElement(None, Some("og:title"), None, Some("y")),
                             MetaElement(None, None, None, None)]) ==
            [MetaEntry(Some("description"), Some("x")), MetaEntry(Some("og:title"), Some("y"))]
  {
  }
}
