/**
 The heading-tag checker: the headings matched by `h1, h2, h3, h4, h5, h6`, in
 document order, are folded into one group per tag name. The first heading of a
 tag appends a new group with count 1; every later one increments that group's
 count and pushes its inner HTML.
 */
module Headings {
  import opened Nullable

  /** One matched element: its upper-case tag name as the DOM reports it and its inner markup. */
  datatype Heading = Heading(tagName: string, innerHTML: string)

  /** One entry of the grouped result. */
  datatype HeadingGroup = HeadingGroup(tagName: string, count: nat, innerHTML: seq<string>)

  /** Some heading of hs carries tag t. */
  predicate Appears(hs: seq<Heading>, t: string)
  {
    exists i :: 0 <= i < |hs| && hs[i].tagName == t
  }

  /** The position of the first heading that carries tag t. */
  function FirstIndex(hs: seq<Heading>, t: string): (r: nat)
    requires Appears(hs, t)
    ensures r < |hs| && hs[r].tagName == t
    ensures forall j :: 0 <= j < r ==> hs[j].tagName != t
  {
    var init := hs[..|hs| - 1];
    if Appears(init, t) then
      FirstIndex(init, t)
    else
      assert forall i :: 0 <= i < |init| ==> init[i] == hs[i];
      |hs| - 1
  }

  /** The distinct tag names of hs, each where it is first seen. */
  function Tags(hs: seq<Heading>): seq<string>
  {
    if hs == [] then []
    else
      var prev := Tags(hs[..|hs| - 1]);
      var t := hs[|hs| - 1].tagName;
      if t in prev then prev else prev + [t]
  }

  /** The inner HTML of the headings of hs that carry tag t, in document order. */
  function HtmlOf(hs: seq<Heading>, t: string): seq<string>
  {
    if hs == [] then []
    else
      var last := hs[|hs| - 1];
      HtmlOf(hs[..|hs| - 1], t) + if last.tagName == t then [last.innerHTML] else []
  }

  /** What the endpoint promises: a group per distinct tag, in first-seen order, counting and listing that tag's headings. */
  function Grouped(hs: seq<Heading>): seq<HeadingGroup>
  {
    var tags := Tags(hs);
    seq(|tags|, i requires 0 <= i < |tags| => HeadingGroup(tags[i], |HtmlOf(hs, tags[i])|, HtmlOf(hs, tags[i])))
  }

  /** The sum of the counts of gs. */
  function TotalCount(gs: seq<HeadingGroup>): nat
  {
    if gs == [] then 0 else TotalCount(gs[..|gs| - 1]) + gs[|gs| - 1].count
  }

  /** `acc.find((h) => h.tagName === tagName)`: the first group with tag t, as an index into groups. */
  function FindGroup(groups: seq<HeadingGroup>, t: string): (r: Option<nat>)
    ensures r.Some? ==> r.value < |groups| && groups[r.value].tagName == t
    ensures r.Some? ==> forall j :: 0 <= j < r.value ==> groups[j].tagName != t
    ensures r.None? <==> forall j :: 0 <= j < |groups| ==> groups[j].tagName != t
  {
    if groups == [] then None
    else if groups[0].tagName == t then Some(0)
    else
      match FindGroup(groups[1..], t)
      case None => None
      case Some(k) => Some(k + 1)
  }

  /** The `reduce` over the matched headings, with the accumulator updated in place. */
  method GroupHeadings(headings: seq<Heading>) returns (groups: seq<HeadingGroup>)
    ensures groups == Grouped(headings)
  {
    groups := [];
    for i := 0 to |headings|
      invariant groups == Grouped(headings[..i])
    {
      var heading := headings[i];
      assert headings[..i + 1] == headings[..i] + [heading];
      match FindGroup(groups, heading.tagName)
      case Some(k) =>
        SeenTagStep(headings[..i], heading, k);
        groups := groups[k := groups[k].(count := groups[k].count + 1,
                                         innerHTML := groups[k].innerHTML + [heading.innerHTML])];
      case None =>
        NewTagStep(headings[..i], heading);
        groups := groups + [HeadingGroup(heading.tagName, 1, [heading.innerHTML])];
    }
    assert headings[..|headings|] == headings;
  }

  // ---------------------------------------------------------------------------
  // Facts about the definitions, one heading at a time
  // ---------------------------------------------------------------------------

  lemma {:induction false} TagsAppear(hs: seq<Heading>)
    ensures forall t :: t in Tags(hs) <==> Appears(hs, t)
  {
    if hs != [] {
      var init := hs[..|hs| - 1];
      TagsAppear(init);
      forall t ensures Appears(hs, t) <==> Appears(init, t) || hs[|hs| - 1].tagName == t {
        if Appears(hs, t) && hs[|hs| - 1].tagName != t {
          var i :| 0 <= i < |hs| && hs[i].tagName == t;
          assert init[i] == hs[i];
        }
        if Appears(init, t) {
          var i :| 0 <= i < |init| && init[i].tagName == t;
          assert init[i] == hs[i];
        }
      }
    }
  }

  lemma {:induction false} TagsDistinct(hs: seq<Heading>)
    ensures forall i, j :: 0 <= i < j < |Tags(hs)| ==> Tags(hs)[i] != Tags(hs)[j]
  {
    if hs != [] {
      TagsDistinct(hs[..|hs| - 1]);
    }
  }

  /** HtmlOf of a one-heading extension. */
  lemma HtmlOfSnoc(hs: seq<Heading>, h: Heading, t: string)
    ensures HtmlOf(hs + [h], t) == HtmlOf(hs, t) + if h.tagName == t then [h.innerHTML] else []
  {
  }

  /** A heading whose tag already has a group only extends that group. */
  lemma SeenTagStep(hs: seq<Heading>, h: Heading, k: nat)
    requires k < |Grouped(hs)| && Grouped(hs)[k].tagName == h.tagName
    ensures Tags(hs + [h]) == Tags(hs)
    ensures Grouped(hs + [h]) == Grouped(hs)[k := HeadingGroup(h.tagName, Grouped(hs)[k].count + 1,
                                                               Grouped(hs)[k].innerHTML + [h.innerHTML])]
  {
    assert (hs + [h])[..|hs|] == hs;
    TagsDistinct(hs);
    var tags := Tags(hs);
    assert h.tagName == tags[k];
    var before, after := Grouped(hs), Grouped(hs + [h]);
    var expected := before[k := HeadingGroup(h.tagName, before[k].count + 1, before[k].innerHTML + [h.innerHTML])];
    forall i | 0 <= i < |tags| ensures after[i] == expected[i] {
      HtmlOfSnoc(hs, h, tags[i]);
      if i != k {
        assert tags[i] != tags[k];
      }
    }
  }

  /** A heading whose tag has no group yet appends a new group of count 1. */
  lemma NewTagStep(hs: seq<Heading>, h: Heading)
    requires forall j :: 0 <= j < |Grouped(hs)| ==> Grouped(hs)[j].tagName != h.tagName
    ensures Tags(hs + [h]) == Tags(hs) + [h.tagName]
    ensures Grouped(hs + [h]) == Grouped(hs) + [HeadingGroup(h.tagName, 1, [h.innerHTML])]
  {
    assert (hs + [h])[..|hs|] == hs;
    var tags := Tags(hs);
    forall j | 0 <= j < |tags| ensures tags[j] != h.tagName {
      assert Grouped(hs)[j].tagName == tags[j];
    }
    TagsAppear(hs);
    HtmlOfAbsent(hs, h.tagName);
    var before, after := Grouped(hs), Grouped(hs + [h]);
    forall i | 0 <= i < |after| ensures after[i] == (before + [HeadingGroup(h.tagName, 1, [h.innerHTML])])[i] {
      HtmlOfSnoc(hs, h, (tags + [h.tagName])[i]);
    }
  }

  lemma {:induction false} HtmlOfAbsent(hs: seq<Heading>, t: string)
    requires !Appears(hs, t)
    ensures HtmlOf(hs, t) == []
  {
    if hs != [] {
      HtmlOfAbsent(hs[..|hs| - 1], t);
    }
  }

  // ---------------------------------------------------------------------------
  // What the grouped result promises
  // ---------------------------------------------------------------------------

  /** Exactly one group per distinct tag name of the input, and none for an empty input. */
  lemma GroupPerDistinctTag(hs: seq<Heading>)
    ensures forall i, j :: 0 <= i < j < |Grouped(hs)| ==> Grouped(hs)[i].tagName != Grouped(hs)[j].tagName
    ensures forall t :: Appears(hs, t) <==> exists i :: 0 <= i < |Grouped(hs)| && Grouped(hs)[i].tagName == t
    ensures Grouped(hs) == [] <==> hs == []
  {
    TagsDistinct(hs);
    TagsAppear(hs);
    var tags := Tags(hs);
    forall t ensures t in tags <==> exists i :: 0 <= i < |Grouped(hs)| && Grouped(hs)[i].tagName == t {
      if t in tags {
        var i :| 0 <= i < |tags| && tags[i] == t;
        assert Grouped(hs)[i].tagName == t;
      }
    }
    if hs != [] {
      assert Appears(hs, hs[0].tagName);
    }
  }

  /** Groups appear in the order in which their tag names are first met in the document. */
  lemma {:induction false} GroupsInFirstSeenOrder(hs: seq<Heading>)
    ensures forall i :: 0 <= i < |Grouped(hs)| ==> Appears(hs, Grouped(hs)[i].tagName)
    ensures forall i, j :: 0 <= i < j < |Grouped(hs)| ==>
              FirstIndex(hs, Grouped(hs)[i].tagName) < FirstIndex(hs, Grouped(hs)[j].tagName)
  {
    TagsAppear(hs);
    if hs != [] {
      var init, h := hs[..|hs| - 1], hs[|hs| - 1];
      assert hs == init + [h];
      GroupsInFirstSeenOrder(init);
      TagsAppear(init);
      var tags, prev := Tags(hs), Tags(init);
      forall i | 0 <= i < |prev| ensures FirstIndex(hs, prev[i]) == FirstIndex(init, prev[i]) {
        assert Grouped(init)[i].tagName == prev[i];
      }
      forall i, j | 0 <= i < j < |tags| ensures FirstIndex(hs, tags[i]) < FirstIndex(hs, tags[j]) {
        assert Grouped(init)[i].tagName == prev[i];
        if j < |prev| {
          assert Grouped(init)[j].tagName == prev[j];
        }
      }
      forall i | 0 <= i < |tags| ensures Grouped(hs)[i].tagName == tags[i] { }
    }
  }

  /** The positions of the headings of hs that carry tag t. */
  function Positions(hs: seq<Heading>, t: string): set<nat>
  {
    set i: nat | i < |hs| && hs[i].tagName == t
  }

  lemma {:induction false} HtmlOfCountsOccurrences(hs: seq<Heading>, t: string)
    ensures |HtmlOf(hs, t)| == |Positions(hs, t)|
  {
    if hs != [] {
      var init := hs[..|hs| - 1];
      HtmlOfCountsOccurrences(init, t);
      var last := |hs| - 1;
      if hs[last].tagName == t {
        assert Positions(hs, t) == Positions(init, t) + {last};
      } else {
        assert Positions(hs, t) == Positions(init, t);
      }
    }
  }

  /** Each group's count is the length of its list, and both are the number of headings of that tag. */
  lemma GroupCounts(hs: seq<Heading>)
    ensures forall i :: 0 <= i < |Grouped(hs)| ==>
              var g := Grouped(hs)[i];
              1 <= g.count == |g.innerHTML| == |Positions(hs, g.tagName)| && g.innerHTML == HtmlOf(hs, g.tagName)
  {
    TagsAppear(hs);
    forall i | 0 <= i < |Grouped(hs)|
      ensures 1 <= |Positions(hs, Tags(hs)[i])| == |HtmlOf(hs, Tags(hs)[i])|
    {
      var t := Tags(hs)[i];
      HtmlOfCountsOccurrences(hs, t);
      assert Appears(hs, t);
      var p :| 0 <= p < |hs| && hs[p].tagName == t;
      assert p in Positions(hs, t);
    }
  }

  lemma {:induction false} TotalCountUpdate(gs: seq<HeadingGroup>, k: nat, g: HeadingGroup)
    requires k < |gs|
    ensures TotalCount(gs[k := g]) + gs[k].count == TotalCount(gs) + g.count
  {
    var n := |gs| - 1;
    if k < n {
      TotalCountUpdate(gs[..n], k, g);
      assert gs[k := g][..n] == gs[..n][k := g];
    } else {
      assert gs[k := g][..n] == gs[..n];
    }
  }

  /** The counts add up to the number of headings. */
  lemma {:induction false} TotalCountIsHeadingCount(hs: seq<Heading>)
    ensures TotalCount(Grouped(hs)) == |hs|
  {
    if hs != [] {
      var init, h := hs[..|hs| - 1], hs[|hs| - 1];
      assert hs == init + [h];
      TotalCountIsHeadingCount(init);
      var before := Grouped(init);
      match FindGroup(before, h.tagName)
      case Some(k) =>
        SeenTagStep(init, h, k);
        TotalCountUpdate(before, k, HeadingGroup(h.tagName, before[k].count + 1, before[k].innerHTML + [h.innerHTML]));
      case None =>
        NewTagStep(init, h);
        assert (before + [HeadingGroup(h.tagName, 1, [h.innerHTML])])[..|before|] == before;
    }
  }

  /**
   The groups of a document prefix keep their places in the groups of the whole
   document: later headings never move a group, and only extend its list.
   */
  lemma {:induction false} PrefixGroupsStay(hs: seq<Heading>, k: nat)
    requires k <= |hs|
    ensures |Grouped(hs[..k])| <= |Grouped(hs)|
    ensures forall i :: 0 <= i < |Grouped(hs[..k])| ==>
              Grouped(hs[..k])[i].tagName == Grouped(hs)[i].tagName &&
              Grouped(hs[..k])[i].innerHTML <= Grouped(hs)[i].innerHTML
    decreases |hs| - k
  {
    if k < |hs| {
      var init := hs[..|hs| - 1];
      assert init[..k] == hs[..k];
      PrefixGroupsStay(init, k);
      var prev := Tags(init);
      assert prev <= Tags(hs);
      forall i | 0 <= i < |prev| ensures HtmlOf(init, prev[i]) <= HtmlOf(hs, prev[i]) { }
      forall i | 0 <= i < |Grouped(hs[..k])|
        ensures Grouped(hs[..k])[i].innerHTML <= Grouped(hs)[i].innerHTML
      {
        assert Grouped(init)[i].innerHTML == HtmlOf(init, prev[i]);
      }
    } else {
      assert hs[..k] == hs;
    }
  }

  /** An example: headings H1 "A", H2 "B", H1 "C" give a group for H1 with both entries, then one for H2. */
  lemma GroupingExample()
    ensures Grouped([Heading("H1", "A"), Heading("H2", "B"), Heading("H1", "C")]) ==
            [HeadingGroup("H1", 2, ["A", "C"]), HeadingGroup("H2", 1, ["B"])]
  {
    var h1a, h2b, h1c := Heading("H1", "A"), Heading("H2", "B"), Heading("H1", "C");
    assert [h1a, h2b, h1c][..2] == [h1a, h2b];
    assert [h1a, h2b][..1] == [h1a];
    assert [h1a][..0] == [];
    assert [] + [h1a] == [h1a] && [h1a] + [h2b] == [h1a, h2b] && [h1a, h2b] + [h1c] == [h1a, h2b, h1c];
    NewTagStep([], h1a);
    assert Grouped([h1a]) == [HeadingGroup("H1", 1, ["A"])];
    NewTagStep([h1a], h2b);
    assert Grouped([h1a, h2b]) == [HeadingGroup("H1", 1, ["A"]), HeadingGroup("H2", 1, ["B"])];
    SeenTagStep([h1a, h2b], h1c, 0);
    assert ["A"] + ["C"] == ["A", "C"];
  }
}
