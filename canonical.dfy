/**
 The canonical-tag check: the first `<link>` whose rel attribute is "canonical"
 gives the result through its href; with no such link the result is a fixed
 message.
 */
module Canonical {
  import opened Nullable

  /** The attributes of one `<link>` element; None is an absent attribute. */
  datatype Link = Link(rel: Option<string>, href: Option<string>)

  /** The message returned when the document has no canonical link. */
  const NotFound: string := "No canonical tag found"

  /** The selector `link[rel="canonical"]`. */
  predicate IsCanonical(l: Link)
  {
    l.rel == Some("canonical")
  }

  /** No link of links is canonical. */
  predicate NoneCanonical(links: seq<Link>)
  {
    forall i :: 0 <= i < |links| ==> !IsCanonical(links[i])
  }

  /** The result of `parseHTML`: the first canonical link's href (null when absent), else NotFound. */
  function CanonicalTag(links: seq<Link>): (r: Option<string>)
    ensures NoneCanonical(links) ==> r == Some(NotFound)
    ensures forall i :: (0 <= i < |links| && IsCanonical(links[i]) &&
                         forall j :: 0 <= j < i ==> !IsCanonical(links[j])) ==> r == links[i].href
  {
    if links == [] then Some(NotFound)
    else if IsCanonical(links[0]) then links[0].href
    else
      var r := CanonicalTag(links[1..]);
      assert forall i :: 0 < i < |links| ==> links[i] == links[1..][i - 1];
      r
  }

  /** Links after the first canonical one never matter; before it, only non-canonical links were passed over. */
  lemma {:induction false} CanonicalOfConcat(a: seq<Link>, b: seq<Link>)
    ensures CanonicalTag(a + b) ==
            if NoneCanonical(a) then CanonicalTag(b) else CanonicalTag(a)
  {
    if a == [] {
      assert a + b == b;
    } else {
      assert (a + b)[1..] == a[1..] + b;
      CanonicalOfConcat(a[1..], b);
      if !IsCanonical(a[0]) && !NoneCanonical(a) {
        var i :| 0 <= i < |a| && IsCanonical(a[i]);
        assert a[1..][i - 1] == a[i];
      }
    }
  }
}
