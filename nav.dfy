/** Active navigation link highlighting (`updateActiveNavLink`,
    js/scripts.js lines 104-111).

    Each `.nav-link` element is a `NavLink`: its `data-section` attribute
    (absent is `None`) and whether its class list holds `active`. The
    section id comes from an anchor's `href` or from a section's `id`
    attribute, which may itself be absent; JavaScript's `null === null`
    holds, which `Option` equality reproduces. */
module Nav {
  import opened Wrappers

  datatype NavLink = NavLink(section: Option<string>, active: bool)

  /** One link after `classList.remove('active')` and the conditional `add`. */
  function Marked(link: NavLink, sectionId: Option<string>): NavLink {
    link.(active := link.section == sectionId)
  }

  /** All links, in document order, after the update. */
  function Highlighted(links: seq<NavLink>, sectionId: Option<string>): (r: seq<NavLink>)
    ensures |r| == |links|
    decreases |links|
  {
    if links == [] then [] else [Marked(links[0], sectionId)] + Highlighted(links[1..], sectionId)
  }

  /** Same number of links, same sections, and a link is active exactly when
      its section is the requested one. */
  lemma {:induction false} HighlightedAt(links: seq<NavLink>, sectionId: Option<string>, i: nat)
    requires i < |links|
    ensures Highlighted(links, sectionId)[i] == Marked(links[i], sectionId)
    ensures Highlighted(links, sectionId)[i].section == links[i].section
    ensures Highlighted(links, sectionId)[i].active <==> links[i].section == sectionId
    decreases |links|
  {
    if i > 0 {
      HighlightedAt(links[1..], sectionId, i - 1);
    } else if |links| > 1 {
      HighlightedAt(links[1..], sectionId, 0);
    }
  }

  /** The previous highlighting does not matter: only the sections do. */
  lemma {:induction false} HighlightedForgetsActive(a: seq<NavLink>, b: seq<NavLink>, sectionId: Option<string>)
    requires |a| == |b|
    requires forall i :: 0 <= i < |a| ==> a[i].section == b[i].section
    ensures Highlighted(a, sectionId) == Highlighted(b, sectionId)
    decreases |a|
  {
    if a != [] {
      assert a[0].section == b[0].section;
      HighlightedForgetsActive(a[1..], b[1..], sectionId);
    }
  }

  /** Updating twice with the same id is the same as once. */
  lemma HighlightedIdempotent(links: seq<NavLink>, sectionId: Option<string>)
    ensures Highlighted(Highlighted(links, sectionId), sectionId) == Highlighted(links, sectionId)
  {
    var h := Highlighted(links, sectionId);
    forall i | 0 <= i < |h|
      ensures h[i].section == links[i].section
    {
      HighlightedAt(links, sectionId, i);
    }
    HighlightedForgetsActive(h, links, sectionId);
  }

  /** When the links' sections are distinct, at most one link is active, and
      the one whose section is `sectionId` is. */
  lemma AtMostOneActive(links: seq<NavLink>, sectionId: Option<string>, i: nat, j: nat)
    requires forall x, y :: 0 <= x < y < |links| ==> links[x].section != links[y].section
    requires i < j < |links|
    ensures !(Highlighted(links, sectionId)[i].active && Highlighted(links, sectionId)[j].active)
  {
    HighlightedAt(links, sectionId, i);
    HighlightedAt(links, sectionId, j);
  }

  /** The in-place update of the `.nav-link` elements, in document order. */
  method UpdateActiveNavLink(links: array<NavLink>, sectionId: Option<string>)
    modifies links
    ensures links[..] == Highlighted(old(links[..]), sectionId)
  {
    ghost var before := links[..];
    for i := 0 to links.Length
      invariant forall k :: 0 <= k < i ==> links[k] == Marked(before[k], sectionId)
      invariant forall k :: i <= k < links.Length ==> links[k] == before[k]
    {
      var link := links[i];
      link := link.(active := false);
      if link.section == sectionId {
        link := link.(active := true);
      }
      links[i] := link;
    }
    forall k | 0 <= k < links.Length
      ensures links[..][k] == Highlighted(before, sectionId)[k]
    {
      HighlightedAt(before, sectionId, k);
    }
  }
}
