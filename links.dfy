/** `extract_item_links` (src/watchfinder_scraper.py:80-101): the product
    links of one listing page. */
module Links {
  import opened Wrappers
  import opened Seqs

  /** An `<a>` tag of the page, in document order, with its `href` if it has one. */
  datatype Anchor = Anchor(href: Option<string>)

  /** The substring every product link contains. */
  const ItemMarker := "/item/"

  /** Python's `part in s` on strings. */
  predicate Contains(s: string, part: string)
    decreases |s|
  {
    part <= s || (s != [] && Contains(s[1..], part))
  }

  predicate IsItemLink(href: string)
  {
    Contains(href, ItemMarker)
  }

  /** `soup.find_all('a', href=True)`, read back as the `href` of each tag. */
  function Hrefs(anchors: seq<Anchor>): seq<string>
  {
    if anchors == [] then []
    else
      var last := anchors[|anchors| - 1];
      Hrefs(anchors[..|anchors| - 1]) + (if last.href.Some? then [last.href.value] else [])
  }

  /** What `extract_item_links` returns. */
  function ItemLinks(anchors: seq<Anchor>): seq<string>
  {
    Filter(Hrefs(anchors), IsItemLink)
  }

  /** `extract_item_links`: appends each matching href in turn. */
  method ExtractItemLinks(anchors: seq<Anchor>) returns (links: seq<string>)
    ensures links == ItemLinks(anchors)
  {
    links := [];
    for i := 0 to |anchors|
      invariant links == ItemLinks(anchors[..i])
    {
      ItemLinksSnoc(anchors[..i], anchors[i]);
      assert anchors[..i + 1] == anchors[..i] + [anchors[i]];
      var tag := anchors[i];
      if tag.href.Some? {
        var href := tag.href.value;
        if Contains(href, ItemMarker) {
          links := links + [href];
        }
      }
    }
    assert anchors[..|anchors|] == anchors;
  }

  lemma ItemLinksSnoc(anchors: seq<Anchor>, a: Anchor)
    ensures ItemLinks(anchors + [a]) ==
              ItemLinks(anchors) + (if a.href.Some? && IsItemLink(a.href.value) then [a.href.value] else [])
  {
    assert (anchors + [a])[..|anchors|] == anchors;
    if a.href.Some? {
      assert Hrefs(anchors + [a]) == Hrefs(anchors) + [a.href.value];
      FilterSnoc(Hrefs(anchors), a.href.value, IsItemLink);
    } else {
      assert Hrefs(anchors + [a]) == Hrefs(anchors) + [];
      assert Hrefs(anchors) + [] == Hrefs(anchors);
    }
  }

  // ---------------------------------------------------------------------------
  // Properties

  /** `part` occurs in `s` starting at position `i`. */
  ghost predicate OccursAt(s: string, part: string, i: int)
  {
    0 <= i && i + |part| <= |s| && s[i..i + |part|] == part
  }

  /** `Contains` is substring search: `part` occurs at some position of `s`. */
  lemma {:induction false} ContainsSpec(s: string, part: string)
    ensures Contains(s, part) <==> exists i :: OccursAt(s, part, i)
  {
    if part <= s {
      assert OccursAt(s, part, 0);
    }
    if s != [] {
      ContainsSpec(s[1..], part);
      if Contains(s[1..], part) {
        var i :| OccursAt(s[1..], part, i);
        assert s[i + 1..i + 1 + |part|] == s[1..][i..i + |part|];
        assert OccursAt(s, part, i + 1);
      }
      if exists i :: OccursAt(s, part, i) {
        var i :| OccursAt(s, part, i);
        if i == 0 {
          assert part <= s;
        } else {
          assert s[1..][i - 1..i - 1 + |part|] == s[i..i + |part|];
          assert OccursAt(s[1..], part, i - 1);
        }
      }
    } else {
      if exists i :: OccursAt(s, part, i) {
        var i :| OccursAt(s, part, i);
        assert part == [];
      }
    }
  }

  /** The `href`s are exactly those of the anchors that carry one. */
  lemma {:induction false} HrefsMembers(anchors: seq<Anchor>, h: string)
    ensures h in Hrefs(anchors) <==> exists i :: 0 <= i < |anchors| && anchors[i].href == Some(h)
  {
    if anchors != [] {
      var init, last := anchors[..|anchors| - 1], anchors[|anchors| - 1];
      HrefsMembers(init, h);
      if last.href.Some? {
        assert Hrefs(anchors) == Hrefs(init) + [last.href.value];
      } else {
        assert Hrefs(anchors) == Hrefs(init) + [];
      }
      if exists i :: 0 <= i < |anchors| && anchors[i].href == Some(h) {
        var i :| 0 <= i < |anchors| && anchors[i].href == Some(h);
        if i < |init| {
          assert init[i] == anchors[i];
        }
      }
      if exists i :: 0 <= i < |init| && init[i].href == Some(h) {
        var i :| 0 <= i < |init| && init[i].href == Some(h);
        assert anchors[i] == init[i];
      }
    }
  }

  /** Every returned link contains `/item/` and is the `href` of some anchor;
      every anchor whose `href` contains `/item/` contributes its link. */
  lemma ItemLinksMembers(anchors: seq<Anchor>, h: string)
    ensures h in ItemLinks(anchors) <==>
              Contains(h, ItemMarker) && exists i :: 0 <= i < |anchors| && anchors[i].href == Some(h)
  {
    HrefsMembers(anchors, h);
    FilterMembers(Hrefs(anchors), IsItemLink);
  }

  /** The links keep document order: they are a subsequence of all `href`s. */
  lemma ItemLinksInOrder(anchors: seq<Anchor>)
    ensures IsSubseq(ItemLinks(anchors), Hrefs(anchors))
  {
    FilterIsSubseq(Hrefs(anchors), IsItemLink);
  }

  /** Duplicates are kept: a product link occurs as often as it occurs among
      the `href`s. */
  lemma ItemLinksCount(anchors: seq<Anchor>, h: string)
    ensures multiset(ItemLinks(anchors))[h] == if IsItemLink(h) then multiset(Hrefs(anchors))[h] else 0
  {
    FilterMultiplicity(Hrefs(anchors), IsItemLink, h);
  }

  /** An anchor whose `href` is a product link. */
  predicate IsItemAnchor(a: Anchor)
  {
    a.href.Some? && IsItemLink(a.href.value)
  }

  /** The positions of the anchors that yield a product link. */
  ghost function ItemAnchorIndices(anchors: seq<Anchor>): set<int>
  {
    set i | 0 <= i < |anchors| && IsItemAnchor(anchors[i])
  }

  /** The length of the result is the number of anchors whose `href` contains
      `/item/`. */
  lemma {:induction false} ItemLinksLength(anchors: seq<Anchor>)
    ensures |ItemLinks(anchors)| == |ItemAnchorIndices(anchors)|
  {
    if anchors != [] {
      var init, a := anchors[..|anchors| - 1], anchors[|anchors| - 1];
      ItemLinksLength(init);
      assert anchors == init + [a];
      ItemLinksSnoc(init, a);
      var s, s0 := ItemAnchorIndices(anchors), ItemAnchorIndices(init);
      if IsItemAnchor(a) {
        assert s == s0 + {|init|};
      } else {
        assert s == s0;
      }
    } else {
      assert ItemAnchorIndices(anchors) == {};
    }
  }
}
