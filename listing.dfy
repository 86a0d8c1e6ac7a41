/**
 * The main page's listing: an exact category filter, then a case-insensitive
 * search in title or description, then newest-first display.
 */
module Listing {
  import opened Wrappers
  import opened Text
  import opened Seqs
  import opened Ads

  /** The category selector's entry that turns the category filter off. */
  const All: string := "All"

  /**
   * The search condition: the lowered search term occurs in the lowered title
   * or the lowered description. The empty term matches every ad, and a term
   * longer than both fields matches none.
   */
  predicate Matches(ad: Ad, needle: string)
    ensures needle == [] ==> Matches(ad, needle)
    ensures |needle| > |ad.title| && |needle| > |ad.description| ==> !Matches(ad, needle)
  {
    Contains(Lower(ad.title), needle) || Contains(Lower(ad.description), needle)
  }

  /**
   * The category filter: everything for `All`, otherwise the ads of exactly
   * that category, each as often as the list holds it, in the list's order.
   */
  function ByCategory(ads: seq<Ad>, selected: string): (r: seq<Ad>)
    ensures selected == All ==> r == ads
    ensures IsSubseq(r, ads)
    ensures selected != All ==> forall ad :: ad in r <==> ad in ads && ad.category == selected
    ensures forall ad :: multiset(r)[ad] == if selected == All || ad.category == selected then multiset(ads)[ad] else 0
  {
    var keep := (ad: Ad) => ad.category == selected;
    IsSubseqRefl(ads);
    FilterIsSubseq(keep, ads);
    FilterMembers(keep, ads);
    FilterCounts(keep, ads);
    if selected == All then ads else Filter(keep, ads)
  }

  /**
   * The search: everything for an empty term, otherwise the ads the lowered
   * term matches, each as often as the list holds it, in the list's order.
   */
  function BySearch(ads: seq<Ad>, term: string): (r: seq<Ad>)
    ensures term == "" ==> r == ads
    ensures IsSubseq(r, ads)
    ensures term != "" ==> forall ad :: ad in r <==> ad in ads && Matches(ad, Lower(term))
    ensures forall ad :: multiset(r)[ad] == if term == "" || Matches(ad, Lower(term)) then multiset(ads)[ad] else 0
  {
    var needle := Lower(term);
    var keep := (ad: Ad) => Matches(ad, needle);
    IsSubseqRefl(ads);
    FilterIsSubseq(keep, ads);
    FilterMembers(keep, ads);
    FilterCounts(keep, ads);
    if term == "" then ads else Filter(keep, ads)
  }

  /**
   * Skipping the search for an empty term changes nothing: searching for the
   * empty string would keep every ad anyway.
   */
  lemma SearchGuardRedundant(ads: seq<Ad>, term: string)
    ensures BySearch(ads, term) == Filter((ad: Ad) => Matches(ad, Lower(term)), ads)
  {
    if term == "" {
      assert Lower(term) == [];
      FilterKeepsAll((ad: Ad) => Matches(ad, Lower(term)), ads);
    }
  }

  /**
   * Whether an ad survives both filters. With `All` and an empty term every
   * ad does; otherwise a shown ad has the selected category.
   */
  predicate Shown(ad: Ad, selected: string, term: string)
    ensures selected == All && term == "" ==> Shown(ad, selected, term)
    ensures Shown(ad, selected, term) && selected != All ==> ad.category == selected
  {
    (selected == All || ad.category == selected) && (term == "" || Matches(ad, Lower(term)))
  }

  /**
   * The filtered list, still oldest first: what the "Showing N ad(s)" count
   * counts. It holds exactly the ads passing both filters, each as often as the
   * whole list does.
   */
  function Filtered(ads: seq<Ad>, selected: string, term: string): (r: seq<Ad>)
    ensures IsSubseq(r, ads)
    ensures forall ad :: ad in r <==> ad in ads && Shown(ad, selected, term)
    ensures forall ad :: multiset(r)[ad] == if Shown(ad, selected, term) then multiset(ads)[ad] else 0
  {
    var byCategory := ByCategory(ads, selected);
    var r := BySearch(byCategory, term);
    IsSubseqTrans(r, byCategory, ads);
    r
  }

  /** A single ad gets through the two filters exactly when `Shown` holds of it. */
  lemma ShownIffListed(ad: Ad, selected: string, term: string)
    ensures Shown(ad, selected, term) <==> Filtered([ad], selected, term) == [ad]
  {
    var r := Filtered([ad], selected, term);
    if Shown(ad, selected, term) {
      assert multiset(r)[ad] == 1;
      assert r == [ad] by {
        IsSubseqMultiset(r, [ad]);
        assert |r| == |multiset(r)| <= 1;
      }
    } else {
      assert ad !in r;
    }
  }

  /** The two filters in a row select exactly what one pass with `Shown` selects, in the same order. */
  lemma FilteredIsOnePass(ads: seq<Ad>, selected: string, term: string)
    ensures Filtered(ads, selected, term) == Filter((ad: Ad) => Shown(ad, selected, term), ads)
  {
    var byCat := (ad: Ad) => ad.category == selected;
    var needle := Lower(term);
    var bySearch := (ad: Ad) => Matches(ad, needle);
    var shown := (ad: Ad) => Shown(ad, selected, term);
    var middle := ByCategory(ads, selected);
    if selected == All {
      if term == "" {
        FilterKeepsAll(shown, ads);
      } else {
        assert Filtered(ads, selected, term) == BySearch(ads, term) == Filter(bySearch, ads);
        FilterAgree(bySearch, shown, ads);
      }
    } else {
      if term == "" {
        assert Filtered(ads, selected, term) == middle == Filter(byCat, ads);
        FilterAgree(byCat, shown, ads);
      } else {
        assert middle == Filter(byCat, ads);
        assert Filtered(ads, selected, term) == BySearch(middle, term) == Filter(bySearch, middle);
        FilterFilter(byCat, bySearch, shown, ads);
      }
    }
  }

  /** Each ad appears in the filtered list exactly as often as it does in the whole list, or not at all. */
  lemma FilteredCount(ads: seq<Ad>, selected: string, term: string, ad: Ad)
    ensures multiset(Filtered(ads, selected, term))[ad] ==
            if Shown(ad, selected, term) then multiset(ads)[ad] else 0
  {
    FilteredIsOnePass(ads, selected, term);
    FilterCount((a: Ad) => Shown(a, selected, term), ads, ad);
  }

  /** Two search terms with the same lower-case form select the same ads. */
  lemma SearchIgnoresCase(ads: seq<Ad>, term1: string, term2: string)
    requires Lower(term1) == Lower(term2)
    ensures BySearch(ads, term1) == BySearch(ads, term2)
  {
    if term1 != "" {
      assert |term2| == |term1|;
    }
  }

  /** Two search terms that differ only in the case of ASCII letters select the same ads. */
  lemma SearchIgnoresLetterCase(ads: seq<Ad>, term1: string, term2: string)
    requires |term1| == |term2|
    requires forall i :: 0 <= i < |term1| ==> CaseVariants(term1[i], term2[i])
    ensures BySearch(ads, term1) == BySearch(ads, term2)
  {
    SameLowerIff(term1, term2);
    SearchIgnoresCase(ads, term1, term2);
  }

  /** The number of ads in `ads` whose category is `category`. */
  function CountOf(ads: seq<Ad>, category: string): nat {
    if ads == [] then 0
    else (if ads[0].category == category then 1 else 0) + CountOf(ads[1..], category)
  }

  /** `CountOf` added up over each entry of `selections`. */
  function CountSum(ads: seq<Ad>, selections: seq<string>): nat {
    if selections == [] then 0 else CountOf(ads, selections[0]) + CountSum(ads, selections[1..])
  }

  /** The sizes of the category views for each selection in `selections`, added up. */
  function ViewSizes(ads: seq<Ad>, selections: seq<string>): nat {
    if selections == [] then 0
    else |ByCategory(ads, selections[0])| + ViewSizes(ads, selections[1..])
  }

  /** Putting one ad in front of the list adds one to the view of its category and nothing to any other. */
  lemma ViewStep(ad: Ad, ads: seq<Ad>, selected: string)
    requires selected != All
    ensures |ByCategory([ad] + ads, selected)| == (if ad.category == selected then 1 else 0) + |ByCategory(ads, selected)|
  {
    var after, before := ByCategory([ad] + ads, selected), ByCategory(ads, selected);
    var extra: multiset<Ad> := if ad.category == selected then multiset{ad} else multiset{};
    assert multiset([ad] + ads) == multiset{ad} + multiset(ads);
    assert multiset(after) == multiset(before) + extra;
    assert |after| == |multiset(after)| && |before| == |multiset(before)|;
  }

  /** A category view holds as many ads as the list has of that category. */
  lemma {:induction false} ViewSizeIsCount(ads: seq<Ad>, selected: string)
    requires selected != All
    ensures |ByCategory(ads, selected)| == CountOf(ads, selected)
  {
    if ads != [] {
      ViewSizeIsCount(ads[1..], selected);
      assert ads == [ads[0]] + ads[1..];
      ViewStep(ads[0], ads[1..], selected);
    }
  }

  /** Adding up the views' sizes is adding up the category counts. */
  lemma {:induction false} ViewSizesAreCounts(ads: seq<Ad>, selections: seq<string>)
    requires All !in selections
    ensures ViewSizes(ads, selections) == CountSum(ads, selections)
  {
    if selections != [] {
      ViewSizesAreCounts(ads, selections[1..]);
      ViewSizeIsCount(ads, selections[0]);
    }
  }

  /** Putting one ad in front adds one to the count of each entry equal to its category. */
  lemma {:induction false} CountSumCons(ad: Ad, ads: seq<Ad>, selections: seq<string>)
    ensures CountSum([ad] + ads, selections) == multiset(selections)[ad.category] + CountSum(ads, selections)
  {
    if selections != [] {
      CountSumCons(ad, ads, selections[1..]);
      assert ([ad] + ads)[1..] == ads;
      assert selections == [selections[0]] + selections[1..];
    }
  }

  /** The empty list has no ad of any category. */
  lemma {:induction false} CountSumOfNone(selections: seq<string>)
    ensures CountSum([], selections) == 0
  {
    if selections != [] {
      CountSumOfNone(selections[1..]);
    }
  }

  /**
   * Distinct categories split the list: when every ad carries one of
   * `selections`, their counts add up to the number of ads.
   */
  lemma {:induction false} CountsPartition(ads: seq<Ad>, selections: seq<string>)
    requires Distinct(selections)
    requires forall ad :: ad in ads ==> ad.category in selections
    ensures CountSum(ads, selections) == |ads|
  {
    if ads == [] {
      CountSumOfNone(selections);
    } else {
      var first, rest := ads[0], ads[1..];
      assert ads == [first] + rest;
      assert forall ad :: ad in rest ==> ad in ads;
      CountsPartition(rest, selections);
      CountSumCons(first, rest, selections);
      assert first in ads;
      DistinctCountOne(selections, first.category);
    }
  }

  /**
   * Distinct selections other than `All` split the list into their views:
   * when every ad carries one of them, the views' sizes add up to the number of ads.
   */
  lemma ViewsPartition(ads: seq<Ad>, selections: seq<string>)
    requires Distinct(selections) && All !in selections
    requires forall ad :: ad in ads ==> ad.category in selections
    ensures ViewSizes(ads, selections) == |ads|
  {
    ViewSizesAreCounts(ads, selections);
    CountsPartition(ads, selections);
  }

  /**
   * The form's categories are distinct and do not include `All`, so
   * `ViewsPartition` applies to them: when every ad carries one of the seven
   * categories, each ad is listed under exactly one category view.
   */
  lemma CategoriesAreSelections()
    ensures Distinct(Categories) && All !in Categories
  {
  }

  /** What the main page shows under the filters. */
  datatype View = NoAds | Showing(count: nat, items: seq<Ad>)

  /**
   * The listing: the "no ads found" notice when nothing passes the filters,
   * otherwise the count and the filtered ads newest first.
   */
  function Render(ads: seq<Ad>, selected: string, term: string): (v: View)
    ensures v.NoAds? <==> Filtered(ads, selected, term) == []
    ensures v.Showing? ==> v.count == |v.items| == |Filtered(ads, selected, term)| > 0
    ensures v.Showing? ==> multiset(v.items) == multiset(Filtered(ads, selected, term))
    ensures v.Showing? ==> forall k :: 0 <= k < |v.items| ==>
      v.items[k] == Filtered(ads, selected, term)[|v.items| - 1 - k]
  {
    var filtered := Filtered(ads, selected, term);
    ReverseMultiset(filtered);
    ReverseMirrors(filtered);
    if filtered == [] then NoAds else Showing(|filtered|, Reverse(filtered))
  }

  /** An ad appended last that passes the filters heads the listing. */
  lemma NewestFirst(ads: seq<Ad>, ad: Ad, selected: string, term: string)
    requires Shown(ad, selected, term)
    ensures Render(ads + [ad], selected, term).Showing?
    ensures Render(ads + [ad], selected, term).items[0] == ad
  {
    var shown := (a: Ad) => Shown(a, selected, term);
    FilteredIsOnePass(ads + [ad], selected, term);
    FilterAppend(shown, ads, [ad]);
    assert Filter(shown, [ad]) == [ad];
    ReverseAppendFirst(Filter(shown, ads), ad);
  }

  /** A string without the letter `p` contains no occurrence of "phone". */
  lemma NoPhoneWithoutP(hay: string)
    requires forall i :: 0 <= i < |hay| ==> hay[i] != 'p'
    ensures !Contains(hay, "phone")
  {
    forall i | 0 <= i <= |hay| - 5 ensures !OccursAt(hay, "phone", i) {
      assert hay[i..i + 5][0] == hay[i];
    }
  }

  /** An ad titled "iPhone 13 Pro", as in the board's placeholder text. */
  const PhoneAd := Ad("iPhone 13 Pro", "Anonymous", "Electronics", "Like new", None, "me@example.com", None)

  /** An ad about a garden hose whose text never mentions a phone. */
  const HoseAd := Ad("Garden Hose", "Anonymous", "Home & Garden", "Twenty metres", None, "me@example.com", None)

  /** The lowered term "phone" occurs in the lowered title "iPhone 13 Pro". */
  lemma PhoneAdMatches()
    ensures Matches(PhoneAd, Lower("phone"))
  {
    assert Lower("phone") == "phone";
    assert Lower(PhoneAd.title) == "iphone 13 pro";
    assert OccursAt(Lower(PhoneAd.title), "phone", 1);
  }

  /** The lowered term "phone" occurs neither in the hose ad's title nor in its description. */
  lemma HoseAdMisses()
    ensures !Matches(HoseAd, Lower("phone"))
  {
    assert Lower("phone") == "phone";
    assert Lower(HoseAd.title) == "garden hose";
    assert Lower(HoseAd.description) == "twenty metres";
    NoPhoneWithoutP(Lower(HoseAd.title));
    NoPhoneWithoutP(Lower(HoseAd.description));
  }

  /** Searching "phone" keeps the "iPhone 13 Pro" ad and drops the "Garden Hose" ad. */
  lemma SearchPhoneExample()
    ensures BySearch([HoseAd, PhoneAd], "phone") == [PhoneAd]
  {
    PhoneAdMatches();
    HoseAdMisses();
    var keep := (ad: Ad) => Matches(ad, Lower("phone"));
    assert BySearch([HoseAd, PhoneAd], "phone") == Filter(keep, [HoseAd, PhoneAd]);
    assert [HoseAd, PhoneAd][1..] == [PhoneAd];
  }
}
