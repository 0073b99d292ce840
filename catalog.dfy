/**
 * The public catalog page (cms-noticias/src/Home.tsx): the list of published
 * news, the category filter, and the rotating "featured" item with the grid of
 * the others.
 */
module Catalog {
  import opened Wrappers
  import opened News

  /** The items of `news` whose category is `c`, in list order (`news.filter(n => n.category === c)`). */
  function OfCategory(news: seq<NewsItem>, c: string): (r: seq<NewsItem>)
    ensures |r| <= |news|
    ensures forall i :: 0 <= i < |r| ==> r[i].category == c
  {
    if news == [] then []
    else (if news[0].category == c then [news[0]] else []) + OfCategory(news[1..], c)
  }

  /** What the category effect stores into `filtered`: "Todas" bypasses the filter. */
  function Filtered(news: seq<NewsItem>, category: string): (r: seq<NewsItem>)
    ensures category == ALL_CATEGORIES ==> r == news
    ensures category != ALL_CATEGORIES ==> forall i :: 0 <= i < |r| ==> r[i].category == category
  {
    if category == ALL_CATEGORIES then news else OfCategory(news, category)
  }

  /** Filtering keeps the order of the list: it distributes over concatenation. */
  lemma {:induction false} OfCategoryAppend(a: seq<NewsItem>, b: seq<NewsItem>, c: string)
    ensures OfCategory(a + b, c) == OfCategory(a, c) + OfCategory(b, c)
  {
    if a == [] {
      assert a + b == b;
    } else {
      assert (a + b)[1..] == a[1..] + b;
      OfCategoryAppend(a[1..], b, c);
    }
  }

  /** Filtering keeps every item of the category, as often as it occurs, and nothing else. */
  lemma {:induction false} OfCategoryCount(news: seq<NewsItem>, c: string, x: NewsItem)
    ensures multiset(OfCategory(news, c))[x] == if x.category == c then multiset(news)[x] else 0
  {
    if news != [] {
      OfCategoryCount(news[1..], c, x);
      assert news == [news[0]] + news[1..];
    }
  }

  /** An item is kept exactly when it is in the list and has the category. */
  lemma {:induction false} OfCategoryMember(news: seq<NewsItem>, c: string, x: NewsItem)
    ensures x in OfCategory(news, c) <==> x in news && x.category == c
  {
    OfCategoryCount(news, c, x);
    assert x in OfCategory(news, c) <==> multiset(OfCategory(news, c))[x] > 0;
    assert x in news <==> multiset(news)[x] > 0;
  }

  /** The rotation step of the interval: wrap modulo the length, or 0 on an empty list. */
  function NextSlide(p: nat, len: nat): (r: nat)
    ensures len > 0 ==> r < len
    ensures len == 0 ==> r == 0
    ensures 0 < len && p + 1 < len ==> r == p + 1
    ensures 0 < len && p + 1 == len ==> r == 0
    ensures 0 < len ==> r == (p + 1) % len
  {
    if len > 0 then (p + 1) % len else 0
  }

  /**
   * The rotation index after `k` ticks on a list of fixed length, starting
   * from `start` (0 when the page opens, anything a category change leaves).
   */
  function SlideAfterTicks(start: nat, k: nat, len: nat): (r: nat)
    ensures k > 0 && len > 0 ==> r < len
    ensures k > 0 && len == 0 ==> r == 0
  {
    if k == 0 then start else NextSlide(SlideAfterTicks(start, k - 1, len), len)
  }

  /** A positive multiple of `len` is at least `len`. */
  lemma MultipleAtLeast(a: nat, len: nat)
    requires a >= 1
    ensures a * len >= len
  {
  }

  /** Euclidean division has one quotient and one remainder. */
  lemma DivModUnique(x: int, len: int, q: int, r: int)
    requires len > 0 && 0 <= r < len && x == q * len + r
    ensures x % len == r && x / len == q
  {
    var q0, r0 := x / len, x % len;
    assert x == q0 * len + r0;
    assert (q0 - q) * len == q0 * len - q * len;
    assert (q0 - q) * len == r - r0;
    if q0 > q {
      MultipleAtLeast(q0 - q, len);
    } else if q0 < q {
      assert (q - q0) * len == r0 - r;
      MultipleAtLeast(q - q0, len);
    }
  }

  /** Adding one after taking the remainder wraps the same way as adding one before. */
  lemma ModSuccessor(x: nat, len: nat)
    requires len > 0
    ensures (x % len + 1) % len == (x + 1) % len
  {
    var q, m := x / len, x % len;
    if m + 1 < len {
      DivModUnique(m + 1, len, 0, m + 1);
      DivModUnique(x + 1, len, q, m + 1);
    } else {
      DivModUnique(m + 1, len, 1, 0);
      DivModUnique(x + 1, len, q + 1, 0);
    }
  }

  /**
   * On a non-empty list of length `len`, `k` ticks from index `start` give
   * `(start + k) mod len`: from the initial 0 that is `k mod len`, and from an
   * index a category change left past the end it takes one tick to wrap in.
   */
  lemma {:induction false} SlideAfterTicksIsMod(start: nat, k: nat, len: nat)
    requires len > 0
    requires k > 0 || start < len
    ensures SlideAfterTicks(start, k, len) == (start + k) % len
  {
    if k == 0 {
      DivModUnique(start, len, 0, start);
    } else if k - 1 > 0 || start < len {
      SlideAfterTicksIsMod(start, k - 1, len);
      ModSuccessor(start + k - 1, len);
    }
  }

  /** `filtered[currentSlide]`: present exactly when the index is inside the list. */
  function FeaturedOf(filtered: seq<NewsItem>, slide: nat): (r: Option<NewsItem>)
    ensures r.Some? <==> slide < |filtered|
    ensures r.Some? ==> r.value == filtered[slide] && r.value in filtered
  {
    if slide < |filtered| then Some(filtered[slide]) else None
  }

  /** `s.filter((_, i) => i !== k)`: the list without position `k`, by walking the positions. */
  function WithoutIndex<T>(s: seq<T>, k: int): (r: seq<T>)
    ensures |r| == if 0 <= k < |s| then |s| - 1 else |s|
  {
    if s == [] then []
    else if k == 0 then WithoutIndex(s[1..], k - 1)
    else [s[0]] + WithoutIndex(s[1..], k - 1)
  }

  /** Removing a position keeps the rest in order: the part before it, then the part after it. */
  lemma {:induction false} WithoutIndexSplices<T>(s: seq<T>, k: int)
    ensures 0 <= k < |s| ==> WithoutIndex(s, k) == s[..k] + s[k + 1..]
    ensures !(0 <= k < |s|) ==> WithoutIndex(s, k) == s
  {
    if s != [] {
      WithoutIndexSplices(s[1..], k - 1);
      if 0 < k < |s| {
        assert s[1..][..k - 1] == s[1..k];
        assert s[1..][k..] == s[k + 1..];
        assert [s[0]] + s[1..k] == s[..k];
      } else if k != 0 {
        assert [s[0]] + s[1..] == s;
      }
    }
  }

  /** The grid beside the featured item: every other item of `filtered`, in order. */
  function OthersOf(filtered: seq<NewsItem>, slide: nat): (r: seq<NewsItem>)
    ensures |r| == if slide < |filtered| then |filtered| - 1 else |filtered|
  {
    WithoutIndex(filtered, slide)
  }

  /** The featured item and the grid together are exactly the filtered list. */
  lemma FeaturedAndOthersCoverFiltered(filtered: seq<NewsItem>, slide: nat)
    ensures FeaturedOf(filtered, slide).Some? ==>
      OthersOf(filtered, slide) == filtered[..slide] + filtered[slide + 1..] &&
      filtered == filtered[..slide] + [FeaturedOf(filtered, slide).value] + filtered[slide + 1..]
    ensures FeaturedOf(filtered, slide).None? ==> OthersOf(filtered, slide) == filtered
  {
    WithoutIndexSplices(filtered, slide);
    if slide < |filtered| {
      assert filtered == filtered[..slide] + [filtered[slide]] + filtered[slide + 1..];
    }
  }

  /** One tick on a non-empty list always brings a featured item back. */
  lemma TickRestoresFeatured(filtered: seq<NewsItem>, p: nat)
    requires filtered != []
    ensures FeaturedOf(filtered, NextSlide(p, |filtered|)).Some?
  {
  }

  /**
   * Changing the category does not reset the rotation index: with two items and
   * the second one featured, choosing the first one's category leaves no featured
   * item until the next tick.
   */
  lemma CategoryChangeCanHideFeatured(a: NewsItem, b: NewsItem)
    requires a.category != b.category && a.category != ALL_CATEGORIES
    ensures FeaturedOf(Filtered([a, b], ALL_CATEGORIES), 1) == Some(b)
    ensures FeaturedOf(Filtered([a, b], a.category), 1) == None
    ensures FeaturedOf(Filtered([a, b], a.category), NextSlide(1, 1)) == Some(a)
  {
    assert [a, b][1..] == [b];
    assert [b][1..] == [];
    assert OfCategory([b], a.category) == [];
    assert Filtered([a, b], a.category) == [a];
  }

  /** The component state of the catalog page. */
  class CatalogView {
    var news: seq<NewsItem>
    var filtered: seq<NewsItem>
    var category: string
    var currentSlide: nat

    /** cms-noticias/src/Home.tsx lines 17-20: empty lists, "Todas", index 0. */
    constructor ()
      ensures news == [] && filtered == [] && category == ALL_CATEGORIES && currentSlide == 0
    {
      news := [];
      filtered := [];
      category := ALL_CATEGORIES;
      currentSlide := 0;
    }

    /** The item shown large on the page, if the index is inside the list. */
    function Featured(): (r: Option<NewsItem>)
      reads this
      ensures r.Some? <==> currentSlide < |filtered|
    {
      FeaturedOf(filtered, currentSlide)
    }

    /** The grid of the remaining items. */
    function Others(): (r: seq<NewsItem>)
      reads this
      ensures |r| == if currentSlide < |filtered| then |filtered| - 1 else |filtered|
    {
      OthersOf(filtered, currentSlide)
    }

    /** The published-news query has answered: both lists take the rows, or none when `data` is null. */
    method OnLoaded(data: Option<seq<NewsItem>>)
      modifies this`news, this`filtered
      ensures news == data.GetOr([]) && filtered == data.GetOr([])
    {
      news := data.GetOr([]);
      filtered := data.GetOr([]);
    }

    /** The effect that runs whenever `category` or `news` changes. */
    method ApplyFilter()
      modifies this`filtered
      ensures filtered == Filtered(news, category)
    {
      if category == ALL_CATEGORIES {
        filtered := news;
      } else {
        filtered := OfCategory(news, category);
      }
    }

    /** A category button was pressed; the filter effect follows. The rotation index is left as it was. */
    method SelectCategory(c: string)
      modifies this`category, this`filtered
      ensures category == c && filtered == Filtered(news, c)
    {
      category := c;
      ApplyFilter();
    }

    /** One firing of the rotation interval. */
    method Tick()
      modifies this`currentSlide
      ensures currentSlide == NextSlide(old(currentSlide), |filtered|)
      ensures filtered != [] ==> Featured().Some?
    {
      currentSlide := if |filtered| > 0 then (currentSlide + 1) % |filtered| else 0;
    }
  }
}
