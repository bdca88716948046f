/** The catalogue side of rizzerv.js: the category filter of the
    apply-filter handler and the sorted category list that
    `populateCategorySelect` offers in the drop-down. */
module Catalog {
  import opened Seqs
  import opened Text
  import opened Csv

  /** The filter predicate: the category equals the chosen one exactly. */
  function HasCategory(category: String): Restaurant -> bool
  {
    (r: Restaurant) => r.category == category
  }

  /** The restaurants the list shows for a drop-down value: all of them for
      the empty value ("All Categories"), otherwise those of that category,
      in catalogue order. */
  function FilterByCategory(all: seq<Restaurant>, category: String): (shown: seq<Restaurant>)
    ensures category == [] ==> shown == all
    ensures IsSubsequence(shown, all)
    ensures forall r :: r in shown ==> r in all && (category == [] || r.category == category)
    ensures forall r :: r in all && (category == [] || r.category == category) ==> r in shown
  {
    if category == [] then
      SubsequenceReflexive(all);
      all
    else
      Filter(all, HasCategory(category))
  }

  /** Applying the same category a second time changes nothing. */
  lemma FilterIdempotent(all: seq<Restaurant>, category: String)
    ensures FilterByCategory(FilterByCategory(all, category), category) == FilterByCategory(all, category)
  {
    if category != [] {
      Seqs.FilterIdempotent(all, HasCategory(category));
    }
  }

  /** Filtering distributes over concatenation, so the shown records keep catalogue order. */
  lemma FilterKeepsOrder(a: seq<Restaurant>, b: seq<Restaurant>, category: String)
    ensures FilterByCategory(a + b, category) == FilterByCategory(a, category) + FilterByCategory(b, category)
  {
    if category != [] {
      FilterAppend(a, b, HasCategory(category));
    }
  }

  /** `xs` with `c` added at its place in the order, unless it is already there. */
  function Insert(xs: seq<String>, c: String): (r: seq<String>)
    requires StrictlySorted(xs)
    ensures StrictlySorted(r)
    ensures forall y :: y in r <==> y in xs || y == c
  {
    if xs == [] then [c]
    else if c == xs[0] then xs
    else if Less(c, xs[0]) then
      assert forall j :: 0 <= j < |xs| ==> Less(c, xs[j]) by {
        forall j | 0 <= j < |xs| ensures Less(c, xs[j]) {
          if j > 0 { LessTransitive(c, xs[0], xs[j]); }
        }
      }
      [c] + xs
    else
      LessTotal(c, xs[0]);
      var rest := Insert(xs[1..], c);
      assert forall y :: y in rest ==> Less(xs[0], y) by {
        forall y | y in rest ensures Less(xs[0], y) {
          if y != c {
            var j :| 0 <= j < |xs[1..]| && xs[1..][j] == y;
            assert xs[j + 1] == y;
          }
        }
      }
      var r := [xs[0]] + rest;
      assert forall i, j :: 0 <= i < j < |r| ==> Less(r[i], r[j]) by {
        forall i, j | 0 <= i < j < |r| ensures Less(r[i], r[j]) {
          if i == 0 {
            assert r[j] == rest[j - 1] && r[j] in rest;
          } else {
            assert r[i] == rest[i - 1] && r[j] == rest[j - 1];
          }
        }
      }
      assert xs == [xs[0]] + xs[1..];
      r
  }

  /** populateCategorySelect: the distinct non-empty categories, sorted. */
  function Categories(rests: seq<Restaurant>): (cats: seq<String>)
    ensures StrictlySorted(cats)
    ensures forall i :: 0 <= i < |rests| && rests[i].category != [] ==> rests[i].category in cats
    ensures forall c :: c in cats ==> c != [] && exists i :: 0 <= i < |rests| && rests[i].category == c
  {
    if rests == [] then []
    else
      var cs := Categories(rests[1..]);
      var c := rests[0].category;
      var cats := if c == [] then cs else Insert(cs, c);
      assert forall i :: 1 <= i < |rests| ==> rests[i] == rests[1..][i - 1];
      assert forall c' :: c' in cs ==> exists i :: 0 <= i < |rests| && rests[i].category == c' by {
        forall c' | c' in cs ensures exists i :: 0 <= i < |rests| && rests[i].category == c' {
          var k :| 0 <= k < |rests[1..]| && rests[1..][k].category == c';
          assert rests[k + 1].category == c';
        }
      }
      cats
  }

  /** The category list is the only strictly sorted list of the non-empty
      categories: what sorting the set of categories gives. */
  lemma CategoriesCanonical(rests: seq<Restaurant>, cs: seq<String>)
    requires StrictlySorted(cs)
    requires forall c :: c in cs <==> c != [] && exists i :: 0 <= i < |rests| && rests[i].category == c
    ensures cs == Categories(rests)
  {
    var cats := Categories(rests);
    forall c ensures c in cs <==> c in cats {
      if c in cs {
        var i :| 0 <= i < |rests| && rests[i].category == c;
      }
    }
    StrictlySortedUnique(cs, cats);
  }

  /** Every category the drop-down offers shows at least one restaurant. */
  lemma OfferedCategoryNonEmpty(all: seq<Restaurant>, c: String)
    requires c in Categories(all)
    ensures FilterByCategory(all, c) != []
  {
    var i :| 0 <= i < |all| && all[i].category == c;
    assert all[i] in all;
    assert all[i] in FilterByCategory(all, c);
  }
}
