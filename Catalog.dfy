/** Read-only views of the book catalog (a map from ISBN to book):
    `getBooksByCategoryCount` and `searchBooks`. */
module Catalog {
  import opened Books

  /** Every catalogued book keeps its copy-count invariant. */
  ghost predicate CatalogValid(catalog: map<string, Book>)
    reads catalog.Values
  {
    forall k :: k in catalog ==> catalog[k].Valid()
  }

  /** The categories that occur in the catalog. */
  function Categories(catalog: map<string, Book>): set<string> {
    set k | k in catalog :: catalog[k].category
  }

  /** The catalog entries filed under `category`. */
  function KeysInCategory(catalog: map<string, Book>, category: string): (ks: set<string>)
    ensures forall k :: k in ks <==> k in catalog && catalog[k].category == category
  {
    set k | k in catalog && catalog[k].category == category
  }

  /** `groupingBy(Book::getCategory, counting())`: one entry per category
      present, counting the catalog entries filed under it. */
  function CategoryCounts(catalog: map<string, Book>): (r: map<string, nat>)
    ensures r.Keys == Categories(catalog)
    ensures forall c :: c in r ==> r[c] == |KeysInCategory(catalog, c)|
    ensures forall c :: c in r ==> 1 <= r[c] <= |catalog|
  {
    var r := map c | c in Categories(catalog) :: |KeysInCategory(catalog, c)|;
    assert forall c :: c in r ==> 1 <= r[c] <= |catalog| by {
      forall c | c in r ensures 1 <= r[c] <= |catalog| {
        var k :| k in catalog && catalog[k].category == c;
        assert k in KeysInCategory(catalog, c);
        SubsetSize(KeysInCategory(catalog, c), catalog.Keys);
      }
    }
    r
  }

  /** The sum of a count map's values. */
  ghost function SumValues(m: map<string, nat>): nat
    decreases |m|
  {
    if m == map[] then 0
    else
      var c :| c in m;
      assert |m - {c}| < |m| by { assert (m - {c}).Keys == m.Keys - {c}; }
      m[c] + SumValues(m - {c})
  }

  /** The sum does not depend on which key is taken first. */
  lemma {:induction false} SumValuesRemove(m: map<string, nat>, c: string)
    requires c in m
    ensures SumValues(m) == m[c] + SumValues(m - {c})
    decreases |m|
  {
    var d :| d in m && SumValues(m) == m[d] + SumValues(m - {d});
    if d != c {
      assert (m - {d}).Keys == m.Keys - {d};
      assert (m - {c}).Keys == m.Keys - {c};
      SumValuesRemove(m - {d}, c);
      SumValuesRemove(m - {c}, d);
      assert m - {d} - {c} == m - {c} - {d};
    }
  }

  /** Removing entry `k` takes it out of its own category and of no other. */
  lemma KeysInCategoryRemove(catalog: map<string, Book>, k: string, d: string)
    requires k in catalog
    ensures KeysInCategory(catalog - {k}, d)
            == if d == catalog[k].category then KeysInCategory(catalog, d) - {k} else KeysInCategory(catalog, d)
  {
  }

  /** Removing entry `k` drops its category exactly when `k` was that
      category's only entry. */
  lemma CategoriesRemove(catalog: map<string, Book>, k: string)
    requires k in catalog
    ensures var c := catalog[k].category;
      Categories(catalog - {k})
      == if |KeysInCategory(catalog, c)| == 1 then Categories(catalog) - {c} else Categories(catalog)
  {
    var c := catalog[k].category;
    var rest := catalog - {k};
    var ks := KeysInCategory(catalog, c);
    assert k in ks;
    if |ks| == 1 {
      KeysInCategoryRemove(catalog, k, c);
      assert |ks - {k}| == 0;
      assert KeysInCategory(rest, c) == {};
      forall d | d in Categories(catalog) && d != c ensures d in Categories(rest) {
        var j :| j in catalog && catalog[j].category == d;
        assert j in rest;
      }
    } else {
      assert |ks - {k}| == |ks| - 1;
      var k2 :| k2 in ks - {k};
      assert k2 in rest;
      forall d | d in Categories(catalog) ensures d in Categories(rest) {
        var j :| j in catalog && catalog[j].category == d;
        if j == k {
          assert rest[k2].category == d;
        } else {
          assert j in rest;
        }
      }
    }
  }

  /** Removing one entry lowers its category's count by one, dropping
      the category when that was its last entry; every other count stays. */
  lemma CategoryCountsRemoveEntries(catalog: map<string, Book>, k: string)
    requires k in catalog
    ensures var m := CategoryCounts(catalog); var c := catalog[k].category;
      var m' := CategoryCounts(catalog - {k});
      && c in m
      && m'.Keys == (if m[c] == 1 then m.Keys - {c} else m.Keys)
      && forall d :: d in m' ==> m'[d] == if d == c then m[c] - 1 else m[d]
  {
    var m := CategoryCounts(catalog);
    var c := catalog[k].category;
    var m' := CategoryCounts(catalog - {k});
    assert c in m;
    CategoriesRemove(catalog, k);
    forall d | d in m'
      ensures m'[d] == if d == c then m[c] - 1 else m[d]
    {
      KeysInCategoryRemove(catalog, k, d);
      if d == c {
        assert k in KeysInCategory(catalog, c);
      }
    }
  }

  /** Lowering one count by one, dropping the key when its count was one,
      and keeping every other count, lowers the sum by one. */
  lemma SumValuesDecrement(m: map<string, nat>, m': map<string, nat>, c: string)
    requires c in m && m[c] >= 1
    requires m'.Keys == if m[c] == 1 then m.Keys - {c} else m.Keys
    requires forall d :: d in m' ==> m'[d] == if d == c then m[c] - 1 else m[d]
    ensures SumValues(m') == SumValues(m) - 1
  {
    SumValuesRemove(m, c);
    if m[c] == 1 {
      assert m' == m - {c};
    } else {
      SumValuesRemove(m', c);
      assert m' - {c} == m - {c};
    }
  }

  /** Removing one entry lowers the sum of the category counts by one. */
  lemma CategoryCountsSumRemove(catalog: map<string, Book>, k: string)
    requires k in catalog
    ensures SumValues(CategoryCounts(catalog - {k})) == SumValues(CategoryCounts(catalog)) - 1
  {
    CategoryCountsRemoveEntries(catalog, k);
    SumValuesDecrement(CategoryCounts(catalog), CategoryCounts(catalog - {k}), catalog[k].category);
  }

  /** Every catalog entry is counted under exactly one category: the
      category counts add up to the size of the catalog. */
  lemma {:induction false} CategoryCountsSum(catalog: map<string, Book>)
    ensures SumValues(CategoryCounts(catalog)) == |catalog|
    decreases |catalog|
  {
    if catalog == map[] {
      assert CategoryCounts(catalog) == map[];
    } else {
      var k :| k in catalog;
      var rest := catalog - {k};
      assert rest.Keys == catalog.Keys - {k};
      assert |rest| == |catalog| - 1;
      CategoryCountsSum(rest);
      CategoryCountsSumRemove(catalog, k);
    }
  }

  lemma {:induction false} SubsetSize<T>(a: set<T>, b: set<T>)
    requires a <= b
    ensures |a| <= |b|
    decreases b
  {
    if a != {} {
      var x :| x in a;
      SubsetSize(a - {x}, b - {x});
    }
  }

  /** `sub` occurs in `s` starting at index `i`. */
  predicate OccursAt(s: string, sub: string, i: int) {
    0 <= i <= |s| - |sub| && s[i..i + |sub|] == sub
  }

  /** `s.contains(sub)`. */
  predicate Contains(s: string, sub: string)
    ensures |sub| == 0 ==> Contains(s, sub)
    ensures Contains(s, sub) ==> |sub| <= |s|
    ensures Contains(s, sub) <== s == sub
  {
    assert |sub| == 0 || s == sub ==> OccursAt(s, sub, 0);
    exists i :: 0 <= i <= |s| - |sub| && OccursAt(s, sub, i)
  }

  /** `searchBooks(keyword)`: the books whose title, author or category,
      lower-cased, contains the lower-cased keyword. Case mapping is given
      as `lower`, standing for the locale-dependent `toLowerCase`. */
  function SearchBooks(catalog: map<string, Book>, keyword: string, lower: string -> string): (r: set<Book>)
    ensures r <= catalog.Values
    ensures forall k :: k in catalog && Contains(lower(catalog[k].title), lower(keyword)) ==> catalog[k] in r
    ensures forall k :: k in catalog && Contains(lower(catalog[k].author), lower(keyword)) ==> catalog[k] in r
    ensures forall k :: k in catalog && Contains(lower(catalog[k].category), lower(keyword)) ==> catalog[k] in r
    ensures forall b :: b in r ==>
      (exists k :: k in catalog && catalog[k] == b) &&
      (Contains(lower(b.title), lower(keyword)) || Contains(lower(b.author), lower(keyword))
       || Contains(lower(b.category), lower(keyword)))
  {
    var low := lower(keyword);
    set k | k in catalog && (Contains(lower(catalog[k].title), low) || Contains(lower(catalog[k].author), low)
                             || Contains(lower(catalog[k].category), low))
      :: catalog[k]
  }

  /** Every string contains the empty string, so when case mapping sends
      the keyword to "" the search returns the whole catalog. */
  lemma SearchEmptyKeywordFindsAll(catalog: map<string, Book>, keyword: string, lower: string -> string)
    requires lower(keyword) == ""
    ensures SearchBooks(catalog, keyword, lower) == catalog.Values
  {
    forall b | b in catalog.Values ensures b in SearchBooks(catalog, keyword, lower) {
      var k :| k in catalog && catalog[k] == b;
      assert OccursAt(lower(b.title), "", 0);
    }
  }
}
