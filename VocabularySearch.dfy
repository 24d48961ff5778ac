/** The vocabulary search of EnglishFlow's study categories: the cards of the
    active category whose English text or translation contains the search
    term, both sides lowered; the "Conversar" category shows no cards. */
module VocabularySearch {
  import opened Text

  /** A vocabulary card. */
  datatype Item = Item(english: string, translation: string)

  /** The category that opens the chat instead of a card list. */
  const Conversar: string := "Conversar"

  /** The test the filter applies to one card. */
  predicate Matches(item: Item, term: string) {
    || Contains(ToLowerCase(item.english), ToLowerCase(term))
    || Contains(ToLowerCase(item.translation), ToLowerCase(term))
  }

  /** a is b with some elements left out, the rest kept in order. */
  predicate IsSubsequence<T(==)>(a: seq<T>, b: seq<T>)
    decreases |b|
  {
    if a == [] then true
    else if b == [] then false
    else if a[0] == b[0] then IsSubsequence(a[1..], b[1..])
    else IsSubsequence(a, b[1..])
  }

  /** `items.filter(item => ...)`: the matching cards, in their order. */
  function Filter(items: seq<Item>, term: string): (r: seq<Item>)
    ensures |r| <= |items|
    ensures forall k | 0 <= k < |r| :: Matches(r[k], term)
  {
    if items == [] then []
    else if Matches(items[0], term) then [items[0]] + Filter(items[1..], term)
    else Filter(items[1..], term)
  }

  /** The `filteredData` expression. The category's cards are looked up in
      `contentData`; a category that is not a key there makes the lookup
      undefined and `.filter` throw, which is None here. */
  function FilteredData(activeCategory: string, contentData: map<string, seq<Item>>, searchTerm: string)
    : (r: Option<seq<Item>>)
    ensures activeCategory == Conversar ==> r == Some([])
    ensures activeCategory != Conversar ==> (r.Some? <==> activeCategory in contentData)
    ensures r.Some? && activeCategory != Conversar ==>
      && IsSubsequence(r.value, contentData[activeCategory])
      && (forall x | x in r.value :: Matches(x, searchTerm))
      && (forall x | x in contentData[activeCategory] && Matches(x, searchTerm) :: x in r.value)
  {
    if activeCategory == Conversar then Some([])
    else if activeCategory !in contentData then None
    else
      var items := contentData[activeCategory];
      FilterIsSubsequence(items, searchTerm);
      FilterComplete(items, searchTerm);
      Some(Filter(items, searchTerm))
  }

  /** The filter keeps its cards in their order: a subsequence of the input. */
  lemma {:induction false} FilterIsSubsequence(items: seq<Item>, term: string)
    ensures IsSubsequence(Filter(items, term), items)
  {
    if items != [] {
      FilterIsSubsequence(items[1..], term);
      var rest := Filter(items[1..], term);
      if Matches(items[0], term) {
        assert Filter(items, term) == [items[0]] + rest;
        assert ([items[0]] + rest)[1..] == rest;
      } else {
        SubsequenceOfTail(rest, items);
      }
    }
  }

  /** Dropping the first element of the longer sequence keeps a subsequence. */
  lemma {:induction false} SubsequenceOfTail<T>(a: seq<T>, b: seq<T>)
    requires b != [] && IsSubsequence(a, b[1..])
    ensures IsSubsequence(a, b)
    decreases |b|, 0
  {
    if a != [] && a[0] == b[0] {
      SubsequenceDropHead(a, b[1..]);
    }
  }

  /** A subsequence stays one when its own first element is dropped. */
  lemma {:induction false} SubsequenceDropHead<T>(a: seq<T>, b: seq<T>)
    requires a != [] && IsSubsequence(a, b)
    ensures IsSubsequence(a[1..], b)
    decreases |b|, 1
  {
    assert b != [];
    if a[0] == b[0] {
      SubsequenceOfTail(a[1..], b);
    } else {
      SubsequenceDropHead(a, b[1..]);
      SubsequenceOfTail(a[1..], b);
    }
  }

  /** Every element of a subsequence is an element of the sequence. */
  lemma {:induction false} SubsequenceMembers<T>(a: seq<T>, b: seq<T>)
    requires IsSubsequence(a, b)
    ensures forall x | x in a :: x in b
    decreases |b|
  {
    if a != [] {
      assert b != [];
      if a[0] == b[0] {
        SubsequenceMembers(a[1..], b[1..]);
        assert forall x | x in a :: x == a[0] || x in a[1..];
      } else {
        SubsequenceMembers(a, b[1..]);
      }
    }
  }

  /** Soundness: every card shown comes from the category and matches the term. */
  lemma FilterSound(items: seq<Item>, term: string)
    ensures forall x | x in Filter(items, term) :: x in items && Matches(x, term)
  {
    FilterIsSubsequence(items, term);
    SubsequenceMembers(Filter(items, term), items);
  }

  /** Completeness: every matching card of the category is shown. */
  lemma {:induction false} FilterComplete(items: seq<Item>, term: string)
    ensures forall x | x in items && Matches(x, term) :: x in Filter(items, term)
  {
    if items != [] {
      FilterComplete(items[1..], term);
      assert forall x | x in items :: x == items[0] || x in items[1..];
    }
  }

  /** The filter works card by card: it distributes over concatenation. */
  lemma {:induction false} FilterAppend(a: seq<Item>, b: seq<Item>, term: string)
    ensures Filter(a + b, term) == Filter(a, term) + Filter(b, term)
  {
    if a == [] {
      assert a + b == b;
    } else {
      assert (a + b)[0] == a[0];
      assert (a + b)[1..] == a[1..] + b;
      FilterAppend(a[1..], b, term);
    }
  }

  /** Each card is shown as often as it occurs in the category when it
      matches, and never otherwise. */
  lemma {:induction false} FilterCounts(items: seq<Item>, term: string, x: Item)
    ensures multiset(Filter(items, term))[x] == if Matches(x, term) then multiset(items)[x] else 0
  {
    if items != [] {
      FilterCounts(items[1..], term, x);
      assert items == [items[0]] + items[1..];
      assert multiset(items) == multiset([items[0]]) + multiset(items[1..]);
    }
  }

  /** The empty string occurs in every text. */
  lemma ContainsEmpty(s: string)
    ensures Contains(s, [])
  {
    assert OccursAt(s, [], 0);
  }

  /** An empty search shows every card of the category. */
  lemma {:induction false} EmptyTermKeepsAll(items: seq<Item>)
    ensures Filter(items, "") == items
  {
    if items != [] {
      ContainsEmpty(ToLowerCase(items[0].english));
      assert ToLowerCase("") == "";
      EmptyTermKeepsAll(items[1..]);
    }
  }

  /** The search ignores the case of the term: typing it in capitals shows
      the same cards. */
  lemma {:induction false} TermCaseIgnored(items: seq<Item>, term: string)
    ensures Filter(items, term) == Filter(items, ToLowerCase(term))
  {
    ToLowerCaseIdempotent(term);
    if items != [] {
      TermCaseIgnored(items[1..], term);
    }
  }

  /** Typing more narrows the list: a term whose lowered form contains the
      lowered shorter term shows a subsequence of what the shorter one showed. */
  lemma {:induction false} RefinedTermNarrows(items: seq<Item>, shorter: string, longer: string)
    requires Contains(ToLowerCase(longer), ToLowerCase(shorter))
    ensures IsSubsequence(Filter(items, longer), Filter(items, shorter))
  {
    if items != [] {
      RefinedTermNarrows(items[1..], shorter, longer);
      var x := items[0];
      var restLonger := Filter(items[1..], longer);
      var restShorter := Filter(items[1..], shorter);
      if Matches(x, longer) {
        MatchesWeaker(x, shorter, longer);
        assert Filter(items, longer) == [x] + restLonger;
        assert Filter(items, shorter) == [x] + restShorter;
        assert ([x] + restLonger)[1..] == restLonger;
        assert ([x] + restShorter)[1..] == restShorter;
      } else if Matches(x, shorter) {
        assert Filter(items, shorter) == [x] + restShorter;
        assert ([x] + restShorter)[1..] == restShorter;
        SubsequenceOfTail(restLonger, [x] + restShorter);
      }
    }
  }

  /** A card that matches a longer term matches every term it contains. */
  lemma MatchesWeaker(x: Item, shorter: string, longer: string)
    requires Contains(ToLowerCase(longer), ToLowerCase(shorter))
    requires Matches(x, longer)
    ensures Matches(x, shorter)
  {
    if Contains(ToLowerCase(x.english), ToLowerCase(longer)) {
      ContainsTransitive(ToLowerCase(x.english), ToLowerCase(longer), ToLowerCase(shorter));
    } else {
      ContainsTransitive(ToLowerCase(x.translation), ToLowerCase(longer), ToLowerCase(shorter));
    }
  }

  /** Searching the list again for the same term changes nothing. */
  lemma {:induction false} FilterIdempotent(items: seq<Item>, term: string)
    ensures Filter(Filter(items, term), term) == Filter(items, term)
  {
    if items != [] {
      FilterIdempotent(items[1..], term);
      var rest := Filter(items[1..], term);
      if Matches(items[0], term) {
        assert Filter(items, term) == [items[0]] + rest;
        assert ([items[0]] + rest)[0] == items[0];
        assert ([items[0]] + rest)[1..] == rest;
      }
    }
  }
}
