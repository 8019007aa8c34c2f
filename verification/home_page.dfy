/**
  The home page: which notes the search keeps, how they are ordered by date,
  the sort-order toggle and which of the page's states is shown. Parsing a
  date string into a time is a parameter (`parseTime`).
 */
module HomePage {
  import opened Wrappers
  import opened Text
  import Seqs

  /** The fields of a listed note that the page reads. */
  datatype HomeNote = HomeNote(id: string, title: string, content: string,
                               date: Option<string>, timestamps: Option<string>)

  /** A JavaScript string value: `undefined` and "" are falsy. */
  predicate Truthy(s: Option<string>) {
    s.Some? && s.value != ""
  }

  /** The sort key of a note: the parsed `date`, else the parsed `timestamps`, else 0. */
  function SortKey(n: HomeNote, parseTime: string -> int): (k: int)
    ensures !Truthy(n.date) && !Truthy(n.timestamps) ==> k == 0
    ensures Truthy(n.date) ==> k == parseTime(n.date.value)
    ensures !Truthy(n.date) && Truthy(n.timestamps) ==> k == parseTime(n.timestamps.value)
  {
    if Truthy(n.date) || Truthy(n.timestamps) then
      parseTime(if Truthy(n.date) then n.date.value
                else if Truthy(n.timestamps) then n.timestamps.value else "")
    else 0
  }

  /** The search test: the lower-cased query occurs in the lower-cased title or content. */
  predicate Matches(n: HomeNote, query: string) {
    Includes(ToLower(n.title), ToLower(query)) || Includes(ToLower(n.content), ToLower(query))
  }

  /** `notes.filter(...)` with the search test. */
  function FilterNotes(notes: seq<HomeNote>, query: string): (r: seq<HomeNote>)
    ensures Seqs.IsSubsequence(r, notes)
    ensures forall n :: n in r <==> n in notes && Matches(n, query)
    // every kept note appears as often as in the input
    ensures forall n :: Matches(n, query) ==> multiset(r)[n] == multiset(notes)[n]
  {
    Seqs.Filter(notes, n => Matches(n, query))
  }

  /** An empty search keeps every note, in order. */
  lemma EmptyQueryKeepsAll(notes: seq<HomeNote>)
    ensures FilterNotes(notes, "") == notes
  {
    forall k | 0 <= k < |notes|
      ensures Matches(notes[k], "")
    {
      IncludesEmpty(ToLower(notes[k].title));
    }
    Seqs.FilterAll(notes, n => Matches(n, ""));
  }

  datatype SortOrder = Asc | Desc

  /** The page starts sorted newest first. */
  const DefaultOrder := Desc

  /** The sort button. */
  function Toggle(o: SortOrder): (r: SortOrder)
    ensures r != o
  {
    if o == Asc then Desc else Asc
  }

  lemma ToggleTwice(o: SortOrder)
    ensures Toggle(Toggle(o)) == o
  {
  }

  /** The comparator `dateA - dateB` (or its negation) orders by this rank, ascending. */
  function Rank(o: SortOrder, key: int): int {
    if o == Asc then key else -key
  }

  predicate SortedBy(s: seq<HomeNote>, rank: HomeNote -> int) {
    forall i, j :: 0 <= i < j < |s| ==> rank(s[i]) <= rank(s[j])
  }

  /** Inserts `x` into a rank-sorted list before the first element of larger rank, so after
      every element of equal rank. */
  function Insert(x: HomeNote, s: seq<HomeNote>, rank: HomeNote -> int): (r: seq<HomeNote>)
    requires SortedBy(s, rank)
    ensures SortedBy(r, rank)
    ensures multiset(r) == multiset(s) + multiset{x}
    ensures |r| == |s| + 1
    ensures forall i :: 0 <= i < |r| ==> r[i] == x || r[i] in s
  {
    if s == [] then [x]
    else if rank(x) < rank(s[0]) then [x] + s
    else
      var rest := Insert(x, s[1..], rank);
      assert s == [s[0]] + s[1..];
      HeadBelowAll(s, x, rest, rank);
      SortedCons(s[0], rest, rank);
      ConsMembers(s, x, rest);
      [s[0]] + rest
  }

  /** The head of a sorted list ranks at most every element of a list drawn from its tail
      and a larger-ranked `x`. */
  lemma HeadBelowAll(s: seq<HomeNote>, x: HomeNote, rest: seq<HomeNote>, rank: HomeNote -> int)
    requires SortedBy(s, rank) && s != [] && rank(s[0]) <= rank(x)
    requires forall i :: 0 <= i < |rest| ==> rest[i] == x || rest[i] in s[1..]
    ensures forall i :: 0 <= i < |rest| ==> rank(s[0]) <= rank(rest[i])
  {
    forall i | 0 <= i < |rest|
      ensures rank(s[0]) <= rank(rest[i])
    {
      if rest[i] != x {
        var k :| 0 <= k < |s[1..]| && s[1..][k] == rest[i];
        assert s[k + 1] == rest[i];
      }
    }
  }

  /** Putting the head of `s` back in front of a list drawn from its tail and `x` gives a
      list drawn from `s` and `x`, with the multiset of `s` plus `x`. */
  lemma ConsMembers(s: seq<HomeNote>, x: HomeNote, rest: seq<HomeNote>)
    requires s != [] && multiset(rest) == multiset(s[1..]) + multiset{x}
    requires forall i :: 0 <= i < |rest| ==> rest[i] == x || rest[i] in s[1..]
    ensures multiset([s[0]] + rest) == multiset(s) + multiset{x}
    ensures forall i :: 0 <= i < |[s[0]] + rest| ==> ([s[0]] + rest)[i] == x || ([s[0]] + rest)[i] in s
  {
    assert s == [s[0]] + s[1..];
    forall i | 0 <= i < |[s[0]] + rest|
      ensures ([s[0]] + rest)[i] == x || ([s[0]] + rest)[i] in s
    {
      if i > 0 {
        assert ([s[0]] + rest)[i] == rest[i - 1];
      }
    }
  }

  /** A rank-sorted list stays sorted under a new head of rank at most every element's. */
  lemma SortedCons(x: HomeNote, s: seq<HomeNote>, rank: HomeNote -> int)
    requires SortedBy(s, rank) && forall i :: 0 <= i < |s| ==> rank(x) <= rank(s[i])
    ensures SortedBy([x] + s, rank)
  {
    forall i, j | 0 <= i < j < |s| + 1
      ensures rank(([x] + s)[i]) <= rank(([x] + s)[j])
    {
      if i > 0 {
        assert ([x] + s)[i] == s[i - 1];
      }
      assert ([x] + s)[j] == s[j - 1];
    }
  }

  /** Sorting the notes by rank. */
  function SortBy(s: seq<HomeNote>, rank: HomeNote -> int): (r: seq<HomeNote>)
    ensures SortedBy(r, rank)
    ensures multiset(r) == multiset(s)
  {
    if s == [] then []
    else
      assert s == s[..|s| - 1] + [s[|s| - 1]];
      Insert(s[|s| - 1], SortBy(s[..|s| - 1], rank), rank)
  }

  /** A note ranked at least as high as every element of a sorted list goes after all of
      them, equal ranks included. */
  lemma {:induction false} InsertAtEnd(x: HomeNote, s: seq<HomeNote>, rank: HomeNote -> int)
    requires SortedBy(s, rank) && forall i :: 0 <= i < |s| ==> rank(s[i]) <= rank(x)
    ensures Insert(x, s, rank) == s + [x]
  {
    if s != [] {
      assert SortedBy(s[1..], rank);
      InsertAtEnd(x, s[1..], rank);
      assert s == [s[0]] + s[1..];
    }
  }

  /** A sorted list splits into a sorted front and a last element ranked at least as high as
      every element before it. */
  lemma SortedSplitLast(s: seq<HomeNote>, init: seq<HomeNote>, last: HomeNote, rank: HomeNote -> int)
    requires SortedBy(s, rank) && s == init + [last]
    ensures SortedBy(init, rank)
    ensures forall i :: 0 <= i < |init| ==> rank(init[i]) <= rank(last)
  {
    forall i, j | 0 <= i < j < |init|
      ensures rank(init[i]) <= rank(init[j])
    {
      assert init[i] == s[i] && init[j] == s[j];
    }
    forall i | 0 <= i < |init|
      ensures rank(init[i]) <= rank(last)
    {
      assert init[i] == s[i] && last == s[|init|];
    }
  }

  /** The sort is stable: a list already in rank order, in particular one whose ranks are all
      equal, comes back unchanged. */
  lemma {:induction false} SortedIsUnchanged(s: seq<HomeNote>, rank: HomeNote -> int)
    requires SortedBy(s, rank)
    ensures SortBy(s, rank) == s
  {
    if s != [] {
      var init, last := s[..|s| - 1], s[|s| - 1];
      assert s == init + [last];
      SortedSplitLast(s, init, last, rank);
      SortedIsUnchanged(init, rank);
      assert SortBy(s, rank) == Insert(last, SortBy(init, rank), rank);
      InsertAtEnd(last, init, rank);
    }
  }

  /** The test "has rank `k`". */
  function HasRank(rank: HomeNote -> int, k: int): HomeNote -> bool {
    n => rank(n) == k
  }

  /** No element of `s` has rank `k` when they all rank above it. */
  lemma NoneHasRank(s: seq<HomeNote>, rank: HomeNote -> int, k: int)
    requires forall i :: 0 <= i < |s| ==> k < rank(s[i])
    ensures Seqs.Filter(s, HasRank(rank, k)) == []
  {
  }

  /** Putting a note of rank below every other in front, instead of at the end, changes no
      rank class. */
  lemma FrontStable(x: HomeNote, s: seq<HomeNote>, rank: HomeNote -> int, k: int)
    requires forall i :: 0 <= i < |s| ==> rank(x) < rank(s[i])
    ensures Seqs.Filter([x] + s, HasRank(rank, k)) == Seqs.Filter(s + [x], HasRank(rank, k))
  {
    var p := HasRank(rank, k);
    Seqs.FilterAppend([x], s, p);
    Seqs.FilterAppend(s, [x], p);
    if rank(x) == k {
      NoneHasRank(s, rank, k);
    }
  }

  /** A common head keeps equal filter results equal. */
  lemma ConsFilter(h: HomeNote, a: seq<HomeNote>, b: seq<HomeNote>, p: HomeNote -> bool)
    requires Seqs.Filter(a, p) == Seqs.Filter(b, p)
    ensures Seqs.Filter([h] + a, p) == Seqs.Filter([h] + b, p)
  {
    Seqs.FilterAppend([h], a, p);
    Seqs.FilterAppend([h], b, p);
  }

  /** Inserting after the elements of equal rank keeps every rank class in arrival order. */
  lemma {:induction false} InsertStable(x: HomeNote, s: seq<HomeNote>, rank: HomeNote -> int, k: int)
    requires SortedBy(s, rank)
    ensures Seqs.Filter(Insert(x, s, rank), HasRank(rank, k)) == Seqs.Filter(s + [x], HasRank(rank, k))
  {
    if s == [] {
      assert s + [x] == [x];
    } else if rank(x) < rank(s[0]) {
      forall i | 0 <= i < |s|
        ensures rank(x) < rank(s[i])
      {
        if i > 0 {
          assert rank(s[0]) <= rank(s[i]);
        }
      }
      FrontStable(x, s, rank, k);
    } else {
      assert s + [x] == [s[0]] + (s[1..] + [x]) by {
        assert s == [s[0]] + s[1..];
      }
      assert SortedBy(s[1..], rank);
      InsertStable(x, s[1..], rank, k);
      ConsFilter(s[0], Insert(x, s[1..], rank), s[1..] + [x], HasRank(rank, k));
    }
  }

  /** The sort is stable: the elements of each rank come out in their input order. */
  lemma {:induction false} SortByStable(s: seq<HomeNote>, rank: HomeNote -> int, k: int)
    ensures Seqs.Filter(SortBy(s, rank), HasRank(rank, k)) == Seqs.Filter(s, HasRank(rank, k))
  {
    if s != [] {
      var p := HasRank(rank, k);
      var init, last := s[..|s| - 1], s[|s| - 1];
      assert s == init + [last];
      assert SortBy(s, rank) == Insert(last, SortBy(init, rank), rank);
      InsertStable(last, SortBy(init, rank), rank, k);
      SortByStable(init, rank, k);
      Seqs.FilterAppend(SortBy(init, rank), [last], p);
      Seqs.FilterAppend(init, [last], p);
    }
  }

  /** The test "has sort key `k`". */
  function HasKey(k: int, parseTime: string -> int): HomeNote -> bool {
    n => SortKey(n, parseTime) == k
  }

  /** Notes with equal sort keys keep their relative order, in either direction. */
  lemma SortNotesStable(notes: seq<HomeNote>, o: SortOrder, parseTime: string -> int, k: int)
    ensures Seqs.Filter(SortNotes(notes, o, parseTime), HasKey(k, parseTime))
         == Seqs.Filter(notes, HasKey(k, parseTime))
  {
    var rank := n => Rank(o, SortKey(n, parseTime));
    var sorted := SortBy(notes, rank);
    SortByStable(notes, rank, Rank(o, k));
    Seqs.FilterSameTest(sorted, HasRank(rank, Rank(o, k)), HasKey(k, parseTime));
    Seqs.FilterSameTest(notes, HasRank(rank, Rank(o, k)), HasKey(k, parseTime));
  }

  /** `filteredNotes.sort(...)`: a permutation, ordered by key ascending for "asc" and
      descending for "desc". */
  function SortNotes(notes: seq<HomeNote>, o: SortOrder, parseTime: string -> int): (r: seq<HomeNote>)
    ensures multiset(r) == multiset(notes)
    ensures o == Asc ==> forall i, j :: 0 <= i < j < |r| ==>
      SortKey(r[i], parseTime) <= SortKey(r[j], parseTime)
    ensures o == Desc ==> forall i, j :: 0 <= i < j < |r| ==>
      SortKey(r[i], parseTime) >= SortKey(r[j], parseTime)
  {
    SortBy(notes, n => Rank(o, SortKey(n, parseTime)))
  }

  /** Notes whose sort keys are all equal, as when none carries `date` or `timestamps`, keep
      their order in either direction. */
  lemma EqualKeysKeepOrder(notes: seq<HomeNote>, o: SortOrder, parseTime: string -> int)
    requires forall i, j :: 0 <= i < j < |notes| ==> SortKey(notes[i], parseTime) == SortKey(notes[j], parseTime)
    ensures SortNotes(notes, o, parseTime) == notes
  {
    var rank := n => Rank(o, SortKey(n, parseTime));
    assert SortedBy(notes, rank);
    SortedIsUnchanged(notes, rank);
  }

  /** What the page shows, in the order of its early returns. */
  datatype HomeView =
    | SignInPrompt
    | LoadingNotes
    | LoadError
    | EmptyState
    | Grid(cards: seq<HomeNote>)

  /** The page for a query result: `notes` is `data?.data?.notes`, `None` when absent. */
  function View(isAuthenticated: bool, isLoading: bool, failed: bool, notes: Option<seq<HomeNote>>,
                query: string, o: SortOrder, parseTime: string -> int): (v: HomeView)
    ensures !isAuthenticated <==> v.SignInPrompt?
    ensures v.LoadingNotes? <==> isAuthenticated && isLoading
    ensures v.LoadError? <==> isAuthenticated && !isLoading && failed
    ensures v.Grid? <==> isAuthenticated && !isLoading && !failed && notes.GetOr([]) != []
    ensures v.EmptyState? <==>
      isAuthenticated && !isLoading && !failed && notes.GetOr([]) == []
    ensures v.Grid? ==>
      && notes.Some? && notes.value != []
      && multiset(v.cards) == multiset(FilterNotes(notes.value, query))
      && (forall n :: n in v.cards <==> n in notes.value && Matches(n, query))
      && v.cards == SortNotes(FilterNotes(notes.value, query), o, parseTime)
      && (o == Asc ==> forall i, j :: 0 <= i < j < |v.cards| ==>
            SortKey(v.cards[i], parseTime) <= SortKey(v.cards[j], parseTime))
      && (o == Desc ==> forall i, j :: 0 <= i < j < |v.cards| ==>
            SortKey(v.cards[i], parseTime) >= SortKey(v.cards[j], parseTime))
  {
    if !isAuthenticated then SignInPrompt
    else if isLoading then LoadingNotes
    else if failed then LoadError
    else
      var all := notes.GetOr([]);
      if |all| == 0 then EmptyState
      else
        SortedMatches(all, query, o, parseTime);
        Grid(SortNotes(FilterNotes(all, query), o, parseTime))
  }

  /** The sorted search results hold exactly the matching notes. */
  lemma SortedMatches(notes: seq<HomeNote>, query: string, o: SortOrder, parseTime: string -> int)
    ensures forall n :: n in SortNotes(FilterNotes(notes, query), o, parseTime) <==> n in notes && Matches(n, query)
  {
    var filtered := FilterNotes(notes, query);
    var sorted := SortNotes(filtered, o, parseTime);
    assert forall n :: n in sorted <==> n in multiset(sorted);
    assert forall n :: n in filtered <==> n in multiset(filtered);
  }

  /** A search that matches nothing shows an empty grid, not the empty state. */
  lemma NoMatchesIsEmptyGrid(notes: seq<HomeNote>, query: string, o: SortOrder, parseTime: string -> int)
    requires notes != [] && forall k :: 0 <= k < |notes| ==> !Matches(notes[k], query)
    ensures View(true, false, false, Some(notes), query, o, parseTime) == Grid([])
  {
    var filtered := FilterNotes(notes, query);
    assert filtered == [];
    assert multiset(SortNotes(filtered, o, parseTime)) == multiset{};
  }
}
