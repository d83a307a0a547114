/**
 * Value-level specification of the Go Fish card operations: cards, the
 * rank order table, order-preserving filters, the insertion-sort function
 * that the in-place sort is proved against, and the bookkeeping of books
 * (four cards of one rank).
 */
module Hands {

  /**
   * A rank, identified by its position in `Player.rank_order` (0 for "2"
   * up to 12 for "A"); a suit, by its position in `Deck.suits`.
   */
  newtype Rank = r: int | 0 <= r < 13
  newtype Suit = s: int | 0 <= s < 4

  datatype Card = Card(rank: Rank, suit: Suit)

  /** `Deck.ranks`: the strings the game uses for ranks, which are also what a player types. */
  const RankNames: seq<string> := ["2", "3", "4", "5", "6", "7", "8", "9", "10", "J", "Q", "K", "A"]
  /** `Deck.suits`. */
  const SuitNames: seq<string> := ["Hearts", "Diamonds", "Clubs", "Spades"]

  function RankName(r: Rank): string {
    RankNames[r]
  }

  /** `rank_order[card.rank]`: the card's place in the sort. */
  function Key(c: Card): nat {
    c.rank as nat
  }

  function SuitName(s: Suit): string {
    SuitNames[s]
  }

  /** The deck as built before shuffling: for each suit, every rank in order. */
  function StandardDeck(): seq<Card> {
    seq(52, i requires 0 <= i < 52 => Card((i % 13) as Rank, (i / 13) as Suit))
  }

  /** Card `i` of the unshuffled deck is rank `i % 13` of suit `i / 13`, in the order of the two name lists. */
  lemma StandardDeckOrder(i: nat)
    requires i < 52
    ensures |StandardDeck()| == 52
    ensures RankName(StandardDeck()[i].rank) == RankNames[i % 13]
    ensures SuitName(StandardDeck()[i].suit) == SuitNames[i / 13]
  {
  }

  predicate SortedByRank(s: seq<Card>) {
    forall i, j :: 0 <= i < j < |s| ==> Key(s[i]) <= Key(s[j])
  }

  // ---------------------------------------------------------------------
  // Filters: Python's list comprehensions `[c for c in s if ...]`
  // ---------------------------------------------------------------------

  /**
   * The conditions the game filters a hand by. A rank asked for by a player
   * is any string, so it is compared by name; the ranks of the book tally
   * are ranks the hand holds, so they are compared as ranks.
   */
  datatype Criterion =
    | NamedRank(name: string)      // `card.rank == rank`, `rank` typed by a player
    | NotNamedRank(name: string)   // `card.rank != rank`, likewise
    | OfRank(r: Rank)              // `card.rank == rank` for a rank of the tally
    | NotOfRank(r: Rank)           // `card.rank != rank`, likewise
    | RankNotIn(rs: set<Rank>)     // the cards left after laying down the books `rs`

  predicate Holds(p: Criterion, c: Card) {
    match p
    case NamedRank(name) => RankName(c.rank) == name
    case NotNamedRank(name) => RankName(c.rank) != name
    case OfRank(r) => c.rank == r
    case NotOfRank(r) => c.rank != r
    case RankNotIn(rs) => c.rank !in rs
  }

  /** `q` keeps exactly the cards `p` drops. */
  predicate Complement(p: Criterion, q: Criterion) {
    || (p.NamedRank? && q == NotNamedRank(p.name))
    || (p.OfRank? && q == NotOfRank(p.r))
  }

  /** The cards of `s` satisfying `p`, in their original order. */
  function Filter(s: seq<Card>, p: Criterion): (r: seq<Card>)
    ensures |r| <= |s|
  {
    if s == [] then []
    else Filter(s[..|s| - 1], p) + (if Holds(p, s[|s| - 1]) then [s[|s| - 1]] else [])
  }

  lemma FilterAppend(s: seq<Card>, x: Card, p: Criterion)
    ensures Filter(s + [x], p) == Filter(s, p) + (if Holds(p, x) then [x] else [])
  {
    assert (s + [x])[..|s|] == s;
  }

  /** `t` occurs in `s` in order, possibly with gaps. */
  predicate IsSubsequence(t: seq<Card>, s: seq<Card>) {
    if t == [] then true
    else if s == [] then false
    else
      (t[|t| - 1] == s[|s| - 1] && IsSubsequence(t[..|t| - 1], s[..|s| - 1]))
      || IsSubsequence(t, s[..|s| - 1])
  }

  /** A filter keeps exactly the members satisfying `p`. */
  lemma {:induction false} FilterMembers(s: seq<Card>, p: Criterion)
    ensures forall c :: c in Filter(s, p) <==> c in s && Holds(p, c)
  {
    if s != [] {
      var init, x := s[..|s| - 1], s[|s| - 1];
      assert s == init + [x];
      FilterMembers(init, p);
      FilterAppend(init, x, p);
    }
  }

  /** A filter every card passes keeps the whole hand. */
  lemma {:induction false} FilterKeepsAll(s: seq<Card>, p: Criterion)
    requires forall c :: c in s ==> Holds(p, c)
    ensures Filter(s, p) == s
  {
    if s != [] {
      var init := s[..|s| - 1];
      assert s == init + [s[|s| - 1]];
      FilterKeepsAll(init, p);
    }
  }

  /** A filter keeps the original order of the cards it keeps. */
  lemma {:induction false} FilterIsSubsequence(s: seq<Card>, p: Criterion)
    ensures IsSubsequence(Filter(s, p), s)
  {
    if s != [] {
      var init, x := s[..|s| - 1], s[|s| - 1];
      FilterIsSubsequence(init, p);
      var f := Filter(init, p);
      if Holds(p, x) {
        assert Filter(s, p) == f + [x];
        assert (f + [x])[..|f|] == f;
      } else {
        assert Filter(s, p) == f;
      }
    }
  }

  /** Splitting a hand on a rank loses and invents no card. */
  lemma {:induction false} FilterSplit(s: seq<Card>, p: Criterion, q: Criterion)
    requires Complement(p, q)
    ensures multiset(Filter(s, p)) + multiset(Filter(s, q)) == multiset(s)
    ensures |Filter(s, p)| + |Filter(s, q)| == |s|
  {
    if s != [] {
      var init, x := s[..|s| - 1], s[|s| - 1];
      assert s == init + [x];
      FilterSplit(init, p, q);
      assert Holds(p, x) <==> !Holds(q, x);
      if Holds(p, x) {
        assert Filter(s, p) == Filter(init, p) + [x] && Filter(s, q) == Filter(init, q);
      } else {
        assert Filter(s, p) == Filter(init, p) && Filter(s, q) == Filter(init, q) + [x];
      }
    }
  }

  /** A filtered sorted hand is sorted. */
  lemma {:induction false} FilterSorted(s: seq<Card>, p: Criterion)
    requires SortedByRank(s)
    ensures SortedByRank(Filter(s, p))
  {
    if s != [] {
      var init, x := s[..|s| - 1], s[|s| - 1];
      assert s == init + [x];
      assert SortedByRank(init) by {
        forall i, j | 0 <= i < j < |init| ensures Key(init[i]) <= Key(init[j]) {
          assert init[i] == s[i] && init[j] == s[j];
        }
      }
      FilterSorted(init, p);
      FilterAppend(init, x, p);
      var g := Filter(init, p);
      if Holds(p, x) {
        FilterMembers(init, p);
        forall i | 0 <= i < |g| ensures Key(g[i]) <= Key(x) {
          assert g[i] in init;
          var k :| 0 <= k < |init| && init[k] == g[i];
          assert s[k] == g[i];
        }
        var f := g + [x];
        assert Filter(s, p) == f;
        forall i, j | 0 <= i < j < |f| ensures Key(f[i]) <= Key(f[j]) {
          if j < |g| {
            assert f[i] == g[i] && f[j] == g[j];
          }
        }
      }
    }
  }

  // ---------------------------------------------------------------------
  // Insertion sort as a function (the in-place method is proved equal to it)
  // ---------------------------------------------------------------------

  /**
   * Insert `c` into `s` just after the last card whose key is not greater
   * than `c`'s: the backward scan that shifts only on a strict `>`.
   */
  function Insert(s: seq<Card>, c: Card): (r: seq<Card>)
    ensures |r| == |s| + 1
  {
    if s == [] || Key(s[|s| - 1]) <= Key(c) then s + [c]
    else Insert(s[..|s| - 1], c) + [s[|s| - 1]]
  }

  /** Sort `s` by inserting its cards one after another, left to right. */
  function InsertionSorted(s: seq<Card>): seq<Card> {
    if s == [] then []
    else Insert(InsertionSorted(s[..|s| - 1]), s[|s| - 1])
  }

  /** Inserting adds exactly the one card. */
  lemma {:induction false} InsertIsPermutation(s: seq<Card>, c: Card)
    ensures multiset(Insert(s, c)) == multiset(s) + multiset{c}
  {
    if s != [] && Key(s[|s| - 1]) > Key(c) {
      var init := s[..|s| - 1];
      assert s == init + [s[|s| - 1]];
      InsertIsPermutation(init, c);
    }
  }

  lemma {:induction false} InsertSorted(s: seq<Card>, c: Card)
    requires SortedByRank(s)
    ensures SortedByRank(Insert(s, c))
  {
    if s != [] && Key(s[|s| - 1]) > Key(c) {
      var init, last := s[..|s| - 1], s[|s| - 1];
      assert s == init + [last];
      InsertSorted(init, c);
      InsertIsPermutation(init, c);
      var t := Insert(init, c);
      forall x | x in t ensures Key(x) <= Key(last) {
        assert x in multiset(t);
      }
      AppendLargestSorted(t, last);
    }
  }

  /** A sorted hand stays sorted when a card ranked at least as high as all of it is added last. */
  lemma AppendLargestSorted(t: seq<Card>, last: Card)
    requires SortedByRank(t)
    requires forall x :: x in t ==> Key(x) <= Key(last)
    ensures SortedByRank(t + [last])
  {
    var r := t + [last];
    forall i, j | 0 <= i < j < |r| ensures Key(r[i]) <= Key(r[j]) {
      assert r[i] == t[i];
      if j < |t| {
        assert r[j] == t[j];
      }
    }
  }

  /** When the last card outranks `c`, it stays last. */
  lemma InsertLast(s: seq<Card>, c: Card)
    requires s != [] && Key(s[|s| - 1]) > Key(c)
    ensures Insert(s, c) == Insert(s[..|s| - 1], c) + [s[|s| - 1]]
  {
  }

  /** Inserting `c` appends it to the cards of its own rank and leaves every other rank's cards alone. */
  lemma {:induction false} InsertKeepsRankOrder(s: seq<Card>, c: Card, r: Rank)
    ensures Filter(Insert(s, c), OfRank(r)) == Filter(s, OfRank(r)) + (if c.rank == r then [c] else [])
  {
    if s == [] || Key(s[|s| - 1]) <= Key(c) {
      FilterAppend(s, c, OfRank(r));
    } else {
      var init, last := s[..|s| - 1], s[|s| - 1];
      assert s == init + [last];
      var t := Insert(init, c);
      InsertKeepsRankOrder(init, c, r);
      FilterAppend(t, last, OfRank(r));
      FilterAppend(init, last, OfRank(r));
      var a := Filter(init, OfRank(r));
      if c.rank == r {
        assert !Holds(OfRank(r), last);
        assert Filter(Insert(s, c), OfRank(r)) == a + [c];
        assert Filter(s, OfRank(r)) == a;
      } else {
        assert Filter(t, OfRank(r)) == a;
      }
    }
  }

  /** The result of sorting is in rank order. */
  lemma {:induction false} InsertionSortedIsSorted(s: seq<Card>)
    ensures SortedByRank(InsertionSorted(s))
  {
    if s != [] {
      InsertionSortedIsSorted(s[..|s| - 1]);
      InsertSorted(InsertionSorted(s[..|s| - 1]), s[|s| - 1]);
    }
  }

  /** Sorting neither loses nor invents a card. */
  lemma {:induction false} InsertionSortedIsPermutation(s: seq<Card>)
    ensures multiset(InsertionSorted(s)) == multiset(s) && |InsertionSorted(s)| == |s|
  {
    if s != [] {
      var init := s[..|s| - 1];
      assert s == init + [s[|s| - 1]];
      InsertionSortedIsPermutation(init);
      InsertIsPermutation(InsertionSorted(init), s[|s| - 1]);
    }
    assert |InsertionSorted(s)| == |multiset(InsertionSorted(s))|;
  }

  /** Stability: for every rank, the cards of that rank keep their relative order. */
  lemma {:induction false} InsertionSortedIsStable(s: seq<Card>, r: Rank)
    ensures Filter(InsertionSorted(s), OfRank(r)) == Filter(s, OfRank(r))
  {
    if s != [] {
      var init, last := s[..|s| - 1], s[|s| - 1];
      assert s == init + [last];
      InsertionSortedIsStable(init, r);
      InsertKeepsRankOrder(InsertionSorted(init), last, r);
      FilterAppend(init, last, OfRank(r));
    }
  }

  /** Sorting a hand already in rank order leaves it as it is. */
  lemma {:induction false} InsertionSortedOfSorted(s: seq<Card>)
    requires SortedByRank(s)
    ensures InsertionSorted(s) == s
  {
    if s != [] {
      var init, last := s[..|s| - 1], s[|s| - 1];
      assert SortedByRank(init) by {
        forall i, j | 0 <= i < j < |init| ensures Key(init[i]) <= Key(init[j]) {
          assert init[i] == s[i] && init[j] == s[j];
        }
      }
      InsertionSortedOfSorted(init);
      assert s == init + [last];
    }
  }

  /**
   * Re-sorting after each added card is sorting all the cards once: the hand
   * sorted after every draw is the sort of everything drawn.
   */
  lemma InsertionSortedAppend(s: seq<Card>, c: Card)
    ensures InsertionSorted(InsertionSorted(s) + [c]) == InsertionSorted(s + [c])
  {
    var t := InsertionSorted(s);
    InsertionSortedIsSorted(s);
    InsertionSortedOfSorted(t);
    assert (s + [c])[..|s|] == s;
    assert (t + [c])[..|t|] == t;
  }

  // ---------------------------------------------------------------------
  // Ranks in a hand and books
  // ---------------------------------------------------------------------

  /** Python's `any(card.rank == rank for card in hand)`, scanning from the front. */
  function AnyOfRank(s: seq<Card>, name: string): (b: bool)
    ensures b <==> exists i :: 0 <= i < |s| && RankName(s[i].rank) == name
  {
    if s == [] then false
    else if RankName(s[0].rank) == name then true
    else
      var b := AnyOfRank(s[1..], name);
      assert b ==> exists i :: 1 <= i < |s| && RankName(s[i].rank) == name by {
        if b {
          var i :| 0 <= i < |s[1..]| && RankName(s[1..][i].rank) == name;
          assert s[i + 1] == s[1..][i];
        }
      }
      b
  }

  /** Asking for a rank succeeds exactly when removing that rank hands over some card. */
  lemma AnyOfRankIffCards(s: seq<Card>, name: string)
    ensures AnyOfRank(s, name) <==> Filter(s, NamedRank(name)) != []
  {
    FilterMembers(s, NamedRank(name));
    if AnyOfRank(s, name) {
      var i :| 0 <= i < |s| && RankName(s[i].rank) == name;
      assert s[i] in Filter(s, NamedRank(name));
    }
  }

  /** What `remove_cards_by_rank` hands over and what it keeps. */
  lemma RemoveByRankSplit(s: seq<Card>, name: string)
    ensures forall c :: c in Filter(s, NamedRank(name)) ==> RankName(c.rank) == name
    ensures forall c :: c in Filter(s, NotNamedRank(name)) ==> RankName(c.rank) != name
    ensures multiset(Filter(s, NamedRank(name))) + multiset(Filter(s, NotNamedRank(name))) == multiset(s)
    ensures IsSubsequence(Filter(s, NamedRank(name)), s) && IsSubsequence(Filter(s, NotNamedRank(name)), s)
  {
    FilterMembers(s, NamedRank(name));
    FilterMembers(s, NotNamedRank(name));
    FilterSplit(s, NamedRank(name), NotNamedRank(name));
    FilterIsSubsequence(s, NamedRank(name));
    FilterIsSubsequence(s, NotNamedRank(name));
  }

  /** No two ranks share a name, so tallying by name and tallying by rank agree. */
  lemma RankNamesDistinct(r1: Rank, r2: Rank)
    ensures RankName(r1) == RankName(r2) <==> r1 == r2
  {
    if r1 != r2 {
      assert RankName(r1) != RankName(r2) by {
        if |RankName(r1)| == |RankName(r2)| {
          assert RankName(r1)[0] != RankName(r2)[0];
        }
      }
    }
  }

  /**
   * The ranks of `s`, each once, in the order they first occur: the order in
   * which a dictionary keyed by rank, filled from `s`, iterates.
   */
  function FirstSeen(s: seq<Card>): seq<Rank> {
    if s == [] then []
    else
      var f := FirstSeen(s[..|s| - 1]);
      if s[|s| - 1].rank in f then f else f + [s[|s| - 1].rank]
  }

  /** A rank seen earlier in the hand is listed earlier: the ranks of a prefix are a prefix of the ranks. */
  lemma {:induction false} FirstSeenPrefix(s: seq<Card>, i: nat)
    requires i <= |s|
    ensures FirstSeen(s[..i]) <= FirstSeen(s)
  {
    if i < |s| {
      FirstSeenPrefix(s[..|s| - 1], i);
      assert s[..|s| - 1][..i] == s[..i];
    } else {
      assert s[..i] == s;
    }
  }

  /** How many cards of rank `r` the hand holds (the tally of `check_for_books`). */
  function CountRank(s: seq<Card>, r: Rank): nat {
    |Filter(s, OfRank(r))|
  }

  /** The ranks held exactly four times: the books `check_for_books` completes. */
  function BookRanks(s: seq<Card>): set<Rank> {
    set c | c in s && CountRank(s, c.rank) == 4 :: c.rank
  }

  /** A rank has a positive count exactly when some card of the hand has it. */
  lemma CountRankPositive(s: seq<Card>, r: Rank)
    ensures CountRank(s, r) > 0 <==> exists c :: c in s && c.rank == r
  {
    FilterMembers(s, OfRank(r));
    if CountRank(s, r) > 0 {
      assert Filter(s, OfRank(r))[0] in Filter(s, OfRank(r));
    }
  }

  /** Removing other ranks does not change which cards of rank `r` remain. */
  lemma {:induction false} FilterOtherRanksKeepsCount(s: seq<Card>, d: set<Rank>, r: Rank)
    requires r !in d
    ensures Filter(Filter(s, RankNotIn(d)), OfRank(r)) == Filter(s, OfRank(r))
  {
    if s != [] {
      var init, x := s[..|s| - 1], s[|s| - 1];
      assert s == init + [x];
      FilterOtherRanksKeepsCount(init, d, r);
      var f := Filter(init, RankNotIn(d));
      FilterAppend(init, x, RankNotIn(d));
      FilterAppend(init, x, OfRank(r));
      if x.rank in d {
        assert Filter(s, RankNotIn(d)) == f;
      } else {
        assert Filter(s, RankNotIn(d)) == f + [x];
        FilterAppend(f, x, OfRank(r));
      }
    }
  }

  /** Removing one more rank is removing the enlarged set of ranks. */
  lemma {:induction false} FilterRanksStep(s: seq<Card>, d: set<Rank>, r: Rank)
    ensures Filter(Filter(s, RankNotIn(d)), NotOfRank(r)) == Filter(s, RankNotIn(d + {r}))
  {
    if s != [] {
      var init, x := s[..|s| - 1], s[|s| - 1];
      assert s == init + [x];
      FilterRanksStep(init, d, r);
      var f := Filter(init, RankNotIn(d));
      FilterAppend(init, x, RankNotIn(d));
      FilterAppend(init, x, RankNotIn(d + {r}));
      if x.rank in d {
        assert Filter(s, RankNotIn(d)) == f;
      } else {
        assert Filter(s, RankNotIn(d)) == f + [x];
        FilterAppend(f, x, NotOfRank(r));
      }
    }
  }

  /**
   * Laying down the book of rank `r`, after the books of `d`, removes its
   * four cards and keeps the hand sorted.
   */
  lemma LayDownBook(s: seq<Card>, d: set<Rank>, r: Rank)
    requires r !in d && CountRank(s, r) == 4
    ensures var hand := Filter(s, RankNotIn(d));
      && Filter(hand, NotOfRank(r)) == Filter(s, RankNotIn(d + {r}))
      && |Filter(hand, NotOfRank(r))| == |hand| - 4
      && (SortedByRank(hand) ==> SortedByRank(Filter(hand, NotOfRank(r))))
  {
    var hand := Filter(s, RankNotIn(d));
    FilterOtherRanksKeepsCount(s, d, r);
    FilterSplit(hand, OfRank(r), NotOfRank(r));
    FilterRanksStep(s, d, r);
    if SortedByRank(hand) {
      FilterSorted(hand, NotOfRank(r));
    }
  }

  /** After the books are laid down no rank is held four times: checking again finds nothing. */
  lemma BooksIdempotent(s: seq<Card>)
    ensures BookRanks(Filter(s, RankNotIn(BookRanks(s)))) == {}
  {
    var b := BookRanks(s);
    var rest := Filter(s, RankNotIn(b));
    FilterMembers(s, RankNotIn(b));
    forall c | c in rest ensures CountRank(rest, c.rank) != 4 {
      FilterOtherRanksKeepsCount(s, b, c.rank);
    }
  }

  /** The hand once its books are laid down. */
  function AfterBooks(s: seq<Card>): seq<Card> {
    Filter(s, RankNotIn(BookRanks(s)))
  }

  /** Laying down books a second time finds none and leaves the hand as it is. */
  lemma AfterBooksIdempotent(s: seq<Card>)
    ensures BookRanks(AfterBooks(s)) == {} && AfterBooks(AfterBooks(s)) == AfterBooks(s)
  {
    BooksIdempotent(s);
    FilterKeepsAll(AfterBooks(s), RankNotIn({}));
  }
}
