/**
 * The Go Fish game's objects: a deck popped from its end, players whose
 * hands are kept sorted by rank with an in-place insertion sort, and the
 * game's dealing, end test and turn rotation. Input, printing and the
 * shuffle are not modelled; the shuffled deck is a constructor argument.
 */
module GoFish {
  import opened Optional
  import opened Hands

  class Deck {
    var cards: seq<Card>

    /** A fresh deck holding `shuffled`, which is any ordering of the 52 standard cards. */
    constructor (shuffled: seq<Card>)
      requires multiset(shuffled) == multiset(StandardDeck())
      ensures cards == shuffled && |cards| == 52
    {
      cards := shuffled;
      assert |shuffled| == |multiset(shuffled)| == |multiset(StandardDeck())|;
    }

    /** Take the top (last) card, or `None` when the deck is empty. */
    method Draw() returns (card: Option<Card>)
      modifies this
      ensures old(cards) == [] ==> card == None && cards == []
      ensures old(cards) != [] ==>
        card == Some(old(cards)[|old(cards)| - 1]) && cards == old(cards)[..|old(cards)| - 1]
    {
      if |cards| > 0 {
        card := Some(cards[|cards| - 1]);
        cards := cards[..|cards| - 1];
      } else {
        card := None;
      }
    }
  }

  class Player {
    const name: string
    var hand: seq<Card>
    var books: nat

    /** The hand is kept in rank order. */
    ghost predicate Valid()
      reads this
    {
      SortedByRank(hand)
    }

    constructor (name: string)
      ensures Valid() && this.name == name && hand == [] && books == 0
    {
      this.name := name;
      hand := [];
      books := 0;
    }

    /** Draw the deck's top card, if any, into the hand and re-sort the hand. */
    method DrawCard(deck: Deck)
      requires Valid()
      modifies this, deck
      ensures Valid() && books == old(books)
      ensures old(deck.cards) == [] ==> hand == old(hand) && deck.cards == []
      ensures old(deck.cards) != [] ==>
        var top := old(deck.cards)[|old(deck.cards)| - 1];
        && deck.cards == old(deck.cards)[..|old(deck.cards)| - 1]
        && hand == InsertionSorted(old(hand) + [top])
        && multiset(hand) == multiset(old(hand)) + multiset{top}
        && |hand| == |old(hand)| + 1
    {
      var card := deck.Draw();
      if card.Some? {
        ReceiveCards([card.value]);
      }
    }

    /** Add `cards` to the end of the hand and re-sort it, as `draw_card` and `play_turn` do. */
    method ReceiveCards(cards: seq<Card>)
      requires Valid()
      modifies this
      ensures Valid() && books == old(books)
      ensures hand == InsertionSorted(old(hand) + cards)
      ensures multiset(hand) == multiset(old(hand)) + multiset(cards)
      ensures |hand| == |old(hand)| + |cards|
    {
      ghost var joined := hand + cards;
      hand := SortInPlace(hand + cards);
      InsertionSortedIsSorted(joined);
      InsertionSortedIsPermutation(joined);
    }

    /** Hand over every card of `rank`, keeping the rest. */
    method RemoveCardsByRank(rank: string) returns (matching: seq<Card>)
      requires Valid()
      modifies this
      ensures Valid() && books == old(books)
      ensures matching == Filter(old(hand), NamedRank(rank))
      ensures hand == Filter(old(hand), NotNamedRank(rank))
      ensures forall c :: c in matching ==> RankName(c.rank) == rank
      ensures forall c :: c in hand ==> RankName(c.rank) != rank
      ensures multiset(matching) + multiset(hand) == multiset(old(hand))
      ensures IsSubsequence(matching, old(hand)) && IsSubsequence(hand, old(hand))
    {
      RemoveByRankSplit(hand, rank);
      FilterSorted(hand, NotNamedRank(rank));
      matching := Filter(hand, NamedRank(rank));
      hand := Filter(hand, NotNamedRank(rank));
    }

    function HasRank(rank: string): (b: bool)
      reads this
      ensures b <==> exists i :: 0 <= i < |hand| && RankName(hand[i].rank) == rank
    {
      AnyOfRank(hand, rank)
    }

    /** Lay down every rank held exactly four times, one book per rank. */
    method CheckForBooks()
      requires Valid()
      modifies this
      ensures Valid()
      ensures books == old(books) + |BookRanks(old(hand))|
      ensures hand == Filter(old(hand), RankNotIn(BookRanks(old(hand))))
      ensures |hand| + 4 * books == old(|hand|) + 4 * old(books)
    {
      var rankCount, ranks := TallyRanks(hand);
      var cards, laid := LayDownBooks(hand, rankCount, ranks);
      FoursAreBooks(hand, rankCount, ranks);
      hand, books := cards, books + laid;
    }

    /** Run the in-place sort on an array holding `h`, as `insertion_sort(self.hand)` does to the list. */
    method SortInPlace(h: seq<Card>) returns (sorted: seq<Card>)
      ensures sorted == InsertionSorted(h)
    {
      var a := new Card[|h|](i requires 0 <= i < |h| => h[i]);
      assert a[..] == h;
      InsertionSort(a);
      sorted := a[..];
    }

    /**
     * Sort `cards` in place: each card is moved left past every card of a
     * strictly higher rank, so equal ranks keep their order.
     */
    method InsertionSort(cards: array<Card>)
      modifies cards
      ensures cards[..] == InsertionSorted(old(cards[..]))
    {
      ghost var s := cards[..];
      var i := 1;
      while i < cards.Length
        invariant 1 <= i
        invariant cards.Length == 0 || i <= cards.Length
        invariant cards.Length > 0 ==> cards[..i] == InsertionSorted(s[..i])
        invariant cards.Length > 0 ==> cards[i..] == s[i..]
      {
        assert cards[i] == s[i];
        SinkCard(cards, i);
        InsertionSortedStep(s, i);
        assert cards[i + 1..] == s[i + 1..];
        i := i + 1;
      }
      if cards.Length > 0 {
        assert cards[..] == cards[..i] && s == s[..i];
      }
    }

    /**
     * One pass of the outer loop: `cards[i]` is carried left past every
     * card of a higher rank before it, which shift one place right.
     */
    method SinkCard(cards: array<Card>, i: nat)
      requires i < cards.Length
      modifies cards
      ensures cards[..i + 1] == Insert(old(cards[..i]), old(cards[i]))
      ensures cards[i + 1..] == old(cards[i + 1..])
    {
      var keyCard := cards[i];
      var j := i - 1;
      ghost var prefix := cards[..i];
      ghost var rest := cards[i + 1..];
      while j >= 0 && Key(cards[j]) > Key(keyCard)
        invariant -1 <= j <= i - 1
        invariant forall m {:trigger cards[m]} :: 0 <= m <= j ==> cards[m] == prefix[m]
        invariant forall m {:trigger cards[m]} :: j + 2 <= m <= i ==> cards[m] == prefix[m - 1]
        invariant forall m :: j + 1 <= m < i ==> Key(prefix[m]) > Key(keyCard)
        invariant cards[i + 1..] == rest
      {
        cards[j + 1] := cards[j];
        j := j - 1;
      }
      cards[j + 1] := keyCard;
      Placed(cards[..], prefix, j, keyCard);
      InsertAt(prefix, j + 1, keyCard);
      assert cards[..][..|prefix| + 1] == cards[..i + 1];
    }
  }

  /**
   * `rankCount` is the tally of `s` by rank, and `ranks` lists its ranks
   * once each, in the order they were first seen (the order the dictionary
   * iterates in).
   */
  ghost predicate Tallied(s: seq<Card>, rankCount: map<Rank, nat>, ranks: seq<Rank>) {
    Counted(s, rankCount, ranks) && ranks == FirstSeen(s)
  }

  /** `rankCount` is the tally of `s` by rank, and `ranks` lists its ranks once each, in any order. */
  ghost predicate Counted(s: seq<Card>, rankCount: map<Rank, nat>, ranks: seq<Rank>) {
    && (forall r :: r in rankCount <==> r in ranks)
    && (forall r :: r in rankCount <==> CountRank(s, r) > 0)
    && (forall r :: r in rankCount ==> rankCount[r] == CountRank(s, r))
    && (forall a, b :: 0 <= a < b < |ranks| ==> ranks[a] != ranks[b])
  }

  /** The first loop of `check_for_books`: count the cards of each rank. */
  method TallyRanks(hand: seq<Card>) returns (rankCount: map<Rank, nat>, ranks: seq<Rank>)
    ensures Tallied(hand, rankCount, ranks)
  {
    rankCount := map[];
    ranks := [];
    for i := 0 to |hand|
      invariant Tallied(hand[..i], rankCount, ranks)
    {
      var r := hand[i].rank;
      var count := if r in rankCount then rankCount[r] else 0;
      TallyStep(hand, i, rankCount, ranks);
      if count == 0 {
        ranks := ranks + [r];
      }
      rankCount := rankCount[r := count + 1];
    }
    assert hand[..|hand|] == hand;
  }

  /** Tallying one more card counts it under its rank, listing the rank if it is new. */
  lemma TallyStep(h: seq<Card>, i: nat, rankCount: map<Rank, nat>, ranks: seq<Rank>)
    requires i < |h| && Tallied(h[..i], rankCount, ranks)
    ensures var x := h[i];
      var count := if x.rank in rankCount then rankCount[x.rank] else 0;
      Tallied(h[..i + 1], rankCount[x.rank := count + 1], if count == 0 then ranks + [x.rank] else ranks)
  {
    var s, x := h[..i], h[i];
    assert h[..i + 1] == s + [x];
    assert (s + [x])[..|s|] == s;
    forall q ensures CountRank(s + [x], q) == CountRank(s, q) + (if q == x.rank then 1 else 0) {
      FilterAppend(s, x, OfRank(q));
    }
  }

  /**
   * The second loop of `check_for_books`: walk the tally and drop every
   * rank counted four times from the hand. Gives the hand that is left and
   * the number of books laid down.
   */
  method LayDownBooks(hand: seq<Card>, rankCount: map<Rank, nat>, ranks: seq<Rank>)
    returns (cards: seq<Card>, laid: nat)
    requires SortedByRank(hand) && Counted(hand, rankCount, ranks)
    ensures cards == Filter(hand, RankNotIn(Fours(ranks, rankCount)))
    ensures laid == |Fours(ranks, rankCount)|
    ensures |cards| + 4 * laid == |hand|
    ensures SortedByRank(cards)
  {
    cards, laid := hand, 0;
    ghost var done: set<Rank> := {};
    FilterKeepsAll(hand, RankNotIn(done));
    for k := 0 to |ranks|
      invariant done == Fours(ranks[..k], rankCount)
      invariant cards == Filter(hand, RankNotIn(done))
      invariant laid == |done|
      invariant |cards| + 4 * |done| == |hand|
      invariant SortedByRank(cards)
    {
      var r := ranks[k];
      FoursStep(ranks, k, rankCount);
      if rankCount[r] == 4 {
        LayDownBook(hand, done, r);
        laid := laid + 1;
        cards := Filter(cards, NotOfRank(r));
        done := done + {r};
      }
    }
    assert ranks[..|ranks|] == ranks;
  }

  /** The ranks among `rs` tallied exactly four times. */
  ghost function Fours(rs: seq<Rank>, rankCount: map<Rank, nat>): set<Rank> {
    set r | r in rs && r in rankCount && rankCount[r] == 4
  }

  /** Looking at one more listed rank adds it to the books found so far if it was tallied four times. */
  lemma FoursStep(ranks: seq<Rank>, k: nat, rankCount: map<Rank, nat>)
    requires k < |ranks| && ranks[k] in rankCount
    requires forall a, b :: 0 <= a < b < |ranks| ==> ranks[a] != ranks[b]
    ensures ranks[k] !in Fours(ranks[..k], rankCount)
    ensures Fours(ranks[..k + 1], rankCount)
      == Fours(ranks[..k], rankCount) + (if rankCount[ranks[k]] == 4 then {ranks[k]} else {})
  {
    assert ranks[..k + 1] == ranks[..k] + [ranks[k]];
  }

  /** Over the whole tally, the ranks counted four times are the hand's books. */
  lemma FoursAreBooks(h: seq<Card>, rankCount: map<Rank, nat>, ranks: seq<Rank>)
    requires Counted(h, rankCount, ranks)
    ensures Fours(ranks, rankCount) == BookRanks(h)
  {
    forall r ensures r in Fours(ranks, rankCount) <==> r in BookRanks(h) {
      CountRankPositive(h, r);
      if r in BookRanks(h) {
        var c :| c in h && CountRank(h, c.rank) == 4 && c.rank == r;
      }
    }
  }

  /** The layout the inner loop leaves: the scanned cards shifted one place right, `key` in the gap. */
  lemma Placed(a: seq<Card>, prefix: seq<Card>, j: int, key: Card)
    requires -1 <= j < |prefix| < |a|
    requires forall m :: 0 <= m <= j ==> a[m] == prefix[m]
    requires a[j + 1] == key
    requires forall m {:trigger a[m]} :: j + 2 <= m <= |prefix| ==> a[m] == prefix[m - 1]
    ensures a[..|prefix| + 1] == prefix[..j + 1] + [key] + prefix[j + 1..]
  {
  }

  /**
   * Where the backward scan stops, at `p`, every card from `p` on outranks
   * `key` and the card before `p` (if any) does not: `key` goes at `p`.
   */
  lemma {:induction false} InsertAt(prefix: seq<Card>, p: nat, key: Card)
    requires p <= |prefix|
    requires forall m :: p <= m < |prefix| ==> Key(prefix[m]) > Key(key)
    requires p == 0 || Key(prefix[p - 1]) <= Key(key)
    ensures Insert(prefix, key) == prefix[..p] + [key] + prefix[p..]
    decreases |prefix| - p
  {
    if p < |prefix| {
      var init := prefix[..|prefix| - 1];
      assert init[..p] == prefix[..p];
      InsertAt(init, p, key);
      InsertLast(prefix, key);
      assert prefix[p..] == init[p..] + [prefix[|prefix| - 1]];
    }
  }

  /** Sorting one more card of the input is inserting it into the sorted prefix. */
  lemma InsertionSortedStep(s: seq<Card>, i: nat)
    requires i < |s|
    ensures InsertionSorted(s[..i + 1]) == Insert(InsertionSorted(s[..i]), s[i])
  {
    assert s[..i + 1][..i] == s[..i];
  }

  /** True when every player's hand is empty (Python's `all(...)` over the players). */
  function AllHandsEmpty(players: seq<Player>): (b: bool)
    reads players
    ensures b <==> forall i :: 0 <= i < |players| ==> players[i].hand == []
  {
    if players == [] then true
    else players[0].hand == [] && AllHandsEmpty(players[1..])
  }

  /** Cards each player is dealt: seven for up to three players, five otherwise. */
  function CardsPerPlayer(n: nat): nat {
    if n <= 3 then 7 else 5
  }

  /** The player after `i` in seating order: whose turn is next, and whom `i` asks. */
  function NextTurn(i: nat, n: nat): (j: nat)
    requires i < n
    ensures j < n
    ensures j == if i + 1 < n then i + 1 else 0
  {
    (i + 1) % n
  }

  /** The turn index after `k` advances from index `i`. */
  function AfterTurns(i: nat, k: nat, n: nat): (j: nat)
    requires i < n
    ensures j < n
  {
    if k == 0 then i else NextTurn(AfterTurns(i, k - 1, n), n)
  }

  /** Within one round, advancing `k` times moves `k` seats round the table, wrapping past the last seat. */
  lemma {:induction false} AfterTurnsInRound(i: nat, k: nat, n: nat)
    requires i < n && k <= n
    ensures AfterTurns(i, k, n) == if i + k < n then i + k else i + k - n
  {
    if k > 0 {
      AfterTurnsInRound(i, k - 1, n);
    }
  }

  /** Within `n` turns every one of the `n` players has had the turn. */
  lemma EveryPlayerGetsATurn(i: nat, n: nat, p: nat)
    requires i < n && p < n
    ensures exists k: nat :: k < n && AfterTurns(i, k, n) == p
  {
    var k := if i <= p then p - i else p + n - i;
    AfterTurnsInRound(i, k, n);
  }

  /** After a full round of `n` turns the turn is back with the same player. */
  lemma FullRoundReturns(i: nat, n: nat)
    requires i < n
    ensures AfterTurns(i, n, n) == i
  {
    AfterTurnsInRound(i, n, n);
  }

  /** With two players or more, the player asked is never the one asking. */
  lemma OpponentIsOther(i: nat, n: nat)
    requires i < n
    ensures NextTurn(i, n) != i <==> n >= 2
  {
  }

  /** A fresh 52-card deck deals every player a full hand exactly when there are at most ten players. */
  lemma FullDealFits(n: nat)
    requires n > 0
    ensures CardsPerPlayer(n) * n <= 52 <==> n <= 10
  {
    if n > 10 {
      assert CardsPerPlayer(n) * n == 5 * n;
    }
  }

  /** The cards a player accounts for: those in hand and four for every book laid down. */
  ghost function Held(p: Player): nat
    reads p
  {
    |p.hand| + 4 * p.books
  }

  /** The hand after drawing the top of `deck` (its end), if there is one, and sorting it in. */
  function AfterDraw(hand: seq<Card>, deck: seq<Card>): seq<Card> {
    if deck == [] then hand else InsertionSorted(hand + [deck[|deck| - 1]])
  }

  /**
   * The asker's hand in `play_turn` just before the final lay-down of books,
   * from its hand `mine`, the asked player's hand `theirs` and the deck:
   * when the asked player holds `rank`, its cards of that rank are appended
   * and the hand sorted (if the asker asked itself, its own cards of `rank`
   * move to the end first); otherwise the asker has drawn from the deck.
   */
  function Gathered(mine: seq<Card>, theirs: seq<Card>, deck: seq<Card>, rank: string, asksSelf: bool): seq<Card> {
    if !AnyOfRank(theirs, rank) then AfterDraw(mine, deck)
    else if asksSelf then InsertionSorted(Filter(mine, NotNamedRank(rank)) + Filter(mine, NamedRank(rank)))
    else InsertionSorted(mine + Filter(theirs, NamedRank(rank)))
  }

  class GoFishGame {
    var players: seq<Player>
    var deck: Deck
    var currentPlayerIndex: nat

    ghost predicate Valid()
      reads this, deck, players
    {
      && (forall i :: 0 <= i < |players| ==> players[i].Valid())
      && (forall i, j :: 0 <= i < j < |players| ==> players[i] != players[j])
      && (currentPlayerIndex < |players| || currentPlayerIndex == 0)
    }

    /** A game for the named players, with an empty hand each, over the shuffled deck. */
    constructor (names: seq<string>, shuffled: seq<Card>)
      requires multiset(shuffled) == multiset(StandardDeck())
      ensures Valid() && fresh(deck) && deck.cards == shuffled && currentPlayerIndex == 0
      ensures |players| == |names|
      ensures forall i :: 0 <= i < |players| ==>
        fresh(players[i]) && players[i].name == names[i] && players[i].hand == [] && players[i].books == 0
    {
      var ps: seq<Player> := [];
      for k := 0 to |names|
        invariant |ps| == k
        invariant forall i :: 0 <= i < k ==>
          fresh(ps[i]) && ps[i].Valid() && ps[i].name == names[i] && ps[i].hand == [] && ps[i].books == 0
        invariant forall i, j :: 0 <= i < j < k ==> ps[i] != ps[j]
      {
        var p := new Player(names[k]);
        ps := ps + [p];
      }
      players := ps;
      deck := new Deck(shuffled);
      currentPlayerIndex := 0;
    }

    /**
     * Deal round by round, one card to each player per round: seven rounds
     * for up to three players, five otherwise. Seat `i` ends up with its old
     * hand and the cards `DealtCards` gives it, sorted; books are unchanged.
     */
    method Deal()
      requires Valid()
      modifies deck, players
      ensures Valid()
      ensures deck.cards == Remaining(old(deck.cards), CardsPerPlayer(|players|) * |players|)
      ensures forall i :: 0 <= i < |players| ==>
        && players[i].books == old(players[i].books)
        && players[i].hand
          == InsertionSorted(old(players[i].hand) + DealtCards(old(deck.cards), |players|, i, CardsPerPlayer(|players|)))
    {
      var n := |players|;
      var cardsPerPlayer := CardsPerPlayer(n);
      ghost var d := deck.cards;
      var ps := players;
      ghost var start := seq(n, i requires 0 <= i < n reads ps => ps[i].hand);
      ghost var books := seq(n, i requires 0 <= i < n reads ps => ps[i].books);
      forall i | 0 <= i < n ensures players[i].hand == InsertionSorted(start[i] + DealtCards(d, n, i, 0)) {
        assert start[i] + [] == start[i];
        InsertionSortedOfSorted(start[i]);
      }
      for round := 0 to cardsPerPlayer
        invariant Valid()
        invariant deck.cards == Remaining(d, round * n)
        invariant forall i :: 0 <= i < n ==>
          players[i].books == books[i] && players[i].hand == InsertionSorted(start[i] + DealtCards(d, n, i, round))
      {
        DealBound(round, n, cardsPerPlayer);
        DealRound(d, round, start, books);
      }
    }

    /**
     * One round of the deal, the `round`-th from the deck `d`: each player in
     * seating order draws the top card, so seat `i` gets the card `i` places
     * from the top of what is left, while cards last. `start` and `books` are
     * the hands and book counts before the deal.
     */
    method DealRound(ghost d: seq<Card>, ghost round: nat, ghost start: seq<seq<Card>>, ghost books: seq<nat>)
      requires Valid() && |start| == |books| == |players|
      requires deck.cards == Remaining(d, round * |players|)
      requires forall i :: 0 <= i < |players| ==>
        players[i].books == books[i] && players[i].hand == InsertionSorted(start[i] + DealtCards(d, |players|, i, round))
      modifies deck, players
      ensures Valid()
      ensures deck.cards == Remaining(d, round * |players| + |players|)
      ensures forall i :: 0 <= i < |players| ==>
        players[i].books == books[i] && players[i].hand == InsertionSorted(start[i] + DealtCards(d, |players|, i, round + 1))
    {
      var n := |players|;
      ghost var left := deck.cards;
      ghost var cur := seq(n, i requires 0 <= i < n => InsertionSorted(start[i] + DealtCards(d, n, i, round)));
      ghost var next := seq(n, i requires 0 <= i < n => InsertionSorted(start[i] + DealtCards(d, n, i, round + 1)));
      for k := 0 to n
        invariant Valid()
        invariant deck.cards == Remaining(left, k)
        invariant forall i :: 0 <= i < n ==> players[i].books == books[i]
        invariant forall i :: 0 <= i < k ==> players[i].hand == next[i]
        invariant forall i :: k <= i < n ==> players[i].hand == cur[i]
      {
        SeatNext(start[k], d, n, k, round, left, cur[k], next[k]);
        DealSeat(k, left, next[k]);
      }
      RemainingRemaining(d, round * n, n);
    }

    /** What is left after `k` draws from `left`: its top card is the `k`-th from the top of `left`. */
    static lemma TopOfLeft(left: seq<Card>, k: nat)
      requires k < |left|
      ensures
        var rest := Remaining(left, k);
        && rest != [] && rest[|rest| - 1] == left[|left| - 1 - k]
        && rest[..|rest| - 1] == Remaining(left, k + 1)
    {
    }

    /**
     * Seat `k`'s draw in a round of the deal, from `left`, what the earlier
     * rounds left of the deck: the card `k` places from its top joins the
     * hand, which becomes `next`, or once the deck is used up nothing changes.
     */
    method DealSeat(k: nat, ghost left: seq<Card>, ghost next: seq<Card>)
      requires Valid() && k < |players|
      requires deck.cards == Remaining(left, k)
      requires k < |left| ==> next == InsertionSorted(players[k].hand + [left[|left| - 1 - k]])
      requires |left| <= k ==> next == players[k].hand
      modifies deck, players[k]
      ensures Valid() && players[k].books == old(players[k].books)
      ensures forall i :: 0 <= i < |players| && i != k ==>
        players[i].hand == old(players[i].hand) && players[i].books == old(players[i].books)
      ensures deck.cards == Remaining(left, k + 1)
      ensures players[k].hand == next
    {
      if k < |left| {
        TopOfLeft(left, k);
      }
      players[k].DrawCard(deck);
    }

    /** `go_fish`: the player draws from the deck, then lays down any book. */
    method GoFish(player: Player)
      requires player.Valid()
      modifies player, deck
      ensures player.Valid()
      ensures deck.cards == if old(deck.cards) == [] then [] else old(deck.cards)[..|old(deck.cards)| - 1]
      ensures Held(player) + |deck.cards| == old(Held(player) + |deck.cards|)
      ensures
        var drawn := AfterDraw(old(player.hand), old(deck.cards));
        player.hand == AfterBooks(drawn) && player.books == old(player.books) + |BookRanks(drawn)|
    {
      player.DrawCard(deck);
      player.CheckForBooks();
    }

    /**
     * `play_turn` for the current player, who asks the next player in
     * seating order for `rank` (the string typed at the prompt). If the
     * opponent holds that rank it hands over every such card, which join the
     * asker's hand and are sorted in; otherwise the asker goes fishing.
     * Either way the asker then lays down any book. No card is created or
     * lost: what the two hold, as cards or books, plus the deck is unchanged.
     */
    method PlayTurn(rank: string)
      requires Valid() && |players| > 0
      modifies deck, players
      ensures Valid()
      ensures forall j :: 0 <= j < |players| && j != currentPlayerIndex && j != Opponent() ==>
        players[j].hand == old(players[j].hand) && players[j].books == old(players[j].books)
      ensures old(players[Opponent()].HasRank(rank)) ==> deck.cards == old(deck.cards)
      ensures old(players[Opponent()].HasRank(rank)) && Opponent() != currentPlayerIndex ==>
        !players[Opponent()].HasRank(rank)
      ensures !old(players[Opponent()].HasRank(rank)) ==>
        deck.cards == if old(deck.cards) == [] then [] else old(deck.cards)[..|old(deck.cards)| - 1]
      ensures Opponent() != currentPlayerIndex ==>
        Held(players[currentPlayerIndex]) + Held(players[Opponent()]) + |deck.cards|
          == old(Held(players[currentPlayerIndex]) + Held(players[Opponent()]) + |deck.cards|)
      ensures Opponent() == currentPlayerIndex ==>
        Held(players[currentPlayerIndex]) + |deck.cards| == old(Held(players[currentPlayerIndex]) + |deck.cards|)
      ensures
        var me, them := players[currentPlayerIndex], players[Opponent()];
        var gathered := Gathered(old(me.hand), old(them.hand), old(deck.cards), rank, Opponent() == currentPlayerIndex);
        me.hand == AfterBooks(gathered) && me.books == old(me.books) + |BookRanks(gathered)|
      ensures Opponent() != currentPlayerIndex ==>
        var them := players[Opponent()];
        && them.books == old(them.books)
        && them.hand == if old(AnyOfRank(them.hand, rank)) then Filter(old(them.hand), NotNamedRank(rank)) else old(them.hand)
    {
      var player := players[currentPlayerIndex];
      var opponent := players[Opponent()];
      assert forall j :: 0 <= j < |players| && j != currentPlayerIndex && j != Opponent() ==>
        players[j] != player && players[j] != opponent;
      AskAndLayDown(player, opponent, rank);
    }

    /** The body of `play_turn` once the two players are chosen. */
    method AskAndLayDown(player: Player, opponent: Player, rank: string)
      requires player.Valid() && opponent.Valid()
      modifies player, opponent, deck
      ensures player.Valid() && opponent.Valid()
      ensures old(opponent.HasRank(rank)) ==> deck.cards == old(deck.cards)
      ensures old(opponent.HasRank(rank)) && opponent != player ==> !opponent.HasRank(rank)
      ensures !old(opponent.HasRank(rank)) ==>
        deck.cards == if old(deck.cards) == [] then [] else old(deck.cards)[..|old(deck.cards)| - 1]
      ensures opponent != player ==>
        Held(player) + Held(opponent) + |deck.cards| == old(Held(player) + Held(opponent) + |deck.cards|)
      ensures opponent == player ==> Held(player) + |deck.cards| == old(Held(player) + |deck.cards|)
      ensures
        var gathered := Gathered(old(player.hand), old(opponent.hand), old(deck.cards), rank, opponent == player);
        player.hand == AfterBooks(gathered) && player.books == old(player.books) + |BookRanks(gathered)|
      ensures opponent != player ==>
        && opponent.books == old(opponent.books)
        && opponent.hand == if old(AnyOfRank(opponent.hand, rank)) then Filter(old(opponent.hand), NotNamedRank(rank)) else old(opponent.hand)
    {
      ghost var gathered := Gathered(player.hand, opponent.hand, deck.cards, rank, opponent == player);
      ghost var books := player.books;
      if opponent.HasRank(rank) {
        TakeCards(player, opponent, rank);
        assert player.hand == gathered && player.books == books;
      } else {
        GoFish(player);
        assert player.hand == AfterBooks(gathered) && player.books == books + |BookRanks(gathered)|;
        AfterBooksIdempotent(gathered);
      }
      player.CheckForBooks();
    }

    /** The index of the player the current player asks: the next one in seating order. */
    function Opponent(): (o: nat)
      reads this
      requires |players| > 0 && currentPlayerIndex < |players|
      ensures o < |players|
    {
      NextTurn(currentPlayerIndex, |players|)
    }

    /**
     * The successful ask of `play_turn`: `opponent` hands over its cards of
     * `rank`, which join `player`'s hand and are sorted in.
     */
    method TakeCards(player: Player, opponent: Player, rank: string)
      requires player.Valid() && opponent.Valid()
      modifies player, opponent
      ensures player.Valid() && opponent.Valid()
      ensures player.books == old(player.books) && opponent.books == old(opponent.books)
      ensures opponent != player ==> !opponent.HasRank(rank)
      ensures opponent != player ==>
        && multiset(player.hand) == old(multiset(player.hand) + multiset(Filter(opponent.hand, NamedRank(rank))))
        && opponent.hand == Filter(old(opponent.hand), NotNamedRank(rank))
      ensures opponent != player ==> Held(player) + Held(opponent) == old(Held(player) + Held(opponent))
      ensures opponent == player ==> multiset(player.hand) == old(multiset(player.hand)) && Held(player) == old(Held(player))
      ensures opponent != player ==>
        player.hand == InsertionSorted(old(player.hand) + Filter(old(opponent.hand), NamedRank(rank)))
      ensures opponent == player ==>
        player.hand == InsertionSorted(Filter(old(player.hand), NotNamedRank(rank)) + Filter(old(player.hand), NamedRank(rank)))
    {
      ghost var before := opponent.hand;
      var cards := opponent.RemoveCardsByRank(rank);
      assert |cards| + |opponent.hand| == |before| by {
        FilterSplit(before, NamedRank(rank), NotNamedRank(rank));
      }
      player.ReceiveCards(cards);
    }

    /** The game is over when the deck is empty or nobody holds a card. */
    function CheckGameEnd(): (over: bool)
      reads this, deck, players
      ensures over <==> |deck.cards| == 0 || forall i :: 0 <= i < |players| ==> players[i].hand == []
    {
      |deck.cards| == 0 || AllHandsEmpty(players)
    }

    /** Pass the turn to the next player in seating order. */
    method AdvanceTurn()
      requires Valid() && |players| > 0
      modifies this`currentPlayerIndex
      ensures Valid()
      ensures currentPlayerIndex == NextTurn(old(currentPlayerIndex), |players|)
    {
      currentPlayerIndex := (currentPlayerIndex + 1) % |players|;
    }
  }

  /** The card `k` places from the top of the deck `d` (its end), if the deck reaches that far. */
  function CardAt(d: seq<Card>, k: nat): seq<Card> {
    if k < |d| then [d[|d| - 1 - k]] else []
  }

  /**
   * The cards dealt over `rounds` rounds of `n` to the seat whose first card
   * lies `i` places from the top of the deck `d`: that card, then every
   * `n`-th one below it, while the deck lasts.
   */
  function DealtCards(d: seq<Card>, n: nat, i: nat, rounds: nat): seq<Card>
    decreases rounds
  {
    if rounds == 0 then [] else CardAt(d, i) + DealtCards(d, n, i + n, rounds - 1)
  }

  /** While the deck reaches, a seat is dealt one card per round. */
  lemma {:induction false} DealtCardsLength(d: seq<Card>, n: nat, i: nat, rounds: nat)
    requires i + rounds * n < |d| + n
    ensures |DealtCards(d, n, i, rounds)| == rounds
    decreases rounds
  {
    if rounds > 0 {
      RoundsStep(rounds, n);
      DealtCardsLength(d, n, i + n, rounds - 1);
    }
  }

  /**
   * While the deck reaches, round `q` deals the seat the card `i + q * n`
   * places from the top (for seat `i` of `n` whenever `rounds * n <= |d|`).
   */
  lemma {:induction false} DealtCardsAt(d: seq<Card>, n: nat, i: nat, rounds: nat, q: nat)
    requires i + rounds * n < |d| + n && q < rounds
    ensures i + q * n < |d| && |DealtCards(d, n, i, rounds)| == rounds
    ensures DealtCards(d, n, i, rounds)[q] == d[|d| - 1 - (i + q * n)]
    decreases q
  {
    RoundsStep(rounds, n);
    DealtCardsLength(d, n, i, rounds);
    var later := DealtCards(d, n, i + n, rounds - 1);
    assert DealtCards(d, n, i, rounds) == [d[|d| - 1 - i]] + later;
    if q > 0 {
      DealtCardsAt(d, n, i + n, rounds - 1, q - 1);
      RoundsStep(q, n);
    }
  }

  /** `rounds` rounds of `n` cards are one round and `rounds - 1` more. */
  lemma RoundsStep(rounds: nat, n: nat)
    requires rounds > 0
    ensures (rounds - 1) * n + n == rounds * n && (rounds - 1) * n >= 0
  {
  }

  /** The next round deals one more card to the seat, the one `round * n` places below its first. */
  lemma {:induction false} DealtCardsNext(d: seq<Card>, n: nat, i: nat, round: nat)
    ensures DealtCards(d, n, i, round + 1) == DealtCards(d, n, i, round) + CardAt(d, i + round * n)
    decreases round
  {
    if round == 0 {
      assert CardAt(d, i) + [] == [] + CardAt(d, i + 0 * n);
    } else {
      var first, later, last := CardAt(d, i), DealtCards(d, n, i + n, round - 1), CardAt(d, i + round * n);
      assert DealtCards(d, n, i + n, round) == later + last by {
        DealtCardsNext(d, n, i + n, round - 1);
        RoundsStep(round, n);
        assert (i + n) + (round - 1) * n == i + round * n;
      }
      assert DealtCards(d, n, i, round + 1) == first + (later + last);
      assert DealtCards(d, n, i, round) == first + later;
      assert first + (later + last) == (first + later) + last;
    }
  }

  /** The card `i` places from the top of what `m` draws leave is the one `m + i` places from the top of the deck. */
  lemma CardAtRemaining(d: seq<Card>, m: nat, i: nat)
    ensures CardAt(Remaining(d, m), i) == CardAt(d, m + i)
  {
    if m + i < |d| {
      assert Remaining(d, m)[|d| - m - 1 - i] == d[|d| - 1 - (m + i)];
    }
  }

  /**
   * Dealing one more round sorts the seat's card of that round, the one `i`
   * places from the top of `left`, what is left of the deck, into the hand
   * it holds after `round` rounds.
   */
  lemma DealStepDrawn(h: seq<Card>, d: seq<Card>, n: nat, i: nat, round: nat, left: seq<Card>)
    requires left == Remaining(d, round * n) && i < |left|
    ensures InsertionSorted(h + DealtCards(d, n, i, round + 1))
      == InsertionSorted(InsertionSorted(h + DealtCards(d, n, i, round)) + [left[|left| - 1 - i]])
  {
    var dealt, c := DealtCards(d, n, i, round), left[|left| - 1 - i];
    assert DealtCards(d, n, i, round + 1) == dealt + [c] by {
      DealtCardsNext(d, n, i, round);
      CardAtRemaining(d, round * n, i);
    }
    assert h + (dealt + [c]) == (h + dealt) + [c];
    InsertionSortedAppend(h + dealt, c);
  }

  /**
   * Seat `k`'s hand after `round + 1` rounds, `next`, is its hand after
   * `round` rounds, `cur`, with the card `k` places from the top of `left`
   * sorted in, or `cur` itself once the deck is used up.
   */
  lemma SeatNext(start: seq<Card>, d: seq<Card>, n: nat, k: nat, round: nat, left: seq<Card>,
                 cur: seq<Card>, next: seq<Card>)
    requires left == Remaining(d, round * n)
    requires cur == InsertionSorted(start + DealtCards(d, n, k, round))
    requires next == InsertionSorted(start + DealtCards(d, n, k, round + 1))
    ensures k < |left| ==> next == InsertionSorted(cur + [left[|left| - 1 - k]])
    ensures |left| <= k ==> next == cur
  {
    if k < |left| {
      DealStepDrawn(start, d, n, k, round, left);
    } else {
      DealStepEmpty(start, d, n, k, round, left);
    }
  }

  /** Once `left`, what is left of the deck, no longer reaches the seat, another round leaves its hand as it is. */
  lemma DealStepEmpty(h: seq<Card>, d: seq<Card>, n: nat, i: nat, round: nat, left: seq<Card>)
    requires left == Remaining(d, round * n) && |left| <= i
    ensures InsertionSorted(h + DealtCards(d, n, i, round + 1)) == InsertionSorted(h + DealtCards(d, n, i, round))
  {
    var dealt := DealtCards(d, n, i, round);
    DealtCardsNext(d, n, i, round);
    CardAtRemaining(d, round * n, i);
    assert dealt + [] == dealt;
  }

  /**
   * What is left of the deck `d`, whose top is its end, after `count` draws:
   * the bottom `|d| - count` cards, or nothing once the deck is used up.
   */
  function Remaining(d: seq<Card>, count: nat): (r: seq<Card>)
    ensures r <= d
    ensures |r| == if count <= |d| then |d| - count else 0
  {
    if count <= |d| then d[..|d| - count] else []
  }

  /** Drawing `a` cards and then `b` more leaves what drawing `a + b` leaves. */
  lemma RemainingRemaining(d: seq<Card>, a: nat, b: nat)
    ensures Remaining(Remaining(d, a), b) == Remaining(d, a + b)
  {
  }

  /** After `round` full rounds out of `perPlayer`, at least one more round of `n` cards remains to deal. */
  lemma DealBound(round: nat, n: nat, perPlayer: nat)
    requires round < perPlayer
    ensures (round + 1) * n <= perPlayer * n
    ensures (round + 1) * n == round * n + n
  {
    assert perPlayer * n == (round + 1) * n + (perPlayer - round - 1) * n;
  }
}
