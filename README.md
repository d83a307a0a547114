# Go Fish and the country binary search, in Dafny

This project models two Python programs and proves properties of each.

**Go Fish** (`GoFishCardGame.py`) is a console card game:
- A `Deck` of 52 cards is popped from its end.
- Each `Player` keeps a hand that is re-sorted by rank with an insertion sort after every draw or hand-over, and counts the books (four cards of one rank) laid down. Removing cards (handing them over, laying down a book) only filters the hand, which keeps it sorted.
- `GoFishGame` deals, lets the current player ask the next player for a rank or go fishing, tests for the end of the game, and rotates the turn.

The model has two layers:
- `Hands.dfy` holds the value-level specification: cards, the rank table, order-preserving filters standing for Python's list comprehensions, the insertion-sort function, and the book bookkeeping.
- `GoFish.dfy` holds the classes `Deck`, `Player` and `GoFishGame`. Their methods update fields in place. The insertion sort runs in place on an `array<Card>` and is proved equal to the specification function.

Every operation's contract gives the new hands, books and deck exactly. Drawing, handing over and sorting are also proved to keep the exact multiset of cards. For the turn as a whole, the model proves that the number of cards is conserved: the cards in the two players' hands, four per book laid down, plus the deck, stay constant in number.

**Country search** (`Country_BinarySearch.py`) loads country rows into `CountryDatabase`, sorts them by name, and looks a country up with a case-insensitive binary search. `CountrySearch.dfy` models:
- the rows;
- ASCII lower-casing;
- Python's string order;
- the search, as a recursive function that the loop-based method is proved equal to.

The search is proved sound always. It is proved complete when the table is sorted by lower-cased name. The program sorts by exact name instead, and a two-row counterexample shows the search then misses a present country (see Findings).

`Optional.dfy` holds the `Option` type used for "no card" and "not found".

## Model

| member | source | states |
|---|---|---|
| GoFish.Deck.constructor | GoFishCardGame.py:18-20 | the deck holds the given ordering of the 52 standard cards (one per suit and rank), so it has 52 cards |
| Hands.StandardDeckOrder | GoFishCardGame.py:15-19 | card `i` of the unshuffled deck has rank name `ranks[i % 13]` and suit name `suits[i / 13]`: every rank in order, suit by suit |
| GoFish.Deck.Draw | GoFishCardGame.py:22-25 | a non-empty deck gives up its last card and keeps the rest in order; an empty deck gives `None` and stays empty |
| GoFish.Player.constructor | GoFishCardGame.py:31-34 | a new player has the given name, an empty (hence sorted) hand and no books |
| GoFish.Player.DrawCard | GoFishCardGame.py:36-40 | with cards left, the top card joins the hand, the hand is the insertion sort of old hand plus that card, holds exactly one more card, stays in rank order, and the deck loses its last card; with none left nothing changes |
| GoFish.Player.ReceiveCards | GoFishCardGame.py:106-107 | the hand becomes the insertion sort of the old hand followed by the new cards: exactly those cards added, in rank order, books unchanged |
| GoFish.Player.RemoveCardsByRank | GoFishCardGame.py:42-45 | the cards returned are exactly those named `rank`, in hand order, and the hand keeps exactly the others in order; together they are the old hand, and the hand stays sorted |
| GoFish.Player.HasRank | GoFishCardGame.py:47-48 | true exactly when some card in the hand is named `rank` |
| Hands.AnyOfRankIffCards | GoFishCardGame.py:47-48 | `has_rank` holds exactly when `remove_cards_by_rank` would hand over at least one card |
| Hands.RemoveByRankSplit | GoFishCardGame.py:42-45 | the two comprehensions split the hand: every card returned has the rank, no card kept has it, both are subsequences of the hand, and their multisets add up to the hand |
| GoFish.Player.CheckForBooks | GoFishCardGame.py:50-59 | the books grow by the number of ranks held exactly four times, the hand becomes the old hand without those ranks (in order, still sorted), and hand size plus four per book is conserved |
| GoFish.TallyRanks | GoFishCardGame.py:51-53 | the tally has a key for exactly the ranks in the hand, each mapped to its number of cards; its keys are listed once each, in the order of first occurrence in the hand (`Hands.FirstSeen`), as a Python dict keeps them |
| Hands.FirstSeenPrefix | GoFishCardGame.py:51-53 | the ranks first seen in a prefix of the hand come first, in the same order, among those of the whole hand: later cards only append new keys |
| GoFish.LayDownBooks | GoFishCardGame.py:55-59 | walking the tally drops exactly the ranks counted four times, in hand order, keeps the hand sorted, and lays one book per such rank (four cards each) |
| GoFish.FoursAreBooks | GoFishCardGame.py:55-56 | the ranks the tally counts four times are exactly the hand's book ranks |
| Hands.LayDownBook | GoFishCardGame.py:57-59 | removing a complete rank from the hand left by earlier books takes out exactly four cards and keeps the hand sorted |
| Hands.BooksIdempotent | GoFishCardGame.py:50-59 | after the books are laid down no rank is held four times, so checking again lays down nothing |
| Hands.RankNamesDistinct | GoFishCardGame.py:16 | no two ranks share a name, so tallying by name (as the program does) and by rank agree |
| GoFish.Player.SortInPlace | GoFishCardGame.py:40 | sorting the hand's list in place yields the insertion-sort specification of the hand |
| GoFish.Player.InsertionSort | GoFishCardGame.py:66-74 | the array afterwards equals the insertion-sort function of its old contents |
| GoFish.Player.SinkCard | GoFishCardGame.py:68-73 | one pass of the inner loop leaves the first `i+1` cells as the sorted prefix with card `i` inserted, and the cells after `i` untouched |
| GoFish.InsertionSortedStep | GoFishCardGame.py:67 | sorting one more card of the input inserts it into the already sorted prefix |
| Hands.InsertionSortedIsSorted | GoFishCardGame.py:66-74 | the sorted hand is in rank order |
| Hands.InsertionSortedIsPermutation | GoFishCardGame.py:66-74 | the sorted hand holds exactly the cards it was given |
| Hands.InsertionSortedIsStable | GoFishCardGame.py:70 | because the shift uses a strict `>`, the cards of each rank keep their relative order |
| Hands.InsertKeepsRankOrder | GoFishCardGame.py:70-73 | inserting a card puts it after the cards of its own rank and leaves every other rank's cards in order |
| GoFish.GoFishGame.constructor | GoFishCardGame.py:78-81 | one fresh player per name, in order, with empty hands and no books; the deck holds the shuffled cards; the turn starts at 0 |
| GoFish.GoFishGame.Deal | GoFishCardGame.py:83-87 | with 7 cards per player (up to 3 players) or 5 (otherwise), the deck loses that many cards per player from its end, or is emptied; seat `i` ends up with the insertion sort of its old hand plus the cards `DealtCards` gives it (the `i`-th from the top, then every `n`-th below it); no book changes |
| GoFish.GoFishGame.DealRound | GoFishCardGame.py:86-87 | one round deals each seat, in seating order, the next card of its `DealtCards` sequence, sorted into its hand; `n` cards leave the deck (or what is left of it); no book changes |
| GoFish.GoFishGame.DealSeat | GoFishCardGame.py:87 | seat `k`'s draw in a round: it gets the card `k` places from the top of what the earlier rounds left, sorted in, or nothing once the deck is used up; no other seat changes |
| GoFish.DealtCardsLength | GoFishCardGame.py:85-87 | while the deck reaches, a seat is dealt exactly one card per round |
| GoFish.DealtCardsAt | GoFishCardGame.py:85-87 | while the deck reaches, seat `i` of `n` gets in round `q` the card `q * n + i` places from the top of the deck, which is present |
| GoFish.DealtCardsNext | GoFishCardGame.py:85-87 | each further round adds exactly one more card to a seat's dealt cards, the one `round * n` places below its first |
| GoFish.SeatNext | GoFishCardGame.py:86-87 | a seat's hand after one more round is its hand so far with the round's card for it (the one `k` places from the top of what is left) sorted in, or the same hand once the deck is used up |
| GoFish.DealStepDrawn | GoFishCardGame.py:36-40 | drawing one round's card and sorting it into the sorted hand gives the same hand as sorting the old hand and all dealt cards at once |
| GoFish.Remaining | GoFishCardGame.py:22-25 | what `count` pops leave of the deck is a prefix of it, `count` cards shorter (or empty) |
| GoFish.RemainingRemaining | GoFishCardGame.py:85-87 | drawing `a` cards and then `b` more leaves what drawing `a + b` leaves |
| Hands.InsertionSortedAppend | GoFishCardGame.py:36-40 | re-sorting a sorted hand after appending one card gives the sort of the old cards followed by that card |
| Hands.InsertionSortedOfSorted | GoFishCardGame.py:66-74 | the insertion sort leaves a hand already in rank order unchanged |
| GoFish.FullDealFits | GoFishCardGame.py:84 | a fresh 52-card deck deals full hands exactly when there are at most ten players |
| GoFish.GoFishGame.GoFish | GoFishCardGame.py:89-92 | fishing pops the deck's last card, if any; the hand becomes that draw sorted in (`AfterDraw`) with its books laid down, and the books grow by the number laid; hand plus books plus deck is conserved |
| GoFish.GoFishGame.PlayTurn | GoFishCardGame.py:94-112 | only the current player and the opponent (the next seat) change; the asker's hand is the `Gathered` hand (cards taken or drawn, sorted in) with its books laid down, and its books grow by the number laid; the opponent loses exactly its cards of the rank, or nothing, and keeps its books; a successful ask leaves the deck alone, a failed ask pops one card; cards are conserved |
| GoFish.GoFishGame.AskAndLayDown | GoFishCardGame.py:103-112 | the ask-or-fish branch followed by the books check, with the same exact hands, books and deck, including when the asker is their own opponent; on a failed ask the second books check lays down nothing more |
| GoFish.GoFishGame.TakeCards | GoFishCardGame.py:105-107 | the asker's hand becomes the insertion sort of its old hand followed by the opponent's cards of the rank; the opponent keeps exactly the rest and no longer holds the rank; books unchanged; no card is gained or lost |
| Hands.AfterBooksIdempotent | GoFishCardGame.py:89-112 | laying down books on a hand that has just laid them down finds none and changes nothing, so the failed ask's two checks act as one |
| GoFish.GoFishGame.Opponent | GoFishCardGame.py:99 | the player asked is a valid seat index |
| GoFish.OpponentIsOther | GoFishCardGame.py:99 | the player asked differs from the asker exactly when there are at least two players |
| GoFish.GoFishGame.CheckGameEnd | GoFishCardGame.py:114-115 | the game is over exactly when the deck is empty or every hand is empty |
| GoFish.AllHandsEmpty | GoFishCardGame.py:115 | true exactly when every player's hand is empty |
| GoFish.GoFishGame.AdvanceTurn | GoFishCardGame.py:129 | the turn passes to the next seat and the index stays in range |
| GoFish.NextTurn | GoFishCardGame.py:129 | the next index is in range: the following seat, or seat 0 after the last |
| GoFish.AfterTurnsInRound | GoFishCardGame.py:124-129 | within one round, `k` turns later the index is `k` seats on, wrapping past the last seat |
| GoFish.EveryPlayerGetsATurn | GoFishCardGame.py:124-129 | from any start, every player has the turn within `n` turns |
| GoFish.FullRoundReturns | GoFishCardGame.py:124-129 | after `n` turns the turn is back with the same player |
| CountrySearch.CountryDatabase.constructor | Country_BinarySearch.py:17-39 | the table holds the loaded rows reordered (the same multiset) by exact name, as `list.sort` on the country name leaves them |
| CountrySearch.CountryDatabase.BinarySearch | Country_BinarySearch.py:41-57 | on the table in the exact-name order the class keeps, the result is the recursive search's; a row found has the target's lower-cased name and is in the table; if the table happens to be sorted by lower-cased name, a row is found exactly when one matches; an empty table gives `None` |
| CountrySearch.SearchSound | Country_BinarySearch.py:46-57 | whatever the order, a row found lies in the searched window and matches the target case-insensitively |
| CountrySearch.SearchComplete | Country_BinarySearch.py:46-57 | on a table sorted by lower-cased name, a matching row in the window is always found |
| CountrySearch.NoMatchUpTo | Country_BinarySearch.py:52-53 | on a sorted table, a probe below the target rules out every row up to the probe, so moving `low` past it is safe |
| CountrySearch.NoMatchFrom | Country_BinarySearch.py:54-55 | on a sorted table, a probe above the target rules out every row from the probe on, so moving `high` below it is safe |
| CountrySearch.LessAsymmetric | Country_BinarySearch.py:52 | Python's string `<` is strict: never both ways, never on equal strings |
| CountrySearch.LessTotal | Country_BinarySearch.py:52 | of two different strings one is below the other |
| CountrySearch.LowerPointwise | Country_BinarySearch.py:50 | `.lower()` keeps the length and lower-cases character by character |
| CountrySearch.CaseSensitiveOrderMissesMatch | Country_BinarySearch.py:39 | a table sorted by exact name, as the program sorts it, on which the case-insensitive search returns `None` for a country it holds |

## Left out

- The shuffle (`random.shuffle`, GoFishCardGame.py:20) is not modelled. The shuffled deck is a constructor argument, required to be a reordering of the 52 standard cards.
- Printing and keyboard input are not modelled: every `print`, `show_hand`, `display_books`, `search_country` and both `__main__` blocks.
- The rank asked for in `play_turn` comes from `input(...).upper()`. `PlayTurn` takes that already upper-cased string as its parameter. Upper-casing is not modelled.
- The `play_game` loop itself is not modelled. Its parts are: the deal, the end test, one turn, and the rotation, each proved separately. Because the loop reads keyboard input it need not terminate, so it is not a method here.
- The winner, `max(..., key=books)` (GoFishCardGame.py:133), is only printed and is not modelled.
- A card's rank is one of the 13 ranks and its suit one of the 4 suits (Dafny `newtype`s). The program only ever creates such cards.
- The book tally counts by rank, not by rank name. `Hands.RankNamesDistinct` shows the two agree.
- The tally is walked in the order ranks were first seen, like Python's dict. The result does not depend on that order.
- `GoFish.Player.SortInPlace` copies the hand into a fresh array, sorts that array in place, and reads it back. Aliasing between the list and other references to it is not modelled; the program has none.
- CSV reading, `int(row['Population'])` and the file-existence check in `CountryDatabase.__init__` are not modelled; the loaded rows are a constructor argument. As written, that check runs only after `load_data` has already opened the file, so a missing file raises before the message.
- `list.sort` is not modelled. The constructor takes the sorted table and requires it to be the loaded rows reordered by exact name, as line 39 sorts them. `list.sort` is stable, but the model does not require that: rows with equal names may come in any order. Completeness of the search is proved only for tables sorted by lower-cased name, the corrected order (see Findings).
- `.lower()` is modelled for ASCII letters only. Python's Unicode case mapping is not modelled.
- `Home Brew Card game - Lab Week 5,6.py` and `Lab Week 7 - Train Priority Queue.py` are not part of this model.

## Findings

| source | as written | input that shows it | evidently intended | confidence | as-written member | corrected member |
|---|---|---|---|---|---|---|
| Country_BinarySearch.py:39, 50-52 | the table is sorted by exact name (upper case before lower case), but the search compares lower-cased names | rows "Fiji", "eSwatini" (exact order, since 'F' < 'e'); searching "eswatini" probes "fiji", finds it above the target and returns `None` | sort by the lower-cased name, the key the search compares | not executed | CountrySearch.CaseSensitiveOrderMissesMatch | CountrySearch.SearchComplete |
