/**
 * The country table and its binary search by name. Names are compared
 * after lower-casing (restricted to ASCII letters) with Python's string
 * order, which is lexicographic by code point with a proper prefix first.
 * Reading the CSV file and Python's `list.sort` are not modelled: the
 * loaded rows and their sorted order are constructor arguments.
 */
module CountrySearch {
  import opened Optional

  datatype CountryInfo = CountryInfo(
    country: string,
    capital: string,
    continent: string,
    population: int,
    language: string)

  // ---------------------------------------------------------------------
  // Strings: `.lower()` and `<`
  // ---------------------------------------------------------------------

  function LowerChar(c: char): char {
    if 'A' <= c <= 'Z' then (c as int + 32) as char else c
  }

  /** `s.lower()` for ASCII text. */
  function Lower(s: string): string {
    if s == [] then [] else [LowerChar(s[0])] + Lower(s[1..])
  }

  /** Lower-casing works character by character. */
  lemma {:induction false} LowerPointwise(s: string)
    ensures |Lower(s)| == |s|
    ensures forall i :: 0 <= i < |s| ==> Lower(s)[i] == LowerChar(s[i])
  {
    if s != [] {
      LowerPointwise(s[1..]);
      assert forall i :: 1 <= i < |s| ==> Lower(s)[i] == Lower(s[1..])[i - 1];
    }
  }

  /** Python's `a < b` on `str`. */
  predicate Less(a: string, b: string) {
    if a == [] then b != []
    else if b == [] then false
    else if a[0] != b[0] then a[0] < b[0]
    else Less(a[1..], b[1..])
  }

  /** The string order is strict: no string is below itself or below a string below it. */
  lemma {:induction false} LessAsymmetric(a: string, b: string)
    ensures Less(a, b) ==> !Less(b, a) && a != b
  {
    if a != [] && b != [] && a[0] == b[0] {
      LessAsymmetric(a[1..], b[1..]);
      if a == b {
        assert a[1..] == b[1..];
      }
    }
  }

  /** The string order is total: of two different strings one is below the other. */
  lemma {:induction false} LessTotal(a: string, b: string)
    ensures Less(a, b) || a == b || Less(b, a)
  {
    if a != [] && b != [] && a[0] == b[0] {
      LessTotal(a[1..], b[1..]);
      if a[1..] == b[1..] {
        assert a == [a[0]] + a[1..] && b == [b[0]] + b[1..];
      }
    }
  }

  // ---------------------------------------------------------------------
  // Sort orders and the search
  // ---------------------------------------------------------------------

  /** The name the search compares: `country.country.lower()`. */
  function SearchKey(c: CountryInfo): string {
    Lower(c.country)
  }

  /** The order `list.sort(key=lambda country: country.country)` leaves: by exact name. */
  predicate SortedByName(cs: seq<CountryInfo>) {
    forall i, j :: 0 <= i < j < |cs| ==> !Less(cs[j].country, cs[i].country)
  }

  /** The order the search relies on: by lower-cased name. */
  predicate SortedByLowerName(cs: seq<CountryInfo>) {
    forall i, j :: 0 <= i < j < |cs| ==> !Less(SearchKey(cs[j]), SearchKey(cs[i]))
  }

  /** Some row of `cs[low..high]` (inclusive) has the target's lower-cased name. */
  predicate MatchIn(cs: seq<CountryInfo>, target: string, low: int, high: int) {
    exists k :: 0 <= low <= k <= high < |cs| && SearchKey(cs[k]) == Lower(target)
  }

  /**
   * The search of `binary_search` over the inclusive window `[low, high]`,
   * one probe per call: the row found, or `None`.
   */
  function Search(cs: seq<CountryInfo>, target: string, low: int, high: int): (r: Option<CountryInfo>)
    requires 0 <= low <= high + 1 <= |cs|
    decreases high - low + 1
  {
    if low > high then None
    else
      var mid := (low + high) / 2;
      var name := SearchKey(cs[mid]);
      if name == Lower(target) then Some(cs[mid])
      else if Less(name, Lower(target)) then Search(cs, target, mid + 1, high)
      else Search(cs, target, low, mid - 1)
  }

  /** A row found is a row of the window whose lower-cased name is the target's. */
  lemma {:induction false} SearchSound(cs: seq<CountryInfo>, target: string, low: int, high: int)
    requires 0 <= low <= high + 1 <= |cs|
    ensures Search(cs, target, low, high).Some? ==>
      exists k :: low <= k <= high && cs[k] == Search(cs, target, low, high).value
        && SearchKey(cs[k]) == Lower(target)
    decreases high - low + 1
  {
    if low <= high {
      var mid := (low + high) / 2;
      if SearchKey(cs[mid]) == Lower(target) {
      } else if Less(SearchKey(cs[mid]), Lower(target)) {
        SearchSound(cs, target, mid + 1, high);
      } else {
        SearchSound(cs, target, low, mid - 1);
      }
    }
  }

  /** In a list sorted by lower-cased name, a probe below the target rules out every row up to it. */
  lemma NoMatchUpTo(cs: seq<CountryInfo>, target: string, mid: int)
    requires SortedByLowerName(cs) && 0 <= mid < |cs|
    requires Less(SearchKey(cs[mid]), Lower(target))
    ensures forall k :: 0 <= k <= mid ==> SearchKey(cs[k]) != Lower(target)
  {
    LessAsymmetric(SearchKey(cs[mid]), Lower(target));
  }

  /** In a list sorted by lower-cased name, a probe above the target rules out every row from it on. */
  lemma NoMatchFrom(cs: seq<CountryInfo>, target: string, mid: int)
    requires SortedByLowerName(cs) && 0 <= mid < |cs|
    requires SearchKey(cs[mid]) != Lower(target) && !Less(SearchKey(cs[mid]), Lower(target))
    ensures forall k :: mid <= k < |cs| ==> SearchKey(cs[k]) != Lower(target)
  {
    LessTotal(SearchKey(cs[mid]), Lower(target));
  }

  /** Completeness: in a list sorted by lower-cased name, a row with the target's name in the window is found. */
  lemma {:induction false} SearchComplete(cs: seq<CountryInfo>, target: string, low: int, high: int)
    requires 0 <= low <= high + 1 <= |cs|
    requires SortedByLowerName(cs)
    ensures MatchIn(cs, target, low, high) ==> Search(cs, target, low, high).Some?
    decreases high - low + 1
  {
    if low <= high && MatchIn(cs, target, low, high) {
      var mid := (low + high) / 2;
      if SearchKey(cs[mid]) == Lower(target) {
      } else if Less(SearchKey(cs[mid]), Lower(target)) {
        MatchAboveProbe(cs, target, low, high, mid);
        SearchComplete(cs, target, mid + 1, high);
      } else {
        MatchBelowProbe(cs, target, low, high, mid);
        SearchComplete(cs, target, low, mid - 1);
      }
    }
  }

  /** A match in the window lies above a probe that is below the target. */
  lemma MatchAboveProbe(cs: seq<CountryInfo>, target: string, low: int, high: int, mid: int)
    requires SortedByLowerName(cs) && 0 <= low <= mid <= high < |cs|
    requires MatchIn(cs, target, low, high) && Less(SearchKey(cs[mid]), Lower(target))
    ensures MatchIn(cs, target, mid + 1, high)
  {
    NoMatchUpTo(cs, target, mid);
    var k :| 0 <= low <= k <= high < |cs| && SearchKey(cs[k]) == Lower(target);
    assert mid + 1 <= k;
  }

  /** A match in the window lies below a probe that is above the target. */
  lemma MatchBelowProbe(cs: seq<CountryInfo>, target: string, low: int, high: int, mid: int)
    requires SortedByLowerName(cs) && 0 <= low <= mid <= high < |cs|
    requires MatchIn(cs, target, low, high)
    requires SearchKey(cs[mid]) != Lower(target) && !Less(SearchKey(cs[mid]), Lower(target))
    ensures MatchIn(cs, target, low, mid - 1)
  {
    NoMatchFrom(cs, target, mid);
    var k :| 0 <= low <= k <= high < |cs| && SearchKey(cs[k]) == Lower(target);
    assert k <= mid - 1;
  }

  /** The lower-cased names the counterexample below probes. */
  lemma LowerNames()
    ensures Lower("Fiji") == "fiji" && Lower("eSwatini") == "eswatini" && Lower("eswatini") == "eswatini"
  {
    LowerPointwise("Fiji");
    LowerPointwise("eSwatini");
    LowerPointwise("eswatini");
  }

  /** A table in exact-name order ('F' < 'e') that is not in lower-cased-name order ("eswatini" < "fiji"). */
  const FijiEswatini: seq<CountryInfo> :=
    [CountryInfo("Fiji", "Suva", "Oceania", 0, "English"),
     CountryInfo("eSwatini", "Mbabane", "Africa", 0, "Swati")]

  lemma FijiEswatiniSortedByName()
    ensures SortedByName(FijiEswatini) && !SortedByLowerName(FijiEswatini)
  {
    LowerNames();
    var cs := FijiEswatini;
    assert cs[0].country == "Fiji" && cs[1].country == "eSwatini";
    assert Less("Fiji", "eSwatini");
    assert Less(SearchKey(cs[1]), SearchKey(cs[0])) by {
      assert Less("eswatini", "fiji");
    }
  }

  /**
   * As written, the table is sorted by exact name while the search compares
   * lower-cased names. `FijiEswatini` is in exact-name order, yet the search
   * for "eswatini" probes "fiji", finds it above the target, and gives up
   * although "eSwatini" is present.
   */
  lemma CaseSensitiveOrderMissesMatch()
    ensures |FijiEswatini| == 2 && SortedByName(FijiEswatini)
    ensures MatchIn(FijiEswatini, "eswatini", 0, 1)
    ensures Search(FijiEswatini, "eswatini", 0, 1) == None
  {
    FijiEswatiniSortedByName();
    FijiEswatiniHasMatch();
    FijiEswatiniSearchFails();
  }

  lemma FijiEswatiniHasMatch()
    ensures MatchIn(FijiEswatini, "eswatini", 0, 1)
  {
    LowerNames();
    var cs := FijiEswatini;
    assert cs[1].country == "eSwatini";
    assert 0 <= 0 <= 1 <= 1 < |cs| && SearchKey(cs[1]) == Lower("eswatini");
  }

  lemma FijiEswatiniSearchFails()
    ensures Search(FijiEswatini, "eswatini", 0, 1) == None
  {
    LowerNames();
    var cs := FijiEswatini;
    assert cs[0].country == "Fiji";
    assert !Less("fiji", "eswatini");
    FirstOfTwoAboveMisses(cs, "eswatini");
  }

  /** In a two-row table whose first row is above the target, the search looks no further. */
  lemma FirstOfTwoAboveMisses(cs: seq<CountryInfo>, target: string)
    requires |cs| == 2
    requires SearchKey(cs[0]) != Lower(target) && !Less(SearchKey(cs[0]), Lower(target))
    ensures Search(cs, target, 0, 1) == None
  {
    assert Search(cs, target, 0, 1) == Search(cs, target, 0, -1);
  }

  class CountryDatabase {
    var countries: seq<CountryInfo>

    /** The table is in the order `list.sort` leaves it: by exact name. */
    ghost predicate Valid()
      reads this
    {
      SortedByName(countries)
    }

    /**
     * The table built from the rows read from the file, `loaded`, once
     * sorted: `sorted` is `loaded` reordered by exact name.
     */
    constructor (loaded: seq<CountryInfo>, sorted: seq<CountryInfo>)
      requires multiset(sorted) == multiset(loaded) && SortedByName(sorted)
      ensures Valid() && countries == sorted
    {
      countries := sorted;
    }

    /** `binary_search`: the row whose lower-cased name is the target's, or `None`. */
    method BinarySearch(target: string) returns (r: Option<CountryInfo>)
      requires Valid()
      ensures r == Search(countries, target, 0, |countries| - 1)
      ensures r.Some? ==> r.value in countries && SearchKey(r.value) == Lower(target)
      ensures SortedByLowerName(countries) ==>
        (r.Some? <==> exists k :: 0 <= k < |countries| && SearchKey(countries[k]) == Lower(target))
      ensures countries == [] ==> r == None
    {
      var low, high := 0, |countries| - 1;
      while low <= high
        invariant 0 <= low <= high + 1 <= |countries|
        invariant Search(countries, target, low, high) == Search(countries, target, 0, |countries| - 1)
        decreases high - low
      {
        var mid := (low + high) / 2;
        var midCountry := countries[mid].country;
        if Lower(midCountry) == Lower(target) {
          r := Some(countries[mid]);
          return;
        } else if Less(Lower(midCountry), Lower(target)) {
          low := mid + 1;
        } else {
          high := mid - 1;
        }
      }
      if SortedByLowerName(countries) {
        SearchComplete(countries, target, 0, |countries| - 1);
      }
      r := None;
    }
  }
}
