/**
 * The selections made on the scraped dataset (tubes.py lines 57-68): the region filter
 * that keeps the five Jabodetabek cities and the free-text search over name and address.
 */
module Filters {
  import opened Wrappers
  import opened Text
  import opened City
  import opened Records

  /** A boolean-mask selection: the elements that satisfy `keep`, in their original order. */
  function Filter<T(==, !new)>(s: seq<T>, keep: T -> bool): (r: seq<T>)
    ensures |r| <= |s|
    ensures forall x :: x in r <==> x in s && keep(x)
    decreases |s|
  {
    if s == [] then [] else (if keep(s[0]) then [s[0]] else []) + Filter(s[1..], keep)
  }

  /** `a` is `b` with some elements removed and the rest left in order. */
  predicate IsSubsequence<T(==)>(a: seq<T>, b: seq<T>)
    decreases |b|
  {
    if a == [] then true
    else if b == [] then false
    else (a[0] == b[0] && IsSubsequence(a[1..], b[1..])) || IsSubsequence(a, b[1..])
  }

  /** A selection is an order-preserving subsequence of its input. */
  lemma {:induction false} FilterIsSubsequence<T(!new)>(s: seq<T>, keep: T -> bool)
    ensures IsSubsequence(Filter(s, keep), s)
    decreases |s|
  {
    if s != [] {
      FilterIsSubsequence(s[1..], keep);
      if keep(s[0]) {
        assert Filter(s, keep) == [s[0]] + Filter(s[1..], keep);
        assert (Filter(s, keep))[1..] == Filter(s[1..], keep);
      } else {
        assert Filter(s, keep) == Filter(s[1..], keep);
      }
    }
  }

  /** A selection keeps every kept element as often as the input holds it, and nothing else. */
  lemma {:induction false} FilterCount<T(!new)>(s: seq<T>, keep: T -> bool, x: T)
    ensures multiset(Filter(s, keep))[x] == if keep(x) then multiset(s)[x] else 0
    decreases |s|
  {
    if s != [] {
      FilterCount(s[1..], keep, x);
      assert s == [s[0]] + s[1..];
    }
  }

  /** Two masks that agree on every element select the same elements. */
  lemma {:induction false} FilterCongruent<T(!new)>(s: seq<T>, p: T -> bool, q: T -> bool)
    requires forall x :: x in s ==> p(x) == q(x)
    ensures Filter(s, p) == Filter(s, q)
    decreases |s|
  {
    if s != [] {
      FilterCongruent(s[1..], p, q);
    }
  }

  /** Being a subsequence is transitive, so selections compose. */
  lemma {:induction false} SubsequenceTransitive<T(!new)>(a: seq<T>, b: seq<T>, c: seq<T>)
    requires IsSubsequence(a, b) && IsSubsequence(b, c)
    ensures IsSubsequence(a, c)
    decreases |c|
  {
    if a != [] {
      assert b != [] && c != [];
      if b[0] == c[0] && IsSubsequence(b[1..], c[1..]) {
        if a[0] == b[0] && IsSubsequence(a[1..], b[1..]) {
          SubsequenceTransitive(a[1..], b[1..], c[1..]);
        } else {
          SubsequenceTransitive(a, b[1..], c[1..]);
        }
      } else {
        SubsequenceTransitive(a, b, c[1..]);
      }
    }
  }

  // ---- Region filter (line 60) ----

  /** `str.contains(pattern, case=False)` for a literal pattern. */
  predicate ContainsIgnoreCase(hay: string, needle: string)
  {
    Contains(Lower(hay), Lower(needle))
  }

  /** The alternation `Jakarta|Bogor|Depok|Tangerang|Bekasi` matched case-insensitively. */
  predicate InRegion(city: string)
  {
    || ContainsIgnoreCase(city, "Jakarta")
    || ContainsIgnoreCase(city, "Bogor")
    || ContainsIgnoreCase(city, "Depok")
    || ContainsIgnoreCase(city, "Tangerang")
    || ContainsIgnoreCase(city, "Bekasi")
  }

  /** `df_raw[df_raw['Kota'].str.contains(..., case=False, na=False)]`. */
  function RegionFilter(data: seq<Record>): (kept: seq<Record>)
  {
    Filter(data, (r: Record) => InRegion(r.city))
  }

  /** A normalized city passes the region test exactly when it is one of the five canonical names. */
  lemma InRegionIffCanonical(token: string)
    ensures InRegion(Normalize(token)) <==> Normalize(token) in Cities
  {
    var city := Normalize(token);
    if city in Cities {
      var k :| 0 <= k < |Cities| && Cities[k] == city;
      LowerCity(k);
      ContainsSelf(Keys[k]);
    } else {
      LowerCity(0);
      LowerCity(1);
      LowerCity(2);
      LowerCity(3);
      LowerCity(4);
      assert !Hit(token, 0) && !Hit(token, 1) && !Hit(token, 2) && !Hit(token, 3) && !Hit(token, 4);
    }
  }

  /** Among extracted records, the region filter keeps exactly those whose city is a canonical name. */
  lemma RegionFilterKeepsCanonical(rows: seq<seq<string>>)
    ensures RegionFilter(Extract(Body(rows))) == Filter(Extract(Body(rows)), (r: Record) => r.city in Cities)
  {
    var data := Extract(Body(rows));
    ExtractCities(Body(rows));
    forall r | r in data
      ensures InRegion(r.city) == (r.city in Cities)
    {
      InRegionIffCanonical(CityToken(r.address));
    }
    FilterCongruent(data, (r: Record) => InRegion(r.city), (r: Record) => r.city in Cities);
  }

  /** The city of the error row mentions no city of the region. */
  lemma ErrorCityOutsideRegion()
    ensures !InRegion(ErrorCity)
  {
    assert |Lower(ErrorCity)| == 3;
    ContainsNoLonger(Lower(ErrorCity), Lower("Jakarta"));
    ContainsNoLonger(Lower(ErrorCity), Lower("Bogor"));
    ContainsNoLonger(Lower(ErrorCity), Lower("Depok"));
    ContainsNoLonger(Lower(ErrorCity), Lower("Tangerang"));
    ContainsNoLonger(Lower(ErrorCity), Lower("Bekasi"));
  }

  /**
   * What survives the region filter: an order-preserving subsequence of the dataset in
   * which every city is exactly one of the five canonical names; the error row never survives.
   */
  lemma RegionFilterResult(outcome: FetchOutcome)
    ensures IsSubsequence(RegionFilter(Dataset(outcome)), Dataset(outcome))
    ensures forall r :: r in RegionFilter(Dataset(outcome)) ==> r.city in Cities
    ensures outcome.Failed? ==> RegionFilter(Dataset(outcome)) == []
  {
    var data := Dataset(outcome);
    FilterIsSubsequence(data, (r: Record) => InRegion(r.city));
    match outcome {
      case Fetched(rows) =>
        RegionFilterKeepsCanonical(rows);
      case Failed(message) =>
        ErrorCityOutsideRegion();
        assert RegionFilter(data) == Filter(data[1..], (r: Record) => InRegion(r.city));
    }
  }

  // ---- Search (lines 64-68) ----

  /** The name or the address contains the query, ignoring case. */
  predicate MatchesQuery(r: Record, query: string)
  {
    ContainsIgnoreCase(r.name, query) || ContainsIgnoreCase(r.address, query)
  }

  /** `if search:` select the matching records `else` show the dataset as it is. */
  function Search(data: seq<Record>, query: string): (shown: seq<Record>)
  {
    if query == "" then data else Filter(data, (r: Record) => MatchesQuery(r, query))
  }

  /** An empty query shows the dataset unchanged. */
  lemma SearchEmptyQuery(data: seq<Record>)
    ensures Search(data, "") == data
  {
  }

  /**
   * A non-empty query shows, in their original order and as often as they occur, exactly
   * the records whose name or address contains it; records are shown as they are.
   */
  lemma SearchResult(data: seq<Record>, query: string)
    requires query != ""
    ensures IsSubsequence(Search(data, query), data)
    ensures forall r :: r in Search(data, query) <==> r in data && MatchesQuery(r, query)
    ensures forall r :: multiset(Search(data, query))[r] == if MatchesQuery(r, query) then multiset(data)[r] else 0
  {
    var keep := (r: Record) => MatchesQuery(r, query);
    FilterIsSubsequence(data, keep);
    forall r
      ensures multiset(Search(data, query))[r] == if MatchesQuery(r, query) then multiset(data)[r] else 0
    {
      FilterCount(data, keep, r);
    }
  }

  /** What the table shows for a fetch outcome and a query (lines 57-68). */
  function Display(outcome: FetchOutcome, query: string): (shown: seq<Record>)
  {
    Search(RegionFilter(Dataset(outcome)), query)
  }

  /**
   * Every displayed record is a record of the dataset, in dataset order, with a canonical
   * city, and matches the query when there is one.
   */
  lemma DisplayResult(outcome: FetchOutcome, query: string)
    ensures IsSubsequence(Display(outcome, query), Dataset(outcome))
    ensures forall r :: r in Display(outcome, query) ==> r.city in Cities && (query == "" || MatchesQuery(r, query))
  {
    var data := RegionFilter(Dataset(outcome));
    RegionFilterResult(outcome);
    if query != "" {
      SearchResult(data, query);
      SubsequenceTransitive(Display(outcome, query), data, Dataset(outcome));
    }
  }

  // ---- Line 60 on an empty dataset ----

  /** A pandas frame as line 60 sees it: its column labels and its rows. */
  datatype Frame = Frame(columns: seq<string>, records: seq<Record>)

  /** Column labels of a frame built from the records. */
  const Columns: seq<string> := ["Nama Toko", "Alamat", "Kota"]

  /** `pd.DataFrame(data)`: the dictionary keys become the columns, but an empty list gives a frame without columns. */
  function ToFrame(data: seq<Record>): (df: Frame)
  {
    if data == [] then Frame([], []) else Frame(Columns, data)
  }

  /** Line 60 as written: `df_raw['Kota']` raises `KeyError` on a frame without that column. */
  function RegionFilterAsWritten(df: Frame): (r: Result<seq<Record>, string>)
  {
    if "Kota" in df.columns then Success(RegionFilter(df.records)) else Failure("KeyError: 'Kota'")
  }

  /** As written, a page without the table (no rows at all) makes line 60 raise. */
  lemma EmptyTableRaises()
    ensures RegionFilterAsWritten(ToFrame(Dataset(Fetched([])))) == Failure("KeyError: 'Kota'")
  {
  }

  /** As written, a table whose only row is its header makes line 60 raise too. */
  lemma HeaderOnlyTableRaises(header: seq<string>)
    ensures RegionFilterAsWritten(ToFrame(Dataset(Fetched([header])))).Failure?
  {
    assert Body([header]) == [];
  }

  /** On a non-empty dataset the code as written and the corrected filter agree. */
  lemma AsWrittenAgreesOtherwise(data: seq<Record>)
    requires data != []
    ensures RegionFilterAsWritten(ToFrame(data)) == Success(RegionFilter(data))
  {
    assert "Kota" == Columns[2];
  }

  /** Corrected: a table without usable rows yields an empty dataset instead of an error. */
  lemma EmptyTableYieldsNoRecords(rows: seq<seq<string>>)
    requires forall i :: 1 <= i < |rows| ==> |rows[i]| < 3
    ensures RegionFilter(Dataset(Fetched(rows))) == []
  {
    var body := Body(rows);
    ExtractProvenance(body);
    forall j | 0 <= j < |body|
      ensures |body[j]| < 3
    {
      assert body[j] == rows[j + 1];
    }
    SelectedNone(body);
  }
}
