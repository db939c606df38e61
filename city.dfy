/**
 * Deriving a city from a free-text address (tubes.py lines 39-48): split on commas,
 * pick a segment by position, cut the postal-code tail with `re.sub(r'\s*\d+.*$', '', ...)`,
 * strip, then map onto one of five canonical city names by substring tests.
 */
module City {
  import opened Wrappers
  import opened Text

  /**
   * `[p.strip() for p in lokasi.split(',')]`: one segment per comma-separated part, at least
   * one, none holding a comma, none starting or ending with whitespace, and each one the
   * stripped form of its part.
   */
  function Segments(location: string): (parts: seq<string>)
    ensures |parts| == |Split(location, ',')| && |parts| >= 1
    ensures forall k :: 0 <= k < |parts| ==> ',' !in parts[k]
    ensures forall k :: 0 <= k < |parts| && parts[k] != [] ==>
      !IsSpace(parts[k][0]) && !IsSpace(parts[k][|parts[k]| - 1])
    ensures forall k :: 0 <= k < |parts| ==> parts[k] == Trim(Split(location, ',')[k])
  {
    var raw := Split(location, ',');
    TrimEach(raw, ',');
    seq(|raw|, k requires 0 <= k < |raw| => Trim(raw[k]))
  }

  /** Stripping keeps a separator-free part separator-free and leaves no whitespace at its ends. */
  lemma TrimPart(p: string, sep: char)
    requires sep !in p
    ensures sep !in Trim(p)
    ensures Trim(p) != [] ==> !IsSpace(Trim(p)[0]) && !IsSpace(Trim(p)[|Trim(p)| - 1])
  {
    TrimShape(p);
    var a := |p| - |TrimLeft(p)|;
    SliceLacks(p, a, a + |Trim(p)|, sep);
  }

  /** A slice of a string that lacks `c` lacks `c` too. */
  lemma SliceLacks(p: string, a: nat, b: nat, c: char)
    requires a <= b <= |p| && c !in p
    ensures c !in p[a..b]
  {
    forall i | 0 <= i < b - a
      ensures p[a..b][i] != c
    {
      assert p[a..b][i] == p[a + i];
    }
  }

  /** `TrimPart` for every part of a split. */
  lemma TrimEach(raw: seq<string>, sep: char)
    requires forall k :: 0 <= k < |raw| ==> sep !in raw[k]
    ensures forall k :: 0 <= k < |raw| ==> sep !in Trim(raw[k])
    ensures forall k :: 0 <= k < |raw| && Trim(raw[k]) != [] ==>
      !IsSpace(Trim(raw[k])[0]) && !IsSpace(Trim(raw[k])[|Trim(raw[k])| - 1])
  {
    forall k | 0 <= k < |raw|
      ensures sep !in Trim(raw[k])
      ensures Trim(raw[k]) != [] ==> !IsSpace(Trim(raw[k])[0]) && !IsSpace(Trim(raw[k])[|Trim(raw[k])| - 1])
    {
      TrimPart(raw[k], sep);
    }
  }

  /** Index of the segment that holds the city: the second of two, the second-to-last of three or more. */
  function PickIndex(count: nat): (k: nat)
    requires count >= 1
    ensures k < count
  {
    if count == 2 then 1 else if count > 2 then count - 2 else 0
  }

  // ---- `re.sub(r'\s*\d+.*$', '', s)` ----

  /** End of the run of whitespace starting at `i` (what a greedy `\s*` consumes). */
  function SkipSpaces(s: string, i: nat): (j: nat)
    requires i <= |s|
    ensures i <= j <= |s|
    ensures forall m :: i <= m < j ==> IsSpace(s[m])
    ensures j < |s| ==> !IsSpace(s[j])
    decreases |s| - i
  {
    if i < |s| && IsSpace(s[i]) then SkipSpaces(s, i + 1) else i
  }

  /**
   * `.*$` can match from index `k`: `.` crosses no newline, and `$` matches at the end
   * of the string or just before a newline that ends it.
   */
  predicate RestMatches(s: string, k: nat)
  {
    forall m :: k <= m < |s| - 1 ==> s[m] != '\n'
  }

  /**
   * The pattern matches starting at `i`. Since `\s*` is followed by `\d`, it must take
   * the whole whitespace run; `\d+` takes at least the digit after it.
   */
  predicate MatchesAt(s: string, i: nat)
    requires i <= |s|
  {
    var j := SkipSpaces(s, i);
    j < |s| && IsDigit(s[j]) && RestMatches(s, j + 1)
  }

  /** The leftmost index at or after `from` where the pattern matches, as `re` searches. */
  function LeftmostMatch(s: string, from: nat): (m: Option<nat>)
    requires from <= |s|
    ensures m.Some? ==> from <= m.value < |s| && MatchesAt(s, m.value)
    ensures m.Some? ==> forall i :: from <= i < m.value ==> !MatchesAt(s, i)
    ensures m.None? ==> forall i :: from <= i <= |s| ==> !MatchesAt(s, i)
    decreases |s| - from
  {
    if from == |s| then None
    else if MatchesAt(s, from) then Some(from)
    else LeftmostMatch(s, from + 1)
  }

  /**
   * The substitution. A match always runs to the end of the string (or to a final
   * newline, which `.` cannot cross and which therefore stays), so there is at most
   * one match and the result is the text before it.
   */
  function StripDigitTail(s: string): (r: string)
  {
    match LeftmostMatch(s, 0)
    case None => s
    case Some(i) => s[..i] + (if s[|s| - 1] == '\n' then "\n" else "")
  }

  /** Index of the first digit of `s`, or `|s|` when it has none. */
  function FirstDigit(s: string): (d: nat)
    ensures d <= |s|
    ensures forall m :: 0 <= m < d ==> !IsDigit(s[m])
    ensures d < |s| ==> IsDigit(s[d])
  {
    if s == [] then 0
    else if IsDigit(s[0]) then 0
    else 1 + FirstDigit(s[1..])
  }

  /** Start of the whitespace run that ends at index `d`. */
  function SpaceRunStart(s: string, d: nat): (i: nat)
    requires d <= |s|
    ensures i <= d
    ensures forall m :: i <= m < d ==> IsSpace(s[m])
    ensures i > 0 ==> !IsSpace(s[i - 1])
  {
    if d > 0 && IsSpace(s[d - 1]) then SpaceRunStart(s, d - 1) else d
  }

  /** A string without digits passes through the substitution untouched. */
  lemma StripNoDigit(s: string)
    requires forall m :: 0 <= m < |s| ==> !IsDigit(s[m])
    ensures StripDigitTail(s) == s
  {
  }

  /** The search from `from` finds `i` when the pattern matches at `i` and nowhere between. */
  lemma {:induction false} LeftmostMatchIs(s: string, from: nat, i: nat)
    requires from <= i < |s| && MatchesAt(s, i)
    requires forall m :: from <= m < i ==> !MatchesAt(s, m)
    ensures LeftmostMatch(s, from) == Some(i)
    decreases i - from
  {
    if from < i {
      LeftmostMatchIs(s, from + 1, i);
    }
  }

  /** No match starts inside the text before the whitespace run that precedes the first digit. */
  lemma NoMatchBeforeRun(s: string, i: nat)
    requires i < SpaceRunStart(s, FirstDigit(s))
    ensures !MatchesAt(s, i)
  {
    var d := FirstDigit(s);
    var i0 := SpaceRunStart(s, d);
    var k := SkipSpaces(s, i);
    assert !IsSpace(s[i0 - 1]);
    assert k <= i0 - 1;
  }

  /** `\s*` from `i` stops at `j` when only whitespace lies between and `s[j]` is not whitespace. */
  lemma {:induction false} SkipSpacesTo(s: string, i: nat, j: nat)
    requires i <= j < |s| && !IsSpace(s[j])
    requires forall m :: i <= m < j ==> IsSpace(s[m])
    ensures SkipSpaces(s, i) == j
    decreases j - i
  {
    if i < j {
      SkipSpacesTo(s, i + 1, j);
    }
  }

  /** The pattern matches at the start of the whitespace run before the first digit. */
  lemma MatchAtRun(s: string)
    requires FirstDigit(s) < |s| && RestMatches(s, FirstDigit(s) + 1)
    ensures MatchesAt(s, SpaceRunStart(s, FirstDigit(s)))
  {
    var d := FirstDigit(s);
    SkipSpacesTo(s, SpaceRunStart(s, d), d);
  }

  /**
   * When nothing after the first digit stops `.*$`, the match starts at the whitespace
   * run before the first digit.
   */
  lemma LeftmostMatchAtFirstDigit(s: string)
    requires FirstDigit(s) < |s| && RestMatches(s, FirstDigit(s) + 1)
    ensures LeftmostMatch(s, 0) == Some(SpaceRunStart(s, FirstDigit(s)))
  {
    var i0 := SpaceRunStart(s, FirstDigit(s));
    MatchAtRun(s);
    forall i | 0 <= i < i0
      ensures !MatchesAt(s, i)
    {
      NoMatchBeforeRun(s, i);
    }
    LeftmostMatchIs(s, 0, i0);
  }

  /**
   * The digit strip of line 41 on text without newlines: the result is the stripped
   * text before the first digit, and it contains no digit.
   */
  lemma DigitStrip(s: string)
    requires '\n' !in s
    ensures Trim(StripDigitTail(s)) == Trim(s[..FirstDigit(s)])
    ensures forall m :: 0 <= m < |Trim(StripDigitTail(s))| ==> !IsDigit(Trim(StripDigitTail(s))[m])
  {
    var t := s[..FirstDigit(s)];
    StripKeepsPrefix(s);
    forall m | 0 <= m < |t|
      ensures !IsDigit(t[m])
    {
      assert t[m] == s[m];
    }
    TrimKeepsNoDigit(t);
  }

  /** Without newlines, the stripped substitution equals the stripped text before the first digit. */
  lemma StripKeepsPrefix(s: string)
    requires '\n' !in s
    ensures Trim(StripDigitTail(s)) == Trim(s[..FirstDigit(s)])
  {
    if FirstDigit(s) < |s| {
      TrimCutBeforeSpaceRun(s);
    } else {
      StripNoDigit(s);
      assert s[..FirstDigit(s)] == s;
    }
  }

  /** The case of `StripKeepsPrefix` where the text holds a digit. */
  lemma TrimCutBeforeSpaceRun(s: string)
    requires '\n' !in s && FirstDigit(s) < |s|
    ensures Trim(StripDigitTail(s)) == Trim(s[..FirstDigit(s)])
  {
    TrimDropTrailingSpaces(s, SpaceRunStart(s, FirstDigit(s)), FirstDigit(s));
    CutBeforeSpaceRun(s);
  }

  /** Without newlines, the substitution keeps exactly the text before the whitespace run that precedes the first digit. */
  lemma CutBeforeSpaceRun(s: string)
    requires '\n' !in s && FirstDigit(s) < |s|
    ensures StripDigitTail(s) == s[..SpaceRunStart(s, FirstDigit(s))]
  {
    var d := FirstDigit(s);
    forall m | d + 1 <= m < |s| - 1
      ensures s[m] != '\n'
    {
      assert s[m] in s;
    }
    assert RestMatches(s, d + 1);
    LeftmostMatchAtFirstDigit(s);
    assert s[|s| - 1] in s;
    var i0 := SpaceRunStart(s, d);
    assert StripDigitTail(s) == s[..i0] + "";
  }

  /** Stripping cannot introduce a digit. */
  lemma TrimKeepsNoDigit(t: string)
    requires forall m :: 0 <= m < |t| ==> !IsDigit(t[m])
    ensures forall m :: 0 <= m < |Trim(t)| ==> !IsDigit(Trim(t)[m])
  {
    var a := |t| - |TrimLeft(t)|;
    TrimShape(t);
    forall m | 0 <= m < |Trim(t)|
      ensures !IsDigit(Trim(t)[m])
    {
      assert Trim(t)[m] == t[a + m];
    }
  }

  /** The city token of an address (lines 39-41). */
  function CityToken(location: string): (token: string)
  {
    var parts := Segments(location);
    Trim(StripDigitTail(parts[PickIndex(|parts|)]))
  }

  /**
   * Token position: an address made of comma-free segments yields the stripped, digit-cut
   * form of its only segment, of its second of two, or of its second-to-last of three or more.
   */
  lemma TokenPosition(segments: seq<string>)
    requires |segments| >= 1
    requires forall k :: 0 <= k < |segments| ==> ',' !in segments[k]
    ensures var n := |segments|;
      CityToken(Join(segments, ',')) ==
        Trim(StripDigitTail(Trim(
          if n == 1 then segments[0] else if n == 2 then segments[1] else segments[n - 2])))
  {
    var location, n := Join(segments, ','), |segments|;
    SplitJoin(segments, ',');
    var k := PickIndex(n);
    assert k == if n == 1 then 0 else if n == 2 then 1 else n - 2;
    assert Segments(location)[k] == Trim(segments[k]);
  }

  // ---- Normalization (lines 43-48) ----

  /** The lower-case search keys, in the order the if/elif chain tests them. */
  const Keys: seq<string> := ["jakarta", "bogor", "depok", "tangerang", "bekasi"]

  /** The canonical city names, aligned with `Keys`. */
  const Cities: seq<string> := ["Jakarta", "Bogor", "Depok", "Tangerang", "Bekasi"]

  /** The lower-cased token contains the key of priority `k`. */
  predicate Hit(token: string, k: nat)
    requires k < |Keys|
  {
    Contains(Lower(token), Keys[k])
  }

  /**
   * The if/elif chain: the canonical name of the first key the lower-cased token contains;
   * a token that contains none is kept as it is.
   */
  function Normalize(token: string): (city: string)
    ensures city in Cities || (city == token && forall k :: 0 <= k < |Keys| ==> !Hit(token, k))
  {
    var lowered := Lower(token);
    if Contains(lowered, "jakarta") then "Jakarta"
    else if Contains(lowered, "bogor") then "Bogor"
    else if Contains(lowered, "depok") then "Depok"
    else if Contains(lowered, "tangerang") then "Tangerang"
    else if Contains(lowered, "bekasi") then "Bekasi"
    else token
  }

  /** Priority: the earliest key contained in the token decides, whatever later keys it also contains. */
  lemma NormalizeFirstHit(token: string, k: nat)
    requires k < |Keys| && Hit(token, k)
    requires forall j :: 0 <= j < k ==> !Hit(token, j)
    ensures Normalize(token) == Cities[k]
  {
    if k > 0 { assert !Hit(token, 0); }
    if k > 1 { assert !Hit(token, 1); }
    if k > 2 { assert !Hit(token, 2); }
    if k > 3 { assert !Hit(token, 3); }
  }

  /** A token containing none of the keys is returned unchanged. */
  lemma NormalizeNoHit(token: string)
    requires forall k :: 0 <= k < |Keys| ==> !Hit(token, k)
    ensures Normalize(token) == token
  {
    assert !Hit(token, 0) && !Hit(token, 1) && !Hit(token, 2) && !Hit(token, 3) && !Hit(token, 4);
  }

  /**
   * Case-insensitivity: tokens that agree up to case hit the same keys, and a token that
   * hits a key gets the same city whatever its case.
   */
  lemma NormalizeIgnoresCase(t: string, u: string)
    requires |t| == |u|
    requires forall i :: 0 <= i < |t| ==> LowerChar(t[i]) == LowerChar(u[i])
    ensures forall k :: 0 <= k < |Keys| ==> Hit(t, k) == Hit(u, k)
    ensures (exists k :: 0 <= k < |Keys| && Hit(t, k)) ==> Normalize(t) == Normalize(u)
  {
    LowerIgnoresCase(t, u);
  }

  /** Lower-casing a canonical name gives its key. */
  lemma LowerCity(k: nat)
    requires k < |Cities|
    ensures Lower(Cities[k]) == Keys[k]
  {
    if k == 0 {
      assert Lower("Jakarta") == "jakarta";
    } else if k == 1 {
      assert Lower("Bogor") == "bogor";
    } else if k == 2 {
      assert Lower("Depok") == "depok";
    } else if k == 3 {
      assert Lower("Tangerang") == "tangerang";
    } else {
      assert Lower("Bekasi") == "bekasi";
    }
  }

  /** A key never occurs inside a later key: each has a character the later one lacks. */
  lemma KeysDistinct(j: nat, k: nat)
    requires j < k < |Keys|
    ensures !Contains(Keys[k], Keys[j])
  {
    var c := if j == 0 then 'j' else if j == 1 then (if k == 3 then 'o' else 'g')
             else if j == 2 then 'd' else 't';
    assert c in Keys[j] && c !in Keys[k];
    if Contains(Keys[k], Keys[j]) {
      ContainsChar(Keys[k], Keys[j], c);
    }
  }

  /** A canonical name contains its own key and none of the keys tested before it. */
  lemma CityHits(k: nat)
    requires k < |Cities|
    ensures Hit(Cities[k], k)
    ensures forall j :: 0 <= j < k ==> !Hit(Cities[k], j)
  {
    LowerCity(k);
    ContainsSelf(Keys[k]);
    forall j | 0 <= j < k
      ensures !Hit(Cities[k], j)
    {
      KeysDistinct(j, k);
    }
  }

  /** Each canonical name normalizes to itself. */
  lemma NormalizeCity(k: nat)
    requires k < |Cities|
    ensures Normalize(Cities[k]) == Cities[k]
  {
    CityHits(k);
    NormalizeFirstHit(Cities[k], k);
  }

  /** Normalizing twice is normalizing once. */
  lemma NormalizeIdempotent(token: string)
    ensures Normalize(Normalize(token)) == Normalize(token)
  {
    var city := Normalize(token);
    if city in Cities {
      var k :| 0 <= k < |Cities| && Cities[k] == city;
      NormalizeCity(k);
    }
  }

  /** The city recorded for an address: the normalized token. */
  function CityOf(location: string): (city: string)
    ensures city in Cities || (city == CityToken(location) && forall k :: 0 <= k < |Keys| ==> !Hit(city, k))
  {
    Normalize(CityToken(location))
  }
}
