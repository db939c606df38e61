/**
 * The city derivation worked out on sample addresses of the kind the scraped table holds.
 * Each sample string is a parameter pinned by a `requires` rather than a literal in the
 * `ensures`, so that the verifier does not evaluate the recursive string functions on it
 * in one step; every step is a small lemma of its own.
 */
module Samples {
  import opened Text
  import opened City

  /** A string lacking one of the characters of `needle` does not contain it. */
  lemma Lacks(hay: string, needle: string, c: char)
    requires c in needle && c !in hay
    ensures !Contains(hay, needle)
  {
    if Contains(hay, needle) {
      ContainsChar(hay, needle, c);
    }
  }

  lemma FirstDigitAt(s: string, d: nat)
    requires d < |s| && IsDigit(s[d])
    requires forall m :: 0 <= m < d ==> !IsDigit(s[m])
    ensures FirstDigit(s) == d
  {
  }

  // ---- Normalization of single tokens ----

  lemma LowerBekasiTimur(token: string)
    requires token == "BEKASI TIMUR"
    ensures Lower(token) == "bekasi timur"
  {
  }

  lemma BekasiTimurKeys(low: string)
    requires low == "bekasi timur"
    ensures forall j :: 0 <= j < 4 ==> !Contains(low, Keys[j])
    ensures Contains(low, Keys[4])
  {
    Lacks(low, Keys[0], 'j');
    Lacks(low, Keys[1], 'g');
    Lacks(low, Keys[2], 'd');
    Lacks(low, Keys[3], 'g');
    assert low[..|Keys[4]|] == Keys[4];
  }

  /** "BEKASI TIMUR" becomes Bekasi: the test is case-insensitive and matches inside the token. */
  lemma NormalizeBekasiTimur(token: string)
    requires token == "BEKASI TIMUR"
    ensures Normalize(token) == "Bekasi"
  {
    LowerBekasiTimur(token);
    BekasiTimurKeys(Lower(token));
    NormalizeFirstHit(token, 4);
  }

  lemma LowerSurabaya(token: string)
    requires token == "Surabaya"
    ensures Lower(token) == "surabaya"
  {
  }

  lemma SurabayaKeys(low: string)
    requires low == "surabaya"
    ensures forall k :: 0 <= k < |Keys| ==> !Contains(low, Keys[k])
  {
    Lacks(low, Keys[0], 'j');
    Lacks(low, Keys[1], 'g');
    Lacks(low, Keys[2], 'd');
    Lacks(low, Keys[3], 'g');
    Lacks(low, Keys[4], 'e');
  }

  /** "Surabaya" hits no key and is kept as it is. */
  lemma NormalizeSurabaya(token: string)
    requires token == "Surabaya"
    ensures Normalize(token) == token
  {
    LowerSurabaya(token);
    SurabayaKeys(Lower(token));
    NormalizeNoHit(token);
  }

  // ---- An address of four segments ----

  lemma BekasiSegment(s: string)
    requires s == " Bekasi"
    ensures Trim(StripDigitTail(Trim(s))) == "Bekasi"
  {
    TrimExact(s, 1, |s|);
    var t := s[1..];
    StripNoDigit(t);
    TrimExact(t, 0, |t|);
  }

  /** Four segments: the second-to-last, " Bekasi", gives the city; the postal code is ignored. */
  lemma FourSegmentExample(street: string, district: string, city: string, postal: string)
    requires street == "Jl. A" && district == " Kec. B" && city == " Bekasi" && postal == " 17510"
    ensures CityOf(street + [','] + district + [','] + city + [','] + postal) == "Bekasi"
  {
    var segments := [street, district, city, postal];
    assert Join(segments[2..], ',') == city + [','] + postal;
    assert Join(segments[1..], ',') == district + [','] + (city + [','] + postal);
    assert Join(segments, ',') == street + [','] + district + [','] + city + [','] + postal;
    TokenPosition(segments);
    BekasiSegment(city);
    NormalizeCity(4);
  }

  // ---- An address of two segments ----

  /** An address of two comma-free parts yields the stripped, digit-cut second part. */
  lemma TwoSegments(address: string, street: string, rest: string)
    requires address == street + [','] + rest
    requires ',' !in street && ',' !in rest
    ensures CityToken(address) == Trim(StripDigitTail(Trim(rest)))
  {
    var segments := [street, rest];
    assert Join(segments, ',') == address;
    TokenPosition(segments);
  }

  lemma FirstDigitJakartaSelatan(t: string)
    requires t == "Jakarta Selatan 12950"
    ensures FirstDigit(t) == 16
  {
    FirstDigitAt(t, 16);
  }

  lemma StripJakartaSelatan(t: string)
    requires t == "Jakarta Selatan 12950"
    ensures Trim(StripDigitTail(t)) == Trim(t[..16])
  {
    FirstDigitJakartaSelatan(t);
    DigitStrip(t);
  }

  lemma TrimJakartaSelatanBlank(t: string)
    requires t == "Jakarta Selatan 12950"
    ensures Trim(t[..16]) == t[..15]
  {
    TrimExact(t[..16], 0, 15);
  }

  /** The postal code and the blank before it are cut off. */
  lemma JakartaSelatanCut(t: string)
    requires t == "Jakarta Selatan 12950"
    ensures Trim(StripDigitTail(t)) == t[..15]
  {
    StripJakartaSelatan(t);
    TrimJakartaSelatanBlank(t);
  }

  lemma TrimJakartaSelatan(s: string)
    requires s == " Jakarta Selatan 12950"
    ensures Trim(s) == s[1..]
  {
    TrimExact(s, 1, |s|);
  }

  lemma JakartaSelatanSegment(s: string)
    requires s == " Jakarta Selatan 12950"
    ensures Trim(StripDigitTail(Trim(s))) == "Jakarta Selatan"
  {
    TrimJakartaSelatan(s);
    var t := s[1..];
    JakartaSelatanCut(t);
  }

  /** Two segments: the second is cut before its postal code ... */
  lemma TwoSegmentToken(street: string, rest: string)
    requires street == "Jl. Mangga No. 5" && rest == " Jakarta Selatan 12950"
    ensures CityToken(street + [','] + rest) == "Jakarta Selatan"
  {
    TwoSegments(street + [','] + rest, street, rest);
    JakartaSelatanSegment(rest);
  }

  lemma NormalizeJakartaSelatan(token: string)
    requires token == "Jakarta Selatan"
    ensures Normalize(token) == "Jakarta"
  {
    var low := Lower(token);
    assert low[..|Keys[0]|] == Keys[0];
    NormalizeFirstHit(token, 0);
  }

  /** ... and the token normalizes to Jakarta. */
  lemma TwoSegmentExample(street: string, rest: string)
    requires street == "Jl. Mangga No. 5" && rest == " Jakarta Selatan 12950"
    ensures CityOf(street + [','] + rest) == "Jakarta"
  {
    TwoSegmentToken(street, rest);
    NormalizeJakartaSelatan(CityToken(street + [','] + rest));
  }
}
